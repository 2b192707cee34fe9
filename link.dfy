/**
  Link of Link.h: an intrusive circular doubly-linked list.  Every node is a
  list; a node alone is a self-loop, the empty list.  LinkBase and Link<T>
  are one class here, `Link`, carrying the element.

  The pointer rewiring is modelled on the objects themselves.  What a whole
  list looks like is described by a ghost sequence `r` of its nodes, starting
  at the node an operation is called on: `IsRing(r)` says the nodes are
  distinct and each one's next is the following node and the following
  node's prev is it, around the circle.
*/
module LinkList {

  class Link<T(==)> {
    /** m_next and m_prev; NULL only before initialisation */
    var next: Link?<T>
    var prev: Link?<T>
    /** m_data of Link<t_element> */
    var data: T

    /** IsValid(): the neighbours point back at this node. */
    ghost predicate IsValid()
      reads this, next, prev
    {
      next != null && prev != null && next.prev == this && prev.next == this
    }

    /** Link(elem): InitLinks makes the node a self-loop, an empty list. */
    constructor (elem: T)
      ensures next == this && prev == this && data == elem
      ensures IsRing([this])
    {
      data := elem;
      new;
      next := this;
      prev := this;
    }

    /** Reset(): the node becomes a self-loop again; neighbours that still
        point at it are not touched. */
    method Reset()
      modifies this
      ensures next == this && prev == this && IsRing([this])
      ensures data == old(data)
    {
      next := this;
      prev := this;
    }

    /** IsEmpty(): the list has no node besides this one. */
    method IsEmpty(ghost r: seq<Link<T>>) returns (e: bool)
      requires IsRing(r) && r[0] == this
      ensures e <==> |r| == 1
    {
      RingEnds(r);
      e := next == this;
    }

    /** Cut(): the node leaves its list, its neighbours are joined, and it is
        left a self-loop. */
    method Cut(ghost r: seq<Link<T>>)
      requires IsRing(r) && r[0] == this
      modifies this, next, prev
      ensures next == this && prev == this && IsRing([this])
      ensures |r| > 1 ==> IsRing(r[1..])
      ensures old(prev).next == old(next) && old(next).prev == old(prev)
      ensures forall x :: x in r ==> x.data == old(x.data)
    {
      RingEnds(r);
      var p, n := prev, next;
      p.next := n;
      n.prev := p;
      next := this;
      prev := this;
      if |r| > 1 {
        ghost var s := r[1..];
        forall i | 0 <= i < |s| - 1
          ensures s[i].next == s[i + 1] && s[i + 1].prev == s[i]
        {
          assert s[i] == r[i + 1] && s[i] != p && s[i] != this;
          assert s[i + 1] == r[i + 2] && s[i + 1] != n && s[i + 1] != this;
        }
      }
    }

    /** AddAfter(p): requires p to be an empty list other than this node and
        its successor; p becomes the immediate successor of this node. */
    method AddAfter(p: Link<T>, ghost r: seq<Link<T>>)
      requires IsRing(r) && r[0] == this
      requires p != this && p != next && p.next == p && p.prev == p
      modifies this, p, next
      ensures next == p && p.prev == this && p.next == old(next) && old(next) != null && old(next).prev == p
      ensures IsRing([this, p] + r[1..])
      ensures p.data == old(p.data) && forall x :: x in r ==> x.data == old(x.data)
    {
      RingEnds(r);
      NotInRing(r, p);
      var n := next;
      p.prev := this;
      p.next := n;
      // Fix()
      p.prev.next := p;
      p.next.prev := p;
      ghost var t := [this, p] + r[1..];
      forall k | 2 <= k < |t| - 1
        ensures t[k].next == t[k + 1] && t[k + 1].prev == t[k]
      {
        assert t[k] == r[k - 1] && t[k + 1] == r[k];
        assert old(r[k - 1].next) == r[k] && old(r[k].prev) == r[k - 1];
      }
    }

    /** AddBefore(p): p becomes the immediate predecessor of this node. */
    method AddBefore(p: Link<T>, ghost r: seq<Link<T>>)
      requires IsRing(r) && r[0] == this
      requires p != this && p != prev && p.next == p && p.prev == p
      modifies this, p, prev
      ensures prev == p && p.next == this && p.prev == old(prev) && old(prev) != null && old(prev).next == p
      ensures IsRing(r + [p])
      ensures p.data == old(p.data) && forall x :: x in r ==> x.data == old(x.data)
    {
      RingEnds(r);
      NotInRing(r, p);
      var q := prev;
      p.next := this;
      p.prev := q;
      // Fix()
      p.prev.next := p;
      p.next.prev := p;
      ghost var t := r + [p];
      forall k | 0 <= k < |r| - 1
        ensures t[k].next == t[k + 1] && t[k + 1].prev == t[k]
      {
        assert t[k] == r[k] && t[k + 1] == r[k + 1];
        assert old(r[k].next) == r[k + 1] && old(r[k + 1].prev) == r[k];
      }
    }

    /** AddListAfter(list): requires `list` to be a list disjoint from this
        one; the whole of it is spliced in right after this node. */
    method AddListAfter(list: Link<T>, ghost r: seq<Link<T>>, ghost rl: seq<Link<T>>)
      requires IsRing(r) && r[0] == this && IsRing(rl) && rl[0] == list
      requires forall x :: x in rl ==> x !in r
      modifies this, next, list, list.prev
      ensures IsRing([this] + rl + r[1..])
      ensures (forall x :: x in r ==> x.data == old(x.data)) && forall x :: x in rl ==> x.data == old(x.data)
    {
      RingEnds(r);
      RingEnds(rl);
      var listEnd := list.prev;
      ghost var n := next;
      assert n in r && listEnd in rl;
      list.prev := this;
      listEnd.next := next;
      list.prev.next := list;
      listEnd.next.prev := listEnd;
      ghost var t: seq<Link<T>> := [this] + rl + r[1..];
      ghost var m := |rl|;
      forall k | 1 <= k < m
        ensures t[k].next == t[k + 1] && t[k + 1].prev == t[k]
      {
        assert t[k] == rl[k - 1] && t[k + 1] == rl[k];
        assert old(rl[k - 1].next) == rl[k] && old(rl[k].prev) == rl[k - 1];
        assert rl[k - 1] != listEnd && rl[k] != list;
      }
      DistinctSplice(r, rl);
      forall k | m < k < |t| - 1
        ensures t[k].next == t[k + 1] && t[k + 1].prev == t[k]
      {
        assert t[k] == r[k - m] && t[k + 1] == r[k - m + 1];
        assert old(r[k - m].next) == r[k - m + 1] && old(r[k - m + 1].prev) == r[k - m];
      }
    }

    /** AddListBefore(list): the whole of `list` is spliced in right before
        this node. */
    method AddListBefore(list: Link<T>, ghost r: seq<Link<T>>, ghost rl: seq<Link<T>>)
      requires IsRing(r) && r[0] == this && IsRing(rl) && rl[0] == list
      requires forall x :: x in rl ==> x !in r
      modifies this, prev, list, list.prev
      ensures IsRing(r + rl)
      ensures (forall x :: x in r ==> x.data == old(x.data)) && forall x :: x in rl ==> x.data == old(x.data)
    {
      RingEnds(r);
      RingEnds(rl);
      var listEnd := list.prev;
      ghost var q := prev;
      assert q in r && listEnd in rl;
      list.prev := prev;
      listEnd.next := this;
      list.prev.next := list;
      listEnd.next.prev := listEnd;
      ghost var t: seq<Link<T>> := r + rl;
      ghost var m := |r|;
      forall k | 0 <= k < m - 1
        ensures t[k].next == t[k + 1] && t[k + 1].prev == t[k]
      {
        assert t[k] == r[k] && t[k + 1] == r[k + 1];
        assert old(r[k].next) == r[k + 1] && old(r[k + 1].prev) == r[k];
      }
      DistinctAppend(r, rl);
      forall k | m <= k < |t| - 1
        ensures t[k].next == t[k + 1] && t[k + 1].prev == t[k]
      {
        assert t[k] == rl[k - m] && t[k + 1] == rl[k - m + 1];
        assert old(rl[k - m].next) == rl[k - m + 1] && old(rl[k - m + 1].prev) == rl[k - m];
        assert rl[k - m] != listEnd && rl[k - m + 1] != list;
      }
    }

    /** GetListLength(): walks the list and counts the nodes other than this. */
    method GetListLength(ghost r: seq<Link<T>>) returns (len: int)
      requires IsRing(r) && r[0] == this
      ensures len == |r| - 1
    {
      var node := next;
      len := 0;
      while node != this
        invariant 0 <= len < |r|
        invariant node == if len + 1 < |r| then r[len + 1] else r[0]
        decreases |r| - len
      {
        node := node.next;
        len := len + 1;
      }
    }

    /** ListContains(q): q is this node or one reached walking forward. */
    method ListContains(q: Link<T>, ghost r: seq<Link<T>>) returns (b: bool)
      requires IsRing(r) && r[0] == this
      ensures b <==> q in r
    {
      if q == this {
        return true;
      }
      var node := next;
      var i := 1;
      while node != this
        invariant 1 <= i <= |r|
        invariant node == if i < |r| then r[i] else r[0]
        invariant forall j :: 1 <= j < i ==> r[j] != q
        decreases |r| - i
      {
        if node == q {
          return true;
        }
        node := node.next;
        i := i + 1;
      }
      return false;
    }

    /** FindNext(elem): the first node after this one, walking forward, whose
        data equals `elem`; NULL when none does.  This node is not looked at. */
    method FindNext(elem: T, ghost r: seq<Link<T>>) returns (found: Link?<T>)
      requires IsRing(r) && r[0] == this
      ensures found == null <==> forall j :: 1 <= j < |r| ==> r[j].data != elem
      ensures found != null ==> exists i :: 1 <= i < |r| && r[i] == found && found.data == elem &&
                                  forall j :: 1 <= j < i ==> r[j].data != elem
    {
      var node := next;
      var i := 1;
      while node != this
        invariant 1 <= i <= |r|
        invariant node == if i < |r| then r[i] else r[0]
        invariant forall j :: 1 <= j < i ==> r[j].data != elem
        decreases |r| - i
      {
        if node.data == elem {
          return node;
        }
        node := node.next;
        i := i + 1;
      }
      return null;
    }

    /** FindPrev(elem): the first node before this one, walking backward,
        whose data equals `elem`; NULL when none does. */
    method FindPrev(elem: T, ghost r: seq<Link<T>>) returns (found: Link?<T>)
      requires IsRing(r) && r[0] == this
      ensures found == null <==> forall j :: 1 <= j < |r| ==> r[j].data != elem
      ensures found != null ==> exists i :: 1 <= i < |r| && r[i] == found && found.data == elem &&
                                  forall j :: i < j < |r| ==> r[j].data != elem
    {
      var node := prev;
      var i := |r| - 1;
      while node != this
        invariant 0 <= i < |r|
        invariant node == r[i]
        invariant forall j :: i < j < |r| ==> r[j].data != elem
        decreases i
      {
        if node.data == elem {
          return node;
        }
        node := node.prev;
        i := i - 1;
      }
      return null;
    }
  }

  /** The nodes of `r`, in order, form one circular list. */
  ghost predicate IsRing<T>(r: seq<Link<T>>)
    reads set x | x in r
  {
    |r| >= 1 &&
    Distinct(r) &&
    (forall i :: 0 <= i < |r| - 1 ==> r[i].next == r[i + 1] && r[i + 1].prev == r[i]) &&
    r[|r| - 1].next == r[0] && r[0].prev == r[|r| - 1]
  }

  /** Every node of a list is valid: its neighbours point back at it. */
  lemma RingNodesValid<T>(r: seq<Link<T>>, i: nat)
    requires IsRing(r) && i < |r|
    ensures r[i].IsValid()
  {
    if i < |r| - 1 {
      assert r[i].next == r[i + 1];
    }
    if i > 0 {
      assert r[i - 1].next == r[i];
    }
  }

  /** A self-loop node is in no longer list. */
  lemma NotInRing<T>(r: seq<Link<T>>, p: Link<T>)
    requires IsRing(r) && p != r[0] && p.next == p
    ensures p !in r
  {
    forall i | 0 <= i < |r|
      ensures r[i] != p
    {
      if 0 < i < |r| - 1 {
        assert r[i].next == r[i + 1] != r[i];
      } else if 0 < i {
        assert r[i].next == r[0] != r[i];
      }
    }
  }

  /** The neighbours of the first node of a list. */
  lemma RingEnds<T>(r: seq<Link<T>>)
    requires IsRing(r)
    ensures r[0].next == (if |r| > 1 then r[1] else r[0]) && r[0].prev == r[|r| - 1]
    ensures r[|r| - 1].next == r[0]
    ensures |r| > 1 ==> r[1].prev == r[0]
  {
  }

  /** No node occurs twice. */
  ghost predicate Distinct<T>(r: seq<Link<T>>)
  {
    forall i, j :: 0 <= i < j < |r| ==> r[i] != r[j]
  }

  /** A list spliced in after the first node of a disjoint one repeats no node. */
  lemma DistinctSplice<T>(r: seq<Link<T>>, rl: seq<Link<T>>)
    requires |r| >= 1 && Distinct(r) && Distinct(rl)
    requires forall x :: x in rl ==> x !in r
    ensures Distinct([r[0]] + rl + r[1..])
  {
    var t := [r[0]] + rl + r[1..];
    var m := |rl|;
    forall i, j | 0 <= i < j < |t|
      ensures t[i] != t[j]
    {
      if j <= m {
        if i > 0 { assert t[i] == rl[i - 1] && t[j] == rl[j - 1]; }
        else { assert t[j] == rl[j - 1] && rl[j - 1] in rl && r[0] in r; }
      } else if i <= m {
        assert t[j] == r[j - m] && r[j - m] in r;
        if i > 0 { assert t[i] == rl[i - 1] && rl[i - 1] in rl; }
        else { assert t[i] == r[0]; }
      } else {
        assert t[i] == r[i - m] && t[j] == r[j - m];
      }
    }
  }

  /** A list spliced in before the first node of a disjoint one repeats no node. */
  lemma DistinctAppend<T>(r: seq<Link<T>>, rl: seq<Link<T>>)
    requires Distinct(r) && Distinct(rl)
    requires forall x :: x in rl ==> x !in r
    ensures Distinct(r + rl)
  {
    var t := r + rl;
    var m := |r|;
    forall i, j | 0 <= i < j < |t|
      ensures t[i] != t[j]
    {
      if j < m {
        assert t[i] == r[i] && t[j] == r[j];
      } else if i < m {
        assert t[i] == r[i] && r[i] in r && t[j] == rl[j - m] && rl[j - m] in rl;
      } else {
        assert t[i] == rl[i - m] && t[j] == rl[j - m];
      }
    }
  }
}
