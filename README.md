# cblib core, modelled in Dafny

cblib is a C++ utility library.  This project models its integer, string and
container logic: the `char*` helpers (StrUtil, MoreUtil), the wildcard
matcher, the printf format checker, the copy-on-write `String`, the preference
text format, the vectors, sorted vector, prime hash table and intrusive list,
the weak-pointer handle table and the small-block allocator, the integer
geometry (Util, Rect, Vec3i, polygon decomposition and triangulation, hull
bookkeeping), the packed colour word and LOCO-I transform, the Google Chart
encoders and the BMP/DIB/TGA/PPM decoders and FloatImage copying.

A C string is modelled by its content, a NUL-free `seq<char>` whose terminator
sits just past its end; a buffer the C++ writes in place is an `array<char>`
holding such a string.  A returned `char*` becomes an index, or an `Option`
where the source can return NULL.  Each module corresponds to one source file
(`StrUtil` is StrUtil.cpp, `StrUtilH` is StrUtil.h, and so on); `CLib` holds the
C runtime functions the code relies on (`strlen`, `strcmp`, `strstr`,
`<ctype.h>` in the "C" locale, `%d` printing, `atoi`) and `Wrappers` holds
`Option` and `Result`.

## Model

| member | source | states |
|---|---|---|
| `StrUtil.IsNumber` | StrUtil.cpp:9-28 | true iff the text is optional white space, a sign, digits, an optional point and digits, an optional exponent, and white space to the end |
| `StrUtil.IsNumberOfInteger` | StrUtil.cpp:9-28 | every signed run of digits (and the empty string) is accepted |
| `StrUtil.Skipwhitespace` | StrUtil.cpp:134-142 | returns the first position at or after the start that is not `isspace` |
| `StrUtil.Killtailingwhite` | StrUtil.cpp:144-159 | NULs exactly the trailing white space, so the buffer then holds the content with trailing white space removed |
| `StrUtil.TrimEndAt` | StrUtil.cpp:144-159 | the trimmed string is the longest prefix that does not end in white space |
| `StrUtil.Strpresamelen` | StrUtil.cpp:193-204 | the result is the length of the longest common prefix, at most the shorter length |
| `StrUtil.Strpresame` | StrUtil.cpp:206-216 | true exactly when `pre` is a prefix of `str`; the empty prefix always matches |
| `StrUtil.Stripresame` | StrUtil.cpp:218-228 | true exactly when `pre` is a prefix of `str` after `toupper` on both |
| `StrUtil.Strlcpy` | StrUtil.cpp:242-248 | copies min(strlen(fm)+1, maxLen) chars, stores NUL at `to[maxLen-1]`, so the destination holds the first min(strlen(fm), maxLen-1) chars |
| `StrUtil.Strncpy` | StrUtil.h:122-126 | delegates to `strlcpy`, so the destination is always terminated |
| `StrUtil.StrtcmpAsWritten` | StrUtil.cpp:269-287 | the loop as written never returns 0: it returns None (runs past both terminators) exactly when the strings agree token-wise on their common length |
| `StrUtil.Strtcmp` | StrUtil.cpp:269-287 | corrected: the difference of the first mismatching `tokenchar`s, and 0 iff the strings are token-equal |
| `StrUtil.Stristr` | StrUtil.cpp:289-308 | the first position where `search_for` matches case-insensitively; none when it is empty or absent |
| `StrUtil.Strrstr` | StrUtil.cpp:332-352 | the last position where `search_for` matches exactly; none when it is empty or absent |
| `StrUtil.Strchrset` | StrUtil.cpp:369-388 | the first position holding a char of the set, none when there is none |
| `StrUtil.Strrep` | StrUtil.cpp:432-442 | exactly the positions holding `fm` now hold `to`; length and every other char unchanged |
| `StrUtil.ReplacedCounts` | StrUtil.cpp:432-442 | after replacing, no `fm` is left and the `to` count grows by the old `fm` count |
| `StrUtil.Strins` | StrUtil.cpp:444-458 | the buffer then reads `fm` followed by the old string, and the result is `to + strlen(fm)` |
| `StrUtil.Strcount` | StrUtil.cpp:460-472 | the number of positions holding `c` |
| `StrUtil.Argstr` | StrUtil.cpp:523-547 | the value after the option letters, skipping white space and one '=', else the next argument, else none with `i = argc` |
| `StrUtil.Sprintfcommas` | StrUtil.cpp:593-641 | writes '-' for negatives, an unpadded leading group and then ',' plus three zero-padded digits per group, NUL-terminated |
| `StrUtil.CommasAreDigits` | StrUtil.cpp:593-641 | removing the commas from the grouped text gives the plain decimal digits |
| `StrUtil.SprintfcommasDigits` | StrUtil.cpp:593-641 | for every int64, the written text without its commas is `%lld` of the number |
| `StrUtil.SprintfcommasPlaceOverflow` | StrUtil.cpp:606-612 | the place-value loop multiplies past 10^18 and wraps in int64 |
| `StrUtil.ExpandStrEscapes` | StrUtil.cpp:783-821 | the buffer holds the escape expansion of `fm` (`\n`, `\r`, `\t`, `\\`, decimal codes consumed while the value is below 26, masked to a byte, other escapes kept), NUL-terminated |
| `StrUtil.ExpandEscape` | StrUtil.cpp:783-821 | expanding the escaped form of any string gives the string back |
| `StrUtil.ExpandedDigitsExamples` | StrUtil.cpp:797-806 | `\255` is one byte 255; `\300` stops after "30" because 30 is not below 26 |
| `StrUtil.ExpandStrEscapesOverrun` | StrUtil.cpp:783-821 | as written, a trailing backslash consumes the terminator and keeps reading past it |
| `MoreUtil.IsStringInVec` | MoreUtil.cpp:10-86 | true iff some element matches `str` in the chosen way (equal, prefix or substring; exact or case-insensitive) |
| `MoreUtil.IsStringInVecI` | MoreUtil.cpp:10-21 | true iff some element equals `str` ignoring case |
| `MoreUtil.IsStringInVecC` | MoreUtil.cpp:23-34 | true iff some element equals `str` exactly |
| `MoreUtil.IsStringPrefixInVecI` | MoreUtil.cpp:36-47 | true iff some element is a case-insensitive prefix of `str` |
| `MoreUtil.IsStringPrefixInVecC` | MoreUtil.cpp:49-60 | true iff some element is a prefix of `str`; an empty element always matches |
| `MoreUtil.IsStringPortionInVecI` | MoreUtil.cpp:62-73 | true iff some non-empty element occurs in `str` ignoring case |
| `MoreUtil.IsStringPortionInVecC` | MoreUtil.cpp:75-86 | true iff some element occurs in `str` |
| `MoreUtil.ParseSemicolonsToStringVec` | MoreUtil.cpp:104-122 | a NULL filter adds nothing; otherwise the ';'-separated pieces are appended in order |
| `MoreUtil.PushPieces` | MoreUtil.cpp:108-121 | the vector grows by exactly the ';'-split pieces of the text |
| `MoreUtil.JoinSplit` | MoreUtil.cpp:104-122 | joining the split pieces with ';' gives the text back |
| `MoreUtil.SplitJoin` | MoreUtil.cpp:104-122 | splitting the ';'-join of pieces free of ';' gives the pieces back |
| `MoreUtil.GetSubStr` | MoreUtil.cpp:124-145 | the text strictly between the first `startDelim` and the next `endDelim`, with `*pAfter` just past `endDelim`; empty with `*pAfter == str` when either is missing |
| `MoreUtil.GetSubStrOfWrapped` | MoreUtil.cpp:124-145 | for text `a startDelim t endDelim b` with no delimiters in `a` and `t`, the result is `t` |
| `MoreUtil.KillHeadTailWhite` | MoreUtil.cpp:147-155 | never returns a one-char string |
| `MoreUtil.KillHeadTailWhiteTrims` | MoreUtil.cpp:147-155 | strips leading and trailing white space, and returns empty whenever one char or less remains |
| `MoreUtil.KillHeadTailWhiteDropsOneChar` | MoreUtil.cpp:150-152 | " x " yields empty, where trimming would give "x" |
| `MoreUtil.KillHeadTailWhiteAgrees` | MoreUtil.cpp:147-155 | agrees with plain trimming whenever at least two chars remain |
| `MoreUtil.KillHeadTailWhiteAndQuotesUnquotes` | MoreUtil.cpp:158-177 | white space around one matching pair of `"` or `'` is stripped together with the pair |
| `MoreUtil.StrstrorendFirst` | StrUtil.cpp:512-516 | the first match of the pattern, or the end of the string when there is none |
| `MoreUtil.SkipCppCommentsSkips` | MoreUtil.cpp:270-288 | skips a `//` comment up to its newline and a `/*` comment up to its `*/`, stopping at the newline or at the `*` of the first `*/` (or at the end); anywhere else it stays put |
| `MoreUtil.FindMatchingBrace` | MoreUtil.cpp:303-333 | one past the `close` that balances the nesting depth, or none when the text ends first |
| `MoreUtil.FindMatchingBraceBalances` | MoreUtil.cpp:303-333 | on text with no '/' after the opening brace (so no comments), at the returned position the opens and closes balance for the first time; when it fails they never balance |
| `MoreUtil.FindMatchingBraceSkipsComment` | MoreUtil.cpp:311-320 | a brace inside a `/* */` comment is not counted |
| `MoreUtil.Myatof` | MoreUtil.cpp:377-407 | the text handed to `atof`: an optional '-' then the digits and points, with commas dropped |
| `MoreUtil.MyatofReadsCommas` | MoreUtil.cpp:377-407 | reading back the comma-grouped text of any integer gives the integer |
| `MoreUtil.Itoacommas` | MoreUtil.cpp:409-453 | writes the comma-grouped decimal with a leading '-' and "0" for zero; for INT_MIN the negation wraps and only "-" is written |
| `MoreUtil.Itoacommas64` | MoreUtil.cpp:456-502 | the same for int64, with "-" alone for the minimum value |
| `MoreUtil.ItoacommasIntended` | MoreUtil.cpp:409-453 | corrected: the comma-grouped decimal of every number, the minimum value included |
| `MoreUtil.ItoacommasMinValue` | MoreUtil.cpp:419-423 | negating the minimum value wraps to itself, so the as-written output differs from the grouped decimal |
| `MoreUtil.RevGroupsCommas` | MoreUtil.cpp:428-452 | the reversed digit-and-comma text, reversed again, is the comma-grouped decimal |
| `MoreUtil.CountNumSame` | MoreUtil.cpp:566-580 | the length of the identical prefix of the buffers, at most `size` |
| `MoreUtil.AreBuffersSame` | MoreUtil.cpp:582-591 | true iff the first `size` bytes agree |
| `MoreUtil.Stripresameadvance` | MoreUtil.cpp:504-520 | after white space, a case-insensitive match advances past it and the following white space; otherwise the pointer is unchanged |
| `MoreUtil.NexttokSkipquotes` | MoreUtil.cpp:599-635 | writes NUL at the first delimiter outside quotes and returns the rest; a newline is returned unwritten; none at the end or on an unterminated quote |
| `MoreUtil.TokScanSkipsQuoted` | MoreUtil.cpp:610-624 | a quoted span is skipped as a whole |
| `MoreUtil.NexttokExample` | MoreUtil.cpp:599-635 | in `a,"b,c",d` the delimiters found are at 1 and then 7 |
| `StrUtilH.MacroToLower` | StrUtil.h:54 | changes only 'A'..'Z', to the matching lower-case letter |
| `StrUtilH.TokenChar` | StrUtil.h:129-139 | maps '\\' to '/' and sets bit 0x20: upper-case letters become lower case, chars with that bit and not '\\' are unchanged, the result is never NUL |
| `StrUtilH.TokenCharFolds` | StrUtil.h:129-139 | `tokenchar` is idempotent, identifies '\\' with '/', and identifies the two cases of a letter |
| `StrUtilH.TokenCharOfNul` | StrUtil.h:129-139 | the terminator maps to ' ', which is what breaks the `c1 == 0` test in `strtcmp` |
| `StrUtilH.Strend` | StrUtil.h:250-257 | the position of the terminating NUL |
| `StrUtilH.Strrchrorend` | StrUtil.h:98-113 | the last occurrence of `c`, or the end when there is none |
| `StrUtilH.Strstrend` | StrUtil.h:208-213 | the position just past the first match, or none when the pattern is absent |
| `StrUtilH.Strtsame` | StrUtil.h:147-150 | true iff the strings have equal length and equal `tokenchar`s |
| `StrUtilH.Strisame` | StrUtil.h:259-267 | `stricmp == 0`: equal length and equal after case folding |
| `StrUtilH.Strsame` | StrUtil.h:259-267 | `strcmp == 0`: the strings are equal |
| `Util.Same` | Util.h:25-36 | true iff every element equals the first |
| `Util.ArrayMin` | Util.h:69-80 | an element of the range no greater than any other |
| `Util.ArrayMax` | Util.h:82-93 | an element of the range no smaller than any other |
| `Util.EraseU` | Util.h:140-145 | one shorter; the last element moves into the erased slot, every other slot is unchanged |
| `Util.EraseUMultiset` | Util.h:140-145 | exactly the erased element is removed, in some order |
| `Util.Clamp` | Util.h:367-371 | `lo` below the range, `hi` above it, `x` otherwise |
| `Util.ClampRange` | Util.h:367-371 | with lo <= hi the result is in [lo, hi], is x iff x is, and clamping is idempotent |
| `Util.ClampTo8` | Util.h:373-376 | the result is a byte, equal to the input iff the input is a byte |
| `Util.IsPow2Exactly` | Util.h:378-381 | `!(x & ~(-x))` holds for 0, INT_MIN and the positive powers of two, and nothing else |
| `Util.NextPow2` | Util.h:384-393 | the smallest power of two >= x, 1 for x <= 1 |
| `Util.PrevPow2` | Util.h:396-401 | the largest power of two <= x |
| `Util.AlignUpBounds` | Util.h:404-410 | for a power-of-two alignment `AlignUp(v,a)` is a multiple of a in [v, v+a) when no wrap occurs |
| `Util.AlignUpWraps` | Util.h:404-410 | in uint32 the round-up wraps to 0 near the top of the range |
| `Util.AlignDownBounds` | Util.h:412-417 | `AlignDown(v,a)` is a multiple of a in (v-a, v] |
| `Util.ScopedSet.constructor` | Util.h:459-476 | sets `*ptr` to the new value and remembers the previous one |
| `Util.ScopedSet.Restore` | Util.h:459-476 | the destructor puts the previous value back |
| `Rect.RectI.constructor` | Rect.h:71-88 | the rect spans the given ranges |
| `Rect.RectI.Point` | Rect.h:71-88 | a valid rect containing exactly the point |
| `Rect.RectI.ContainsPoint` | Rect.h:225-232 | inclusive bounds on both axes |
| `Rect.RectI.ContainsRect` | Rect.h:234-241 | true iff every point of the argument is inside |
| `Rect.RectI.ExtendToPoint` | Rect.h:160-169 | the rect only grows, stays valid and contains the point |
| `Rect.ExtendedToLeast` | Rect.h:160-169 | the extended rect is the smallest one containing the old rect and the point |
| `Rect.RectI.SetEnclosing` | Rect.h:176-185 | componentwise min of the lows and max of the highs |
| `Rect.EnclosingLeast` | Rect.h:176-185 | the enclosing rect contains both inputs and lies in every rect that does |
| `Rect.RectI.SetIntersection` | Rect.h:202-223 | returns false iff the intersection is empty; true leaves a valid rect |
| `Rect.MeetIsIntersection` | Rect.h:202-256 | the meet holds exactly the common points, lies in both inputs, and is valid iff `Intersects` holds |
| `Rect.OverlapsSymmetric` | Rect.h:243-256 | `Intersects`, intersection and enclosure are symmetric |
| `Rect.RectI.Expand` | Rect.h:258-265 | every edge moves outward by r |
| `Rect.GrownProperties` | Rect.h:258-265 | growing keeps validity, encloses the old rect, and composes additively |
| `Color.ChannelsOfPack` | Color.h:75-86 | packing four bytes and reading them back returns each channel |
| `Color.PackOfChannels` | Color.h:126-129 | every word is the packing of its four channels |
| `Color.WordChannels` | Color.h:196-197 | two words are equal iff all four channels are |
| `Color.ColorDW.constructor` | Color.h:108 | packs the channels, alpha 255 by default |
| `Color.ColorDW.Set` | Color.h:365-372 | packs A<<24, R<<16, G<<8, B, and the getters return the channels |
| `Color.ColorDW.SetR` | Color.h:132-135 | changes only the red byte |
| `Color.ColorDW.SetG` | Color.h:132-135 | changes only the green byte |
| `Color.ColorDW.SetB` | Color.h:132-135 | changes only the blue byte |
| `Color.ColorDW.SetA` | Color.h:132-135 | changes only the alpha byte |
| `Color.Clamp255` | Color.h:638-641 | a byte, equal to the input iff the input is one, 0 below and 255 above |
| `Color.DistanceSqrZero` | Color.h:393-414 | both distances are symmetric; the 4-channel one is zero iff the words are equal, the RGB one iff R, G and B are |
| `ColorConversions.LocoChannels` | ColorConversions.cpp:90-106 | R' = (R-G+128)&0xFF, B' = (B-G+128)&0xFF, G and A unchanged, and the inverse likewise |
| `ColorConversions.LowByteRoundTrip` | ColorConversions.cpp:90-106 | adding and subtracting G-128 modulo 256 cancel on a byte |
| `ColorConversions.LocoRoundTrip` | ColorConversions.cpp:90-106 | the inverse undoes the transform and the transform undoes the inverse on every colour |
| `VectorFlex.Vector.constructor` | vector_flex.h:119-122 | an empty vector over a buffer of the given capacity |
| `VectorFlex.Vector.MakeFit` | vector_flex.h:146-156 | after `needmakefit`/`makefit1`/`makefit2` there is room for the new size and the live elements are unchanged; static storage keeps its buffer |
| `VectorFlex.Vector.Reserve` | vector_flex.h:246-253 | the capacity reaches `newcap` and the contents are unchanged |
| `VectorFlex.Vector.ExtendCopy` | vector_flex.h:173-189 | the copied elements are appended after the unchanged old ones |
| `VectorFlex.Vector.ExtendCopyN` | vector_flex.h:211-233 | `count` copies of the element are appended |
| `VectorFlex.Vector.ExtendDefault` | vector_flex.h:146-156 | `count` default elements are appended, the old elements unchanged |
| `VectorFlex.Vector.Shrink` | vector_flex.h:236-243 | requires 0 <= newsize <= size; the contents become the first `newsize` elements |
| `VectorFlex.Vector.PushBack` | vector_flex.h:502-503 | appends one element |
| `VectorFlex.Vector.PopBack` | vector_flex.h:511 | a shrink by one: the last element goes |
| `VectorFlex.Vector.Clear` | vector_flex.h:513 | a shrink to zero that keeps the buffer |
| `VectorFlex.Vector.Release` | vector_flex.h:256-260 | empties the vector; dynamic storage frees its buffer, static storage keeps it |
| `VectorFlex.Vector.Insert` | vector_flex.h:724-755 | the contents are old[..n] + [e] + old[n..]; the result is n, except that at end() it is begin() |
| `VectorFlex.Vector.InsertRange` | vector_flex.h:357-408 | the range is inserted at n, the old elements keep their order around it, and the result is begin()+n |
| `VectorFlex.Vector.Erase` | vector_flex.h:771-784 | removes one element keeping the order and returns the same index |
| `VectorFlex.Vector.EraseRange` | vector_flex.h:786-802 | removes [first, last) keeping the order; a no-op returning end() when last <= first |
| `VectorFlex.Vector.EraseU` | vector_flex.h:602-616 | the last element overwrites the erased slot and the vector shrinks by one |
| `VectorFlex.SwappedOutMultiset` | vector_flex.h:602-616 | `erase_u` removes exactly the erased element, only the order changes |
| `VectorFlex.Vector.Resize` | vector_flex.h:804-829 | shrinks, or appends copies of `e` (default elements for `resize(n)`) |
| `VectorFlex.Vector.Assign` | vector_flex.h:549-568 | the contents become exactly the range, whether it is moved over the front or rebuilt |
| `VectorFlex.Vector.Swap` | vector_flex.h:262-266 | the two vectors exchange their contents |
| `VectorFlex.Vector.Find` | vector_flex.h:622-631 | the index of the first element equal to `what`, else `size` (end()) |
| `VectorFlex.FindIsFirstIndex` | vector_flex.h:622-631 | a result meeting `find`'s contract is the first index of `what` |
| `VectorFlex.Vector.At` | vector_flex.h:468-472 | the i-th live element, for 0 <= i < size |
| `VectorFlex.EraseUndoesInsert` | vector_flex.h:724-784 | erasing at the index just inserted at restores the contents |
| `VectorFlex.InsertUndoesErase` | vector_flex.h:724-784 | re-inserting the erased element at its index restores the contents |
| `VectorFlex.InsertedMultiset` | vector_flex.h:724-755 | an insert adds exactly one element |
| `VectorFlex.ErasedRangeMultiset` | vector_flex.h:786-802 | a range erase removes exactly the elements of the range |
| `VectorS.StaticStorage.MaxSize` | vector_s.h:72-73 | capacity() and max_size() are both t_capacity |
| `VectorS.StaticStorage.NeedMakefit` | vector_s.h:77-81 | requires newsize <= t_capacity and is always false |
| `VectorS.StaticStorage.Makefit1` | vector_s.h:83-87 | requires newsize <= t_capacity and returns NULL |
| `VectorS.StaticStorage.Swap` | vector_s.h:56-61 | exchanges the first `maxsize` elements pairwise and leaves the rest |
| `VecSorted.LowerBoundOf` | vecsorted.h:185 | std::lower_bound: every element before the result is below the key, the element at it is not |
| `VecSorted.LowerBoundSplits` | vecsorted.h:185 | in a sorted vector everything from the lower bound on is at least the key |
| `VecSorted.LowerBoundUnique` | vecsorted.h:185 | the lower bound is the one position splitting smaller keys from the rest |
| `VecSorted.VecSorted.LowerBound` | vecsorted.h:185 | the binary search returns the lower bound |
| `VecSorted.VecSorted.Find` | vecsorted.h:181-198 | an element equivalent to `val`, the first one, or end() exactly when none is equivalent |
| `VecSorted.VecSorted.Exists` | vecsorted.h:226-229 | true exactly when some element is equivalent to `val` |
| `VecSorted.VecSorted.FindRangeMulti` | vecsorted.h:430-458 | the range is exactly the elements equivalent to `val`, or (end, end) when there are none |
| `VecSorted.VecSorted.FindRange` | vecsorted.h:221-224 | `unique` gives the one element `find` gives; `multi` gives every equivalent element |
| `VecSorted.VecSorted.Insert` | vecsorted.h:231-234 | the contents become the as-written insertion; stays sorted, and a valid `multi` vector stays valid |
| `VecSorted.InsertAsWrittenKeepsSorted` | vecsorted.h:331-366 | the as-written insert keeps the vector sorted and keeps `multi` free of adjacent equivalents |
| `VecSorted.InsertAsWrittenBreaksUnique` | vecsorted.h:331-366 | inserting 5 into the valid `unique` vector [5] gives [5, 5], which `is_valid` rejects |
| `VecSorted.InsertIntendedKeepsValid` | vecsorted.h:282-299 | the intended insert keeps both instantiations valid and leaves an element equivalent to `val` |
| `VecSorted.InsertAtLowerBoundSorted` | vecsorted.h:331-366 | inserting at the lower bound keeps a sorted vector sorted |
| `VecSorted.InsertAtLowerBoundStrict` | vecsorted.h:331-366 | inserting a new key at its lower bound adds no adjacent equivalents |
| `VecSorted.VecSorted.PushBackSorted` | vecsorted.h:236-242 | requires empty or back() < val; appends and keeps the vector valid |
| `VecSorted.VecSorted.EraseAt` | vecsorted.h:244-251 | a no-op at end(), otherwise removes that one element; stays valid |
| `VecSorted.VecSorted.EraseRange` | vecsorted.h:253-261 | a no-op when `first` is end(), otherwise removes [first, last); stays valid |
| `VecSorted.VecSorted.EraseValue` | vecsorted.h:271-277 | returns how many elements went; zero exactly when none was equivalent; `multi` removes every equivalent, `unique` at most one |
| `VecSorted.VecSorted.Shrink` | vecsorted.h:149-153 | requires n <= size and keeps the first n elements |
| `VecSorted.VecSorted.PopBack` | vecsorted.h:146 | removes the last element |
| `VecSorted.VecSorted.Clear` | vecsorted.h:155 | empties the vector |
| `VecSorted.VecSorted.IsSorted` | vecsorted.h:302-311 | corrected: true exactly when no element is less than the one before it, an empty vector included |
| `VecSorted.VecSorted.IsSortedAsWritten` | vecsorted.h:302-311 | as written: an empty vector reads outside itself, because `n - 1` wraps in size_t; any other vector gets the corrected answer |
| `VecSorted.AdjacentSorted` | vecsorted.h:302-311 | ordered neighbours make the whole vector sorted |
| `VecSorted.VecSorted.IsValid` | vecsorted.h:282-300 | true exactly when sorted and, for `unique`, no two neighbours are equivalent |
| `VecSorted.StrictlyIncreasing` | vecsorted.h:282-300 | a valid `unique` vector is strictly increasing |
| `VecSorted.SortByKey` | vecsorted.h:86 | std::sort: a sorted permutation of the range |
| `VecSorted.Dedup` | vecsorted.h:105-106 | std::unique plus erase: a sub-multiset, ending in the key of the last element |
| `VecSorted.DedupValid` | vecsorted.h:101-109 | deduplicating a sorted range leaves it valid for `unique` |
| `VecSorted.DedupKeepsKeys` | vecsorted.h:101-109 | deduplicating keeps an element of every key |
| `VecSorted.VecSorted.FromSorted` | vecsorted.h:91-96 | takes the range as it is; it must already be valid |
| `VecSorted.VecSorted.FromNonSorted` | vecsorted.h:83-89 | sorts the range: a sorted permutation, which must then be valid |
| `VecSorted.VecSorted.FromNonUnique` | vecsorted.h:98-109 | sorts and, for `unique`, removes equivalents: valid, and every key of the range is kept |
| `VecSorted.VecSorted.FromSortedNonUnique` | vecsorted.h:111-122 | requires a sorted range and, for `unique`, removes equivalents; valid |
| `HashtablePrime.ProbeAt` | hashtable_prime.h:210-221 | the k-th probe of hash h is (h + k(k+1)/2) mod size, always inside the table |
| `HashtablePrime.ProbeStart` | hashtable_prime.h:216-221 | the first probe is hash % size |
| `HashtablePrime.ProbeStep` | hashtable_prime.h:210-214 | adding the probe count to the previous index gives the next closed-form probe (the triangular step) |
| `HashtablePrime.ProbePeriodic` | hashtable_prime.h:210-214 | the probe sequence repeats after 2·size probes |
| `HashtablePrime.ProbeMod` | hashtable_prime.h:210-214 | every probe equals one of the first 2·size probes |
| `HashtablePrime.NeverFree` | hashtable_prime.h:333-345 | if the first 2·size probes all hit live slots, no probe ever hits a free one |
| `HashtablePrime.LiveEntriesNone` | hashtable_prime.h:169-172 | there are no live entries exactly when no slot is live |
| `HashtablePrime.LiveEntriesUpdate` | hashtable_prime.h:348-365 | overwriting a slot trades that slot's entry for the new one |
| `HashtablePrime.PlaceKeepsValid` | hashtable_prime.h:318-353 | filling a free slot on the probe path keeps every entry reachable and adds exactly one entry and one insert |
| `HashtablePrime.EraseKeepsValid` | hashtable_prime.h:355-366 | a tombstone keeps every other entry reachable, removes exactly that entry and adds one deletion |
| `HashtablePrime.AbsentWhenEmptyReached` | hashtable_prime.h:298-315 | a walk that reaches an empty slot without a match has passed every slot a matching entry could occupy |
| `HashtablePrime.ThresholdExceedsOccupancy` | hashtable_prime.h:236-257 | a table sized from a prime at least ftoi(1.2·occupancy/ratio) has a rebuild threshold above the occupancy (the comparison at line 257) |
| `HashtablePrime.FirstAtLeast` | hashtable_prime.h:240-247 | the first list entry at least n, or none when every entry is smaller |
| `HashtablePrime.NextLive` | hashtable_prime.h:407-424 | the first live slot at or after `from`, else the table size |
| `HashtablePrime.HashtablePrime.constructor` | hashtable_prime.h:50-51 | an empty table with every counter zero |
| `HashtablePrime.HashtablePrime.Size` | hashtable_prime.h:159-162 | inserts minus deleted equals the number of live entries |
| `HashtablePrime.HashtablePrime.Capacity` | hashtable_prime.h:164-167 | the table length |
| `HashtablePrime.HashtablePrime.IsEmpty` | hashtable_prime.h:169-172 | true exactly when no slot is live |
| `HashtablePrime.HashtablePrime.SetFillRatio` | hashtable_prime.h:85-89 | stores the ratio and recomputes the rebuild threshold |
| `HashtablePrime.HashtablePrime.Find` | hashtable_prime.h:291-316 | a live entry with equal hash and key, or NULL exactly when there is none; on a table never built (size zero) the first index is `hash % 0`, reported as NoTable exactly then |
| `HashtablePrime.HashtablePrime.ProbeFree` | hashtable_prime.h:333-345 | the first slot of the probe path that is empty or deleted, every earlier one being live |
| `HashtablePrime.HashtablePrime.Place` | hashtable_prime.h:326-352 | writes the entry into that slot, counts one insert and changes nothing else |
| `HashtablePrime.HashtablePrime.Insert` | hashtable_prime.h:318-353 | rebuilds when the threshold is reached, then adds the entry even if its key is present; the live entries gain exactly it |
| `HashtablePrime.HashtablePrime.Erase` | hashtable_prime.h:355-366 | the slot becomes a tombstone keeping its hash; deleted goes up, inserts does not |
| `HashtablePrime.HashtablePrime.Clear` | hashtable_prime.h:182-192 | every slot empty, counters zero, the storage kept |
| `HashtablePrime.HashtablePrime.Release` | hashtable_prime.h:194-201 | no storage, size and counters zero |
| `HashtablePrime.HashtablePrime.FirstPrimeAtLeast` | hashtable_prime.h:240-247 | the prime search returns the first list entry at least n |
| `HashtablePrime.HashtablePrime.BuildFresh` | hashtable_prime.h:225-258 | size from the prime list (unchanged when none fits), all slots empty, threshold above the occupancy |
| `HashtablePrime.HashtablePrime.RebuildTable` | hashtable_prime.h:223-289 | sizes for max(size + 16, newOccupancy) and reinserts exactly the live entries with no nested rebuild |
| `HashtablePrime.HashtablePrime.Reserve` | hashtable_prime.h:174-180 | a no-op when count fits the capacity, otherwise a rebuild that keeps the entries |
| `HashtablePrime.HashtablePrime.Tighten` | hashtable_prime.h:203-208 | a no-op without tombstones, otherwise a rebuild that drops them and keeps the entries |
| `HashtablePrime.HashtablePrime.IteratorNext` | hashtable_prime.h:407-424 | the next live slot after `index`, or the table size |
| `HashtablePrime.HashtablePrime.Head` | hashtable_prime.h:385-390 | the first live slot |
| `HashtablePrime.HashtablePrime.IteratorAt` | hashtable_prime.h:399-405 | NULL out of range, otherwise that slot |
| `LinkList.Link.constructor` | Link.h:116-123 | a new node holds the element and is a self-loop, a one-node list |
| `LinkList.Link.Reset` | Link.h:26-29 | the node is made a self-loop again |
| `LinkList.Link.IsEmpty` | Link.h:59-63 | true exactly when the list has no node besides this one |
| `LinkList.RingNodesValid` | Link.h:309-316 | every node of a well-formed list is valid: its next's prev and its prev's next are itself |
| `LinkList.NotInRing` | Link.h:202-210 | a node that is a self-loop (empty) and is not this node belongs to no other list, so adding it cannot create a shared node |
| `LinkList.Link.Cut` | Link.h:194-200 | the neighbours are joined, the remaining nodes still form a list, and the cut node is a self-loop |
| `LinkList.Link.AddAfter` | Link.h:202-216 | an empty node becomes the immediate successor of this node and the list stays well formed |
| `LinkList.Link.AddBefore` | Link.h:218-232 | an empty node becomes the immediate predecessor of this node and the list stays well formed |
| `LinkList.Link.AddListAfter` | Link.h:238-257 | a disjoint list is spliced in whole right after this node, in its own order |
| `LinkList.Link.AddListBefore` | Link.h:259-278 | a disjoint list is spliced in whole right before this node, in its own order |
| `LinkList.DistinctSplice` | Link.h:238-257 | splicing a disjoint list after the first node repeats no node |
| `LinkList.DistinctAppend` | Link.h:259-278 | splicing a disjoint list before the first node repeats no node |
| `LinkList.Link.GetListLength` | Link.h:281-293 | the number of nodes in the list other than this one |
| `LinkList.Link.ListContains` | Link.h:295-307 | true exactly when the node is this one or another node of the list |
| `LinkList.Link.FindNext` | Link.h:332-340 | the first node after this one, going forward, with equal data; NULL exactly when no other node has equal data |
| `LinkList.Link.FindPrev` | Link.h:341-349 | the first node before this one, going backward, with equal data; NULL exactly when no other node has equal data |
| `RefCountedTable.PointerTable.constructor` | RefCounted.cpp:49-62 | the table starts as one zeroed page of entries with the next fresh index 1 and an empty free list |
| `RefCountedTable.PointerTable.LookupPointer` | RefCounted.cpp:192-205 | a handle resolves to the slot's pointer exactly when its guid matches, and to NULL otherwise |
| `RefCountedTable.PointerTable.NullHandle` | RefCounted.cpp:75-80 | slot 0 is never issued, so the handle (0, 0) always resolves to NULL |
| `RefCountedTable.PointerTable.StaleHandle` | RefCounted.cpp:117-127 | a handle taken before its slot's guid was stepped (fewer than 2^32 times) resolves to NULL |
| `RefCountedTable.GuidsDiffer` | RefCounted.cpp:121-122 | two guid counts less than 2^32 apart wrap to different 32-bit guids |
| `RefCountedTable.PointerTable.AddToTable` | RefCounted.cpp:78-115 | LIFO reuse of the last freed slot keeping its stepped guid, else the next fresh slot with guid 0, growing the table by a page when full; the slot is live and holds the pointer, the other slots are unchanged |
| `RefCountedTable.PointerTable.RemoveFromTable` | RefCounted.cpp:117-127 | the slot's guid is stepped, it becomes the head of the free list, and its old handle resolves to NULL |
| `RefCountedTable.PointerTable.ClearWeakPtrs` | RefCounted.cpp:250-254 | the slot's guid is stepped and its pointer kept, so every earlier handle resolves to NULL |
| `RefCountedTable.RefCounted.constructor` | RefCounted.cpp:131-145 | a new object has reference count 0 and owns a live slot pointing at it |
| `RefCountedTable.RefCounted.GetPointerTableGuid` | RefCounted.cpp:176-181 | the object's index and this guid make a handle that resolves to the object |
| `RefCountedTable.RefCounted.TakeRef` | RefCounted.cpp:207-212 | the reference count goes up by one |
| `RefCountedTable.RefCounted.Destroy` | RefCounted.cpp:147-168 | requires count 0; the slot is freed and its guid stepped |
| `RefCountedTable.RefCounted.FreeRef` | RefCounted.cpp:214-229 | requires a reference; the count goes down by one, and on reaching 0 the guid is stepped twice and the slot freed |
| `SmallAllocatorGreedy.SizeClass` | SmallAllocator_Greedy.cpp:243-250 | a size from 1 to 256 maps to one of the 32 classes, whose chunk size is the size rounded up to a multiple of 8 |
| `SmallAllocatorGreedy.IndexRoundTrip` | SmallAllocator_Greedy.cpp:243-250 | the class of a class's own chunk size is that class |
| `SmallAllocatorGreedy.NoClassForZero` | SmallAllocator_Greedy.cpp:333-334 | a size of 0 or less maps to no class, so a small request needs at least one byte |
| `SmallAllocatorGreedy.ChunksPerBlock` | SmallAllocator_Greedy.cpp:120 | the number of chunks is the most that fit in the 8188 bytes after a block's header |
| `SmallAllocatorGreedy.ChunksFit` | SmallAllocator_Greedy.cpp:199-203 | the chunks and the header fit in the 8192-byte block, and every chunk address lies inside it |
| `SmallAllocatorGreedy.ChunkAddressesDistinct` | SmallAllocator_Greedy.cpp:215-226 | the chunks threaded from one block are distinct |
| `SmallAllocatorGreedy.ExtendConsistent` | SmallAllocator_Greedy.cpp:199-227 | the chunks of a block that overlaps no earlier block are not in use, so threading them keeps the free list and the chunks in use apart |
| `SmallAllocatorGreedy.PopConsistent` | SmallAllocator_Greedy.cpp:149-169 | the head of the free list is not in use, and handing it out keeps the class consistent |
| `SmallAllocatorGreedy.PushConsistent` | SmallAllocator_Greedy.cpp:172-188 | giving back a chunk in use keeps the class consistent |
| `SmallAllocatorGreedy.ChunkAllocator.constructor` | SmallAllocator_Greedy.cpp:113-126 | requires a multiple of 4 that is at least 4; no block, an empty free list, as many chunks per block as fit |
| `SmallAllocatorGreedy.ChunkAllocator.Extend` | SmallAllocator_Greedy.cpp:199-227 | the new block heads the block list and the free list is its chunks in address order |
| `SmallAllocatorGreedy.ChunkAllocator.Allocate` | SmallAllocator_Greedy.cpp:149-169 | pops the head of the free list (extending first when it is empty); the chunk was not in use and now is |
| `SmallAllocatorGreedy.ChunkAllocator.Free` | SmallAllocator_Greedy.cpp:172-188 | a chunk in use is pushed on the head of the free list and is no longer in use |
| `SmallAllocatorGreedy.ChunkAllocator.Destruct` | SmallAllocator_Greedy.cpp:129-145 | every block is released, newest first, and the class is left empty and usable |
| `SmallAllocatorGreedy.RouteOf` | SmallAllocator_Greedy.cpp:322-337 | sizes above 256 go to malloc, the others to a class whose chunks are at least the size and less than 8 bytes more |
| `SmallAllocatorGreedy.UsedBytes` | SmallAllocator_Greedy.cpp:300 | the bytes in use of a class are its chunks in use times its chunk size |
| `SmallAllocatorGreedy.UsedBytesHalved` | SmallAllocator_Greedy.cpp:300 | the statistics as written count half the bytes actually in use |
| `SmallAllocatorGreedy.GreedyAllocator.SmallAllocator` | SmallAllocator_Greedy.cpp:252-270 | the 32 classes are built on first use, class i with chunk size IndexToSize(i), and class `which` is returned |
| `SmallAllocatorGreedy.GreedyAllocator.Allocate` | SmallAllocator_Greedy.cpp:322-337 | requires a size of at least 1; above 256 the result is malloc's, otherwise a chunk of the size's class, at least `size` bytes, that was not in use |
| `SmallAllocatorGreedy.GreedyAllocator.Free` | SmallAllocator_Greedy.cpp:339-357 | above 256 the pointer goes to free(); a NULL small pointer is ignored; otherwise the chunk goes back on its class's free list |
| `SmallAllocatorGreedy.GreedyAllocator.Destroy` | SmallAllocator_Greedy.cpp:272-284 | every class is destructed and the classes are forgotten |
| `Vec3.Equals` | Vec3i.h:148-154 | `==` holds exactly when the two vectors agree in every component |
| `Vec3.MinV` | Vec3i.h:225-232 | each component is the smaller of the two and equals one of them |
| `Vec3.MaxV` | Vec3i.h:233-240 | each component is the larger of the two and equals one of them |
| `Vec3.OpAdd` | Vec3i.h:299-303 | `+` is the componentwise sum wrapped to int, and the exact sum whenever that fits an int |
| `Vec3.OpSub` | Vec3i.h:305-309 | `-` is the componentwise difference wrapped to int, exact whenever it fits |
| `Vec3.OpScale` | Vec3i.h:287-297 | scaling by an int is wrapped to int and exact whenever it fits |
| `Vec3.OpCross` | Vec3i.h:311-318 | under ProductIsSafe32 `^` is the cross product wrapped to int, exact whenever it fits |
| `Vec3.CrossOverflows` | Vec3i.cpp:50-60 | ProductIsSafe32 admits (0,46340,-46340) ^ (0,46340,46340), whose X component does not fit an int |
| `Vec3.CrossNotExact` | Vec3i.h:311-318 | whenever the true cross product leaves the int range, `^` returns something else |
| `Vec3.CrossIntended` | Vec3i.h:311-318 | when twice the largest component product fits an int, the int cross product is exact |
| `Vec3.LengthSqr` | Vec3i.h:180-184 | under IsSafeToSquare64 (Vec3i.cpp:29-36) the int64 sum of squares is exact, non-negative and fits an int64 |
| `Vec3.DotAsWritten` | Vec3i.h:281-285 | the int64 dot product equals the true dot product whenever that fits an int64 |
| `Vec3.DotOverflows` | Vec3i.cpp:38-48 | ProductIsSafe64 holds for every pair of int vectors, and the dot of (-2^31,-2^31,-2^31) with itself overflows int64 |
| `Vec3.DotIntended` | Vec3i.h:281-285 | when three times the largest component product fits an int64, the int64 dot product is exact |
| `Vec3.DistanceSqrOverflows` | Vec3i.h:320-327 | for (2^31-1,0,0) and (-2,0,0) the squared distance fits an int64, but the int difference wraps and the result is wrong |
| `Vec3.DistanceSqr` | Vec3i.h:320-327 | with the differences taken in int64, the squared distance of two int points is exact whenever it fits an int64, symmetric, and zero exactly for equal points |
| `Vec3.Cross64Fits` | Vec3i.h:377-382 | every component of the cross product of two int vectors fits an int64 |
| `Vec3.CrossOrthogonal` | Vec3i.h:311-318 | the cross product is orthogonal to both of its operands |
| `Vec3.TriangleCross` | Vec3i.h:384-390 | the triangle normal is cross(b - a, c - a) whenever both edges fit an int |
| `Vec3.WeightedSumIsWrapped` | Vec3i.h:251-258 | wrapping each product and then the sum gives the true weighted sum wrapped once |
| `Vec3.Vec3i.Component` | Vec3i.h:162-176 | `[]` with c in 0..2 returns x, y or z |
| `Vec3.Vec3i.Set` | Vec3i.h:196-202 | the vector becomes (ix, iy, iz) |
| `Vec3.Vec3i.ScaleBy` | Vec3i.h:121-128 | `*=` leaves the old vector scaled, in int |
| `Vec3.Vec3i.AddIn` | Vec3i.h:130-137 | `+=` leaves the old vector plus v, in int |
| `Vec3.Vec3i.SubIn` | Vec3i.h:139-146 | `-=` leaves the old vector minus v, in int |
| `Vec3.Vec3i.SetScaled` | Vec3i.h:204-212 | the vector becomes t * s, in int |
| `Vec3.Vec3i.SetCross` | Vec3i.h:214-223 | requires neither operand to be this vector; the vector becomes t ^ v, exact whenever it fits an int |
| `Vec3.Vec3i.SetMin` | Vec3i.h:225-232 | the vector becomes the componentwise minimum of itself and v |
| `Vec3.Vec3i.SetMax` | Vec3i.h:233-240 | the vector becomes the componentwise maximum of itself and v |
| `Vec3.Vec3i.AddScaled` | Vec3i.h:242-249 | the vector becomes itself plus t * v, in int |
| `Vec3.Vec3i.SetWeightedSum` | Vec3i.h:251-258 | the vector becomes ca * a + cb * b, in int |
| `Vec3.Vec3i.SetSum` | Vec3i.h:260-267 | the vector becomes a + cb * b, in int |
| `Vec3.Vec3i.ComponentwiseScale` | Vec3i.h:269-276 | each component is multiplied by the matching component of a, in int |
| `Vec3.Vec3i64.SetCross` | Vec3i.h:377-382 | the int64 cross product of two int vectors is exact and fits an int64 |
| `Vec3.Vec3i64.SetTriangleCross` | Vec3i.h:384-390 | the vector becomes the cross product of the two int edges b - a and c - a, within int64 |
| `GoogleChart.TableChars` | GoogleChart.cpp:13-20 | the simple table has 62 characters and the extended one 64, both the alphabet A-Z, a-z, 0-9 (then '-' and '.') in order |
| `GoogleChart.Tables` | GoogleChart.cpp:13-20 | the simple table is the extended one without its last two characters, and no character occurs twice |
| `GoogleChart.SimpleEncode` | GoogleChart.cpp:28-33 | the character the "s:" decoder reads back as the scaled value clamped to [0, 61] |
| `GoogleChart.ExtendedEncode` | GoogleChart.cpp:38-53 | two characters that the "e:" decoder reads back (64 times the first digit plus the second) as the scaled value clamped to [0, 4095] |
| `GoogleChart.ExtendedDecodeEncode` | GoogleChart.cpp:38-53 | every pair the decoder accepts is the encoding of the value it decodes to |
| `GoogleChart.TextEncode` | GoogleChart.cpp:55-67 | two decimal digits that read back as the scaled value clamped to [0, 99] |
| `GoogleChart.StringFVE` | GoogleChart.cpp:69-79 | two characters per value, each pair decoding to that value clamped to [0, 4095] |
| `GoogleChart.StringFVT` | GoogleChart.cpp:81-93 | each value's two digits in order with a ',' between consecutive values and none trailing |
| `GoogleChart.SplitJoin` | GoogleChart.cpp:109-119 | entries free of the separator, once joined, split back into exactly those entries |
| `GoogleChart.JoinLength` | GoogleChart.cpp:109-119 | a joined list is as long as its entries plus one separator between each two |
| `GoogleChart.GetChCo` | GoogleChart.cpp:109-119 | the table cycled to `count` entries (entry i is table[i mod size]) joined by the separator, none trailing; empty for a count of 0 or less |
| `GoogleChart.GetChls` | GoogleChart.cpp:136-148 | the line-style table cycled to `count` entries and joined by a vertical bar |
| `GoogleChart.DefaultListsSplit` | GoogleChart.cpp:95-107 | the default colour list and line-style list split back into their cycled entries |
| `GoogleChart.FindBest` | GoogleChart.cpp:331-370 | -1 exactly when no interior point is removable with a cost below FLT_MAX; otherwise the first such point of least cost |
| `GoogleChart.PlotSeries.LimitChartSeries` | GoogleChart.cpp:325-383 | x and y keep equal lengths and stay the same subsequence of the old points, the first and last point survive, and it stops once at most numPoints remain or no point can go; the size is compared as a size_t, so a negative numPoints removes nothing |
| `MatchPat.Seq2Follows` | matchpat.cpp:168-179 | for two different characters, strmatch2seq holds exactly when the first c1 in the string is followed, somewhere after it, by a c2 |
| `MatchPat.PatternCode` | matchpat.cpp:200-346 | one turn of the compile switch writes one code and consumes one or two characters, as the compiler specification's step says |
| `MatchPat.MakePattern` | matchpat.cpp:181-353 | the compiled codes, or the first of "unmatched parens", "unmatched braces", "unmatched bra/ket" when a count is off at the end; the writes stay inside the buffer of 2n+256 codes |
| `MatchPat.WildCodes` | matchpat.cpp:317-342 | '*' and "#?" become WANY, '?' WCHAR and '~' WNOT; a lone '#' and every character that is not wild stay literal codes below 256 |
| `MatchPat.EscapedIsLiteral` | matchpat.cpp:203-214 | a string with a backquote before each character compiles to exactly its own character codes |
| `MatchPat.PlainIsLiteral` | matchpat.cpp:203-214 | a string without wild characters compiles to its own character codes |
| `MatchPat.CompiledFits` | matchpat.cpp:190-192 | the compiled pattern is never longer than the string, well inside the 2n+256 buffer |
| `MatchPat.OpenersWild` | matchpat.cpp:216-291 | '[' becomes WBRA only when a '-' or ',' and later a ']' follow, '(' opens an or-group only when a vertical bar and later a ')' follow, '{' opens an and-group only when '&' and later '}' follow; otherwise each is a literal |
| `MatchPat.BracketsBalanced` | matchpat.cpp:348-350 | a pattern that compiles holds as many WKET codes as WBRA codes |
| `MatchPat.PatternLen` | matchpat.cpp:360-365 | the index of the first zero code |
| `MatchPat.IsWild` | matchpat.cpp:367-392 | true exactly when the string compiles and some code is 256 or more |
| `MatchPat.Lit` | matchpat.cpp:397 | LIT: toupper in the "C" locale when folding, which keeps zero, keeps every code of 256 and more, and makes ',' only from ',' |
| `MatchPat.ListScanAsWritten` | matchpat.cpp:418-427 | the list scan as written, which does not look at the code it steps onto after a ','; a hit is a code equal to the character after LIT |
| `MatchPat.TrailingCommaOverRead` | matchpat.cpp:418-427 | the pattern "[a,]" compiles, and matching it against "z" steps past the WKET after the trailing ',' and reads beyond the pattern, where the corrected scan answers no match |
| `MatchPat.ListScan` | matchpat.cpp:418-427 | the list scan that also stops at a WKET reached by skipping a ',' |
| `MatchPat.ListScanStaysInSet` | matchpat.cpp:418-427 | with a WKET ahead and a byte to match, the corrected scan never leaves the set: it ends in no match or a hit before the WKET |
| `MatchPat.MatchSet` | matchpat.cpp:409-431 | a set (range or list) consumed as the matcher specification says |
| `MatchPat.MatchGroupCode` | matchpat.cpp:447-486 | the and/or group codes handled as the matcher specification says |
| `MatchPat.MatchAnyFrom` | matchpat.cpp:438-443 | the inner WANY loop returns the specification's answer |
| `MatchPat.MatchOrGroup` | matchpat.cpp:455-463 | an or-group is true as soon as one alternative matches, false at its closer |
| `MatchPat.MatchAndGroup` | matchpat.cpp:465-473 | an and-group is false as soon as one branch fails, true at its closer |
| `MatchPat.MatchPatternSub` | matchpat.cpp:395-500 | the answer of the matcher specification, for every string and pattern on which it does not over-read |
| `MatchPat.MatchPatternNoCase` | matchpat.cpp:502-505 | the case-folded match of the whole string against the whole pattern |
| `MatchPat.MatchPatternWithCase` | matchpat.cpp:506-509 | the match of the whole string against the whole pattern, bytes compared as they are |
| `MatchPat.MatchPlain` | matchpat.cpp:489-495 | a pattern of plain bytes matches exactly the strings of the same length equal to it after LIT, so string and pattern must end together |
| `MatchPat.MatchPlainWithCase` | matchpat.cpp:489-495 | without folding, a plain pattern matches exactly its own bytes |
| `MatchPat.MatchAnyChars` | matchpat.cpp:403-407 | a run of n WCHAR matches exactly the strings of n characters |
| `MatchPat.MatchPrefix` | matchpat.cpp:434-436 | plain bytes then a final WANY match exactly the strings that start with those bytes after LIT |
| `MatchPat.AnyFromSomeSuffix` | matchpat.cpp:438-443 | an inner WANY matches exactly when the rest of the pattern matches some suffix of the string, the empty one included |
| `MatchPat.MatchSuffix` | matchpat.cpp:434-443 | a leading WANY before plain bytes matches exactly the strings that end with those bytes after LIT |
| `MatchPat.MatchNotPlain` | matchpat.cpp:430-432 | WNOT before plain bytes matches exactly the strings the bytes do not match |
| `MatchPat.Simplified` | matchpat.cpp:525-564 | the simplified pattern is never longer than the original |
| `MatchPat.SimplifiedIsSimple` | matchpat.cpp:525-564 | only literals and WANY are left: no WCHAR, WNOT, WBRA or group code |
| `MatchPat.SimplifiedPlain` | matchpat.cpp:525-564 | a pattern without wild codes is left unchanged |
| `MatchPat.RenameByPatSimplify` | matchpat.cpp:525-564 | writes the simplified pattern and its terminator into the target array |
| `MatchPat.MatchSimpleSome` | matchpat.cpp:598-684 | matching against a simplified pattern never over-reads |
| `MatchPat.LitRun` | matchpat.cpp:604-614 | the index of the next WANY, or the end, with no WANY before it |
| `MatchPat.SearchFrom` | matchpat.cpp:651-661 | the first position from which the rest of the source pattern matches, case folded, or the end of the string |
| `MatchPat.TailLits` | matchpat.cpp:663-677 | the target's remaining literals, and a failure exactly when a WANY remains |
| `MatchPat.Turn` | matchpat.cpp:598-638 | a turn that goes on advances the target pattern |
| `MatchPat.TurnReadsTerminator` | matchpat.cpp:604-633 | source literals one longer than the string read its terminator into the buffer and no further: the turn flushes, and a target without `*` ends the rename with the new name |
| `MatchPat.RenameTerminatorExample` | matchpat.cpp:598-637 | the name "a" renamed from "ab" to "x" becomes "x" |
| `MatchPat.AfterStars` | matchpat.cpp:640-684 | a turn that goes on keeps the source pattern where it was |
| `MatchPat.ToLiterals` | matchpat.cpp:604-607 | gathers the target literals up to the next WANY, each truncated to a byte |
| `MatchPat.FmLiterals` | matchpat.cpp:610-614 | steps the source string along the source literals, reading its terminator like any other character; over-reads exactly when a literal is left after the terminator, and otherwise yields the characters read, the terminator included when reached |
| `MatchPat.SearchMatch` | matchpat.cpp:651-661 | stops at the first position where the source pattern matches again |
| `MatchPat.TailLiterals` | matchpat.cpp:663-677 | appends the remaining target literals, failing at a WANY |
| `MatchPat.RenameTurn` | matchpat.cpp:598-684 | one turn of RenameByPat's loop as the rename specification says, the terminator read as a literal's partner and an over-read only past it |
| `MatchPat.RenameAfterStars` | matchpat.cpp:640-684 | the rest of a turn past the two WANY codes as the rename specification says |
| `MatchPat.RenameLoop` | matchpat.cpp:598-686 | the loop's outcome is the rename specification's |
| `MatchPat.RenameByPat` | matchpat.cpp:572-687 | simplifies both patterns into arrays of n+16 codes and returns the rename specification's outcome |
| `MatchPat.RenameIdentity` | matchpat.cpp:640-649 | renaming "*" to "*" gives the name back unchanged |
| `MatchPat.RenameLiteralTarget` | matchpat.cpp:604-633 | a target without WANY is the new name as it stands (in the source's case when keepCase is set) |
| `MatchPat.RenameUnderflow` | matchpat.cpp:635-638 | a target with a WANY against a source pattern without one fails |
| `MatchPat.RenamePrefix` | matchpat.cpp:598-649 | "a*" to "b*" replaces the leading a of the name by b and keeps the rest |
| `MatchPat.SuffixFirstTurn` | matchpat.cpp:640-661 | for "*a" to "*b" the first turn copies the name up to the last characters, as many as a has |
| `MatchPat.RenameSuffix` | matchpat.cpp:598-684 | "*a" to "*b" replaces the trailing a of the name (matched case folded) by b and keeps the rest |
| `MatchPat.CountCase` | matchpat.cpp:838-848 | counts the upper-case and the lower-case letters of the source |
| `MatchPat.KeepCase` | matchpat.cpp:826-925 | the copy has the length of the text put and the same letters ignoring case |
| `MatchPat.KeepCaseFollowsSource` | matchpat.cpp:850-891 | an all-upper or all-lower source makes any text with a letter all-upper or all-lower, and a source with one upper-case letter, at its start, makes a text starting with a letter capitalised |
| `MatchPat.KeepCaseIdempotent` | matchpat.cpp:826-925 | copying the copy again with the same source changes nothing |
| `MatchPat.StrcpyKeepCase` | matchpat.cpp:826-925 | writes the text in the source's case, then the terminator |
| `SafePrintf.TypeNamesDistinct` | safeprintf.cpp:26-40 | the name table has eleven entries, and distinct types have distinct enumerator values and distinct names |
| `SafePrintf.IntKinds` | safeprintf.cpp:223-240 | exactly the four integer types are integer formats; width 0 is the 32-bit pair and sign 0 the signed pair; width and sign together identify an integer type |
| `SafePrintf.FmtType` | safeprintf.cpp:42-102 | a conversion letter never classifies as "none" |
| `SafePrintf.FmtTypeClasses` | safeprintf.cpp:42-102 | c d i o u x z (either case) are integers, unsigned exactly for u x z, 64-bit exactly when wide (z: when size_t is 64-bit); e f g are float, n ptrint, p ptrvoid, s charptr, S wcharptr; every other letter is unknown |
| `SafePrintf.SkipWidth` | safeprintf.cpp:104-138 | skips at most three characters, and none exactly when the character is not h, l, w or I; only I can set the wide flag |
| `SafePrintf.WidthModifiers` | safeprintf.cpp:104-138 | h, l and w skip one character; I32 skips three, not wide; I64 skips three, wide; a lone I skips one and is wide exactly when size_t is 64-bit; any other character skips nothing |
| `SafePrintf.NextPercent` | safeprintf.cpp:146-164 | the '%' found is in the text and is not followed by another '%' |
| `SafePrintf.FirstAlpha` | safeprintf.cpp:166-175 | the index found holds a letter |
| `SafePrintf.FindFmt` | safeprintf.cpp:140-186 | "none" exactly when no single '%' is left, and then no continuation; a continuation lies past the start, and past the terminator only for an unknown type |
| `SafePrintf.Conversion` | safeprintf.cpp:178-185 | a type other than "none" and a continuation one to four characters on; a continuation past the terminator comes only with "unknown" |
| `SafePrintf.FindFmtAndAdvance` | safeprintf.cpp:140-186 | returns the type and the advanced pointer (NULL as None) that FindFmt specifies |
| `SafePrintf.NoPercentNoType` | safeprintf.cpp:146-152 | a text without '%' yields "none" and a NULL pointer |
| `SafePrintf.PercentAfter` | safeprintf.cpp:148 | the search skips text without '%' unchanged |
| `SafePrintf.DoublePercentSkipped` | safeprintf.cpp:155-158 | "%%" is skipped: the scan gives what it gives two characters on |
| `SafePrintf.FindConversion` | safeprintf.cpp:140-186 | for text, '%', flags without letters and a conversion letter, the type is that letter's and the pointer is just past it |
| `SafePrintf.FindUnterminated` | safeprintf.cpp:166-175 | a '%' followed by no letter up to the terminator is "unknown" with a NULL pointer |
| `SafePrintf.FirstAlphaAt` | safeprintf.cpp:167-175 | the scan stops at the first letter |
| `SafePrintf.NoAlphaToEnd` | safeprintf.cpp:167-173 | with no letter before the terminator the scan finds none |
| `SafePrintf.Config.constructor` | safeprintf.cpp:191-194 | the defaults: noisy and checking int size, not int-as-float nor signedness |
| `SafePrintf.Config.SetOptions` | safeprintf.cpp:196-202 | stores the four flags as given |
| `SafePrintf.ToleratesOnlyInts` | safeprintf.cpp:242-266 | a mismatch is let through only for an integer argument against an integer or float conversion |
| `SafePrintf.StricterToleratesLess` | safeprintf.cpp:242-266 | turning more checks on never lets more mismatches through |
| `SafePrintf.AllChecksTolerateNothing` | safeprintf.cpp:242-266 | with all three checks on, every mismatch throws |
| `SafePrintf.DefaultTolerance` | safeprintf.cpp:191-266 | with the defaults, a signedness mismatch and an int passed to %f are let through, a size mismatch, a string for %d and a float for %d are not |
| `SafePrintf.CheckArg` | safeprintf.h:209-240 | NULL in gives NULL out; an error exactly when a conversion is found that is unknown or mismatched and not tolerated; a syntax error only for an unknown conversion |
| `AutoPrintf.FmtForType` | autoprintf.cpp:35-54 | a code exactly for the types other than none, unknown and pointer-to-int, one to four characters without '%'; for those three the type error (t, t) |
| `AutoPrintf.FmtForTypeRoundTrip` | autoprintf.cpp:35-54 | the code written after a '%' is read back by safeprintf_findfmtandadvance as the same type, with the pointer just past it |
| `AutoPrintf.NextActionShape` | autoprintf.cpp:66-124 | a pass finishes successfully only when no conversion is left, returning the format and the count; otherwise the argument has a known type, and a fill replaces exactly the 'a' or 'A' before the advanced pointer by that type's code |
| `AutoPrintf.LoadBuffer` | autoprintf.cpp:58-65 | a fresh buffer of length + 4 per possible argument + 1 holding the format and its terminator |
| `AutoPrintf.AutoStepShape` | autoprintf.cpp:66-125 | a pass that stops successfully returns the format unchanged past the last conversion, and one that goes on leaves less text to scan |
| `AutoPrintf.AutoStepGoes` | autoprintf.cpp:66-125 | a pass that goes on has found a conversion and an argument of known type, and the text after its new position is the text after the conversion |
| `AutoPrintf.AutoType` | autoprintf.cpp:56-128 | a successful result is a C string and counts at least the arguments counted so far |
| `AutoPrintf.AutoTypeArgsReal` | autoprintf.cpp:83-124 | every argument a successful scan counts has a known type |
| `AutoPrintf.DoAutoType` | autoprintf.cpp:56-128 | the in-place scan of the writeable copy returns the rewritten format and the argument count of the AutoType specification, or its error |
| `AutoPrintf.AutoPass` | autoprintf.cpp:66-125 | one pass of the loop either ends with the specification's result, or uses one more argument, grows the buffer by at most three characters, leaves less to scan and keeps the specification's result |
| `AutoPrintf.EditPass` | autoprintf.cpp:96-109 | the buffer after the pass holds the format the pass specifies, terminated, with the pointer where it says |
| `AutoPrintf.Decide` | autoprintf.cpp:68-124 | the scan and checks of one pass give the action NextAction specifies |
| `AutoPrintf.Splice` | autoprintf.cpp:99-109 | replacing the character at `at` by the code shifts the tail (memmove) and keeps the text terminated |
| `AutoPrintf.AutoTypeCounts` | autoprintf.cpp:56-128 | on success the count is the number of conversions in the format |
| `AutoPrintf.AutoTypeNoPercent` | autoprintf.cpp:73-76 | a format without '%' comes back unchanged with no arguments |
| `AutoPrintf.AutoTypeFillsA` | autoprintf.cpp:86-109 | "%a" is replaced by the code for the argument's type and counts one argument; the rest of the format is kept |
| `AutoPrintf.AutoTypeChecks` | autoprintf.cpp:86-124 | for any other letter: an unknown conversion is a syntax error, a mismatch not tolerated is the type error, otherwise the format is kept with one argument |
| `AutoPrintf.AutoTypeGo` | autoprintf.cpp:66-125 | a pass that goes on leaves the rest of the scan to the next pass with one more argument counted |
| `AutoPrintf.AutoTypeStopped` | autoprintf.cpp:73-80 | a pass that stops gives the result of the whole scan |
| `AutoPrintf.ArgText` | autoprintf.cpp:152-171 | an error exactly for no type or an unknown type; a pointer to int prints nothing, every other argument its text |
| `AutoPrintf.RenderStep` | autoprintf.cpp:204-240 | a successful pass at argument n moves on to a later argument, at most past the last one |
| `AutoPrintf.PrintFormat` | autoprintf.cpp:223-240 | on success the next argument index lies between n and the argument count |
| `AutoPrintf.ArgChecksRedundant` | autoprintf.cpp:223-240 | printing fails exactly when DoAutoType does: the too-many-percents check and SkipVAArg's check never throw after it |
| `AutoPrintf.RenderPlain` | autoprintf.cpp:175-250 | arguments that are all strings without '%' are each printed on their own, in order |
| `AutoPrintf.AutoToStringFunc` | autoprintf.cpp:175-250 | the loop over the arguments returns what AutoToString specifies: the texts printed, or the empty string when anything throws |
| `AutoPrintf.PrintNext` | autoprintf.cpp:204-240 | one pass of autoToStringFunc's loop is RenderStep |
| `AutoPrintf.PrintWith` | autoprintf.cpp:211-240 | DoAutoType followed by the printing of the rewritten format |
| `AutoPrintf.Emit` | autoprintf.cpp:223-240 | the argument count check, the print and the skipping of the arguments used, as PrintFormat specifies |
| `AutoPrintf.SkipArgs` | autoprintf.cpp:132-150 | skipping arguments succeeds exactly when each has a known type |
| `StringCow.Terminated` | String.h:39 | a NUL-free text followed by one NUL is a well-formed vector holding that text |
| `StringCow.Spliced` | String.cpp:522-552 | text spliced in before the terminator keeps the vector well-formed exactly when the spliced text is NUL-free |
| `StringCow.InsertAsWritten` | String.cpp:522-536 | Insert(at, const char*) as written stays inside the vector exactly when at is 0 |
| `StringCow.InsertAsWrittenOverruns` | String.cpp:534-535 | any insertion away from the start makes the strcpy write past the end of the vector |
| `StringCow.InsertAsWrittenAtStart` | String.cpp:522-536 | inserting "X" at 0 into "ab" as written gives "aaX" where "Xab" is intended |
| `StringCow.SlidUp` | String.cpp:530-534 | resizing and sliding the tail up keeps the head and moves the tail |
| `StringCow.InsertBuffer` | String.cpp:522-536 | the corrected insertion: a well-formed vector holding the head, the text, then the tail |
| `StringCow.InsertCharBuffer` | String.cpp:538-552 | Insert(at, c): one character longer, holding head, c, tail and a NUL; well-formed exactly when c is not NUL |
| `StringCow.InsertedText` | String.cpp:522-552 | both insertions read on the text: the head, the inserted text, the tail |
| `StringCow.TruncBuffer` | String.cpp:721-735 | keeps the first n characters and terminates them |
| `StringCow.SetCharBuffer` | String.cpp:621-637 | a non-NUL character replaces the one at i, nothing else changes |
| `StringCow.CompareLess` | String.cpp:431-434 | strcmp (with a folding function) below zero is the lexicographic order of the folded texts |
| `StringCow.StrcmpLess` | String.cpp:431-434 | strcmp below zero is the lexicographic order |
| `StringCow.LexLessIrreflexive` | String.cpp:431-434 | no string is less than itself |
| `StringCow.LexTrichotomy` | String.cpp:431-434 | exactly one of a < b, a == b, b < a |
| `StringCow.LexLessTransitive` | String.cpp:431-434 | operator< is transitive |
| `StringCow.CStrLess` | String.cpp:466-470 | const char* < String is the lexicographic order of the texts |
| `StringCow.LessI` | String.h:293-296 | order of the texts folded to lower case |
| `StringCow.EqualsI` | String.h:298-301 | equality of the texts folded to lower case |
| `StringCow.ReplacedLength` | String.cpp:819-875 | each replacement changes the length by \|to\| - \|from\| |
| `StringCow.ReplacedNoMatch` | String.cpp:819-875 | without a case-insensitive match the text is unchanged and nothing is counted |
| `StringCow.ReplacedIgnoresCase` | String.cpp:819-875 | two search strings equal up to case replace the same way |
| `StringCow.GrowAt` | String.cpp:838-852 | a longer replacement resizes and slides the tail up, leaving head, `to`, tail and a NUL |
| `StringCow.ShrinkAt` | String.cpp:854-866 | a shorter replacement copies `to` and slides the tail down, leaving head, `to`, tail and a NUL |
| `StringCow.ReplaceOne` | String.cpp:836-868 | one replacement keeps the scan invariant with one more match, the pointer just after `to` |
| `StringCow.ReplaceScan` | String.cpp:819-875 | the scan leaves the case-insensitive replacement of the text and returns the number of matches |
| `StringCow.StringData.constructor` | String.cpp:52-55 | a new data block holds one reference |
| `StringCow.StringData.Cow` | String.cpp:59-64 | a copy of the old vector with one reference; the old block loses one and is deleted when none remain |
| `StringCow.StringData.TakeRef` | String.cpp:80-83 | one more reference, nothing else changes |
| `StringCow.StringData.FreeRef` | String.cpp:84-89 | one reference fewer; the block is deleted exactly when none remain |
| `StringCow.String.Length` | String.cpp:749-753 | the number of characters before the terminator |
| `StringCow.String.FromCStr` | String.cpp:189-200 | a private copy of the text |
| `StringCow.String.Copy` | String.cpp:180-187 | shares the other string's data and takes a reference |
| `StringCow.String.StaticEmpty` | String.cpp:217-226 | the shared empty string, its data holding references for itself and the static |
| `StringCow.String.SubString` | String.cpp:250-260 | holds the first len bytes, valid exactly when they are NUL-free |
| `StringCow.String.Concat` | String.cpp:262-277 | a private string holding the two texts one after the other |
| `StringCow.String.Dispose` | String.cpp:279-285 | drops this string's reference; the data dies exactly when none remain, and the other strings sharing it keep their text |
| `StringCow.String.Writeable` | String.cpp:308-319 | the string ends up as the only owner of its data with the same text; it copies exactly when the data was shared, and the others keep their text |
| `StringCow.String.WriteableEmpty` | String.cpp:323-339 | sole owner; a shared block is replaced by a fresh empty one |
| `StringCow.String.Assign` | String.cpp:399-413 | shares the other string's data; the old data loses a reference (unless it is the same block) and its other owners keep their text |
| `StringCow.String.Swap` | String.cpp:393-397 | exchanges the data blocks |
| `StringCow.String.Set` | String.cpp:472-495 | holds the text, or shares the empty string for NULL |
| `StringCow.String.Append` | String.cpp:497-505 | the old text followed by the new, in data this string alone owns |
| `StringCow.String.AppendChar` | String.cpp:507-513 | the old text followed by c; valid exactly when c is not NUL |
| `StringCow.String.InsertChar` | String.cpp:538-552 | head, c, tail; valid exactly when c is not NUL |
| `StringCow.String.Insert` | String.cpp:522-536 | the corrected insertion: head, text, tail |
| `StringCow.String.GetChar` | String.cpp:612-619 | the character at the index, never the terminator |
| `StringCow.String.SetChar` | String.cpp:621-637 | a NUL truncates to the index, any other character replaces the one there |
| `StringCow.String.Truncate` | String.cpp:721-735 | on any vector, terminated or not, with no NUL among its first n chars (n up to the vector's size): a valid, unshared string of exactly those n characters |
| `StringCow.String.FixLength` | String.cpp:737-747 | cuts the text at the first NUL written into the buffer |
| `StringCow.String.WriteableCStr` | String.cpp:710-719 | on any vector, terminated or not: sole owner; the vector grows (zero-filled) to the size asked for when it is shorter and is otherwise unchanged |
| `StringCow.String.Reserve` | String.cpp:682-695 | the text is unchanged and owned by this string alone |
| `StringCow.String.Clear` | String.cpp:765-775 | the text becomes empty |
| `StringCow.String.Release` | String.cpp:777-780 | shares the static empty string |
| `StringCow.String.PopBack` | String.cpp:660-677 | the last character, removed; NUL and no change on an empty string |
| `StringCow.String.Split` | String.cpp:640-658 | keeps the text before i and returns the text after it (the character at i is dropped); at the end returns the empty string |
| `StringCow.String.FindReplace` | String.cpp:819-875 | the case-insensitive replacement of every match, the number of matches, and the length changed by that many times \|to\| - \|from\| |
| `StringCow.String.Equals` | String.cpp:415-421 | true exactly when the texts are equal |
| `StringCow.String.NotEquals` | String.cpp:423-429 | true exactly when the texts differ |
| `StringCow.String.Less` | String.cpp:431-434 | the lexicographic order of the texts |
| `StringCow.String.EqualsCStr` | String.cpp:436-458 | true exactly when the text equals the C string |
| `StringCow.String.NotEqualsCStr` | String.cpp:442-464 | true exactly when the text differs from the C string |
| `StringCow.String.LessCStr` | String.cpp:448-452 | the lexicographic order of the text and the C string |
| `PrefBlock.ToSigned` | PrefBlock.h:302-305 | the cast of atoi's result to an n-bit signed type: in range, congruent to the value, and the value itself when it fits |
| `PrefBlock.Strtoul` | PrefBlock.h:317-320 | strtoul's result always fits 32 bits |
| `PrefBlock.ReadString` | PrefBlock.cpp:280-297 | the text read is NUL-free |
| `PrefBlock.StrtoulDigits` | PrefBlock.h:316-325 | strtoul reads back the digits "%ul" wrote, ignoring the trailing 'l' |
| `PrefBlock.ReadBoolWritten` | PrefBlock.cpp:299-318 | "yes" reads true and "no" reads false |
| `PrefBlock.ReadStringWritten` | PrefBlock.cpp:280-297 | a quoted NUL-free text reads back as the text |
| `PrefBlock.ReadIntWritten` | PrefBlock.h:301-310 | atoi of "%d" of an in-range value, cast back, is the value |
| `PrefBlock.ReadText` | PrefBlock.h:266-391 | ReadFromText yields a value of the same C type as the one it reads into |
| `PrefBlock.ReadEntry` | PrefBlock.h:155-170 | a value of the same type; a name whose Token is absent from the block leaves the value untouched |
| `PrefBlock.NameKeyIsStrtsame` | token.h:57-90 | two names find the same entry exactly when strtcmp calls them equal: the Token compares the tokenchar-folded text |
| `PrefBlock.TokenCharOfLower` | Hashes.h:87-96 | tokenchar does not depend on case |
| `PrefBlock.ReadIgnoresCase` | PrefBlock.h:155-201 | names that differ only in case find the same entry and read the same value and the same vector |
| `PrefBlock.ReadFields` | PrefBlock.h:266-273 | a compound keeps its member names and each member's type |
| `PrefBlock.CutComma` | PrefBlock.h:188 | TokToComma: a comma-free token, the whole text when there is no comma; otherwise the token is followed by the comma at its end, and the rest fills the text |
| `PrefBlock.CutCommaSplits` | PrefBlock.h:188 | with a comma, the token, the comma and the rest concatenate back to the text |
| `PrefBlock.ReadItems` | PrefBlock.h:193-198 | reading k items yields exactly k items |
| `PrefBlock.ReadVectorText` | PrefBlock.h:186-198 | the vector read has as many items as the count field says |
| `PrefBlock.ReadVector` | PrefBlock.h:172-201 | a name whose Token is absent from the block reads as the empty vector |
| `PrefBlock.ReadWriteRoundTrip` | PrefBlock.h:266-391 | ReadFromText(WriteToText(v)) == v for every value whose parts read back: a char other than NUL, in-range ints, bools, NUL-free strings, and compounds of these whose block text the parser splits back into the members' texts |
| `PrefBlock.ScalarRoundTrip` | PrefBlock.h:287-391 | the round trip for each basic type |
| `PrefBlock.IntRoundTrip` | PrefBlock.h:301-314 | an in-range integer is written as "%d" and reads back |
| `PrefBlock.UIntRoundTrip` | PrefBlock.h:316-329 | an in-range unsigned integer is written as digits and 'l' and reads back |
| `PrefBlock.BoolRoundTrip` | PrefBlock.h:333-351 | a bool is written "yes"/"no" and reads back |
| `PrefBlock.StrRoundTrip` | PrefBlock.h:379-391 | a string is written quoted and reads back |
| `PrefBlock.CompoundRoundTrip` | PrefBlock.h:266-284 | a compound written as a braced block of "name:value" lines reads back, member by member |
| `PrefBlock.ReadFieldsBack` | PrefBlock.h:155-170 | members whose name Tokens map to their written texts read back as those members |
| `PrefBlock.ReadNothingKeeps` | PrefBlock.h:160-163 | an empty block leaves every member untouched |
| `PrefBlock.ItemRoundTrip` | PrefBlock.h:193-198 | a vector item of a basic type reads back through the item reader |
| `PrefBlock.CommaFreeText` | PrefBlock.h:287-329 | a vector item's text holds no comma, so TokToComma cannot split it |
| `PrefBlock.VectorRoundTrip` | PrefBlock.h:124-201 | IOV writes the count and the items separated by commas, and reading that text gives the vector back |
| `PrefBlock.ReadVectorCut` | PrefBlock.h:186-198 | a count before a comma reads that many items from the rest |
| `PrefBlock.ReadVectorNoComma` | PrefBlock.h:186-198 | a count of zero without a comma reads the empty vector |
| `PrefBlock.IOAsIntRoundTrip` | PrefBlock.h:237-243 | IOAsInt's cast to int and back keeps any value of up to 32 bits |
| `PrefBlock.Writer.constructor` | PrefBlock.cpp:54-56 | the buffer starts empty |
| `PrefBlock.Writer.Reset` | PrefBlock.h:113 | empties the buffer |
| `PrefBlock.Writer.IO` | PrefBlock.h:116-122 | appends "name:", the value's text and a newline |
| `PrefBlock.Writer.WriteToText` | PrefBlock.h:276-391 | appends the value's text: the basic formats, or a braced block for a compound |
| `PrefBlock.Writer.IOV` | PrefBlock.h:124-136 | appends "name:", the count, ",item" per item and a newline |
| `PrefBlock.Reader.constructor` | PrefBlock.cpp:62-64 | no entries |
| `PrefBlock.Reader.Reset` | PrefBlock.h:150 | drops the entries |
| `PrefBlock.Reader.Read` | PrefBlock.cpp:207 | the entries are those the block parser finds in the text |
| `PrefBlock.Reader.IO` | PrefBlock.h:155-170 | the value ReadEntry specifies |
| `PrefBlock.Reader.IOV` | PrefBlock.h:172-201 | the vector ReadVector specifies |
| `PrefBlock.ReadEach` | PrefBlock.h:193-198 | the loop reads the items ReadItems specifies |
| `PrefBlock.ReadNext` | PrefBlock.h:195-197 | one turn: cut at the comma, read one item, one fewer to go |
| `PrefBlock.ReadFromText` | PrefBlock.h:266-391 | the value ReadText specifies, compounds read member by member |
| `PrefBlock.Block.FromReader` | PrefBlock.cpp:127-132 | a block that reads |
| `PrefBlock.Block.FromWriter` | PrefBlock.cpp:133-138 | a block that writes |
| `PrefBlock.Block.IO` | PrefBlock.h:230-234 | reading gives ReadEntry's value; writing appends the field and keeps the value |
| `PrefBlock.Block.IOAsInt` | PrefBlock.h:237-243 | the value goes through int: written as its 32-bit cast, read back through atoi and both casts; a name whose Token is absent keeps the double-cast value |
| `PrefBlock.Block.IOV` | PrefBlock.h:245-249 | reading gives ReadVector's result; writing appends the vector's text and keeps the vector |
| `FloatImage.IdxBounds` | FloatImage.cpp:81 | a pixel inside a w x h region of a plane with row length stride is inside the plane |
| `FloatImage.ResampleRow` | FloatImage.cpp:79-82 | one row of the nested copy loops: the row holds the chosen source samples and nothing else changes |
| `FloatImage.Resample` | FloatImage.cpp:77-83 | the nested copy loops: every pixel of the w x h region holds its chosen source sample, the rest of the plane is unchanged |
| `FloatImage.RowStep` | FloatImage.cpp:77-83 | one more row keeps the outer loop's invariant |
| `FloatImage.ResamplePlanes` | FloatImage.cpp:110-122 | the loop over planes resamples every plane the same way |
| `FloatImage.ShiftedCopy` | FloatImage.cpp:77-83 | reading at (x + xlo, y + ylo) copies the source region into the destination's corner |
| `FloatImage.MirrorCoord` | FloatImage.cpp:252-259 | a coordinate inside the image is kept |
| `FloatImage.MirrorCoordRange` | FloatImage.cpp:252-271 | a coordinate less than one width outside either edge lands inside, as the ASSERTs expect |
| `FloatImage.MirrorReflects` | FloatImage.cpp:252-259 | -k maps to k and w - 1 + k maps to w - 1 - k: the edge pixel is not duplicated |
| `FloatImage.ClampCoord` | FloatImage.cpp:278-279 | always inside a non-empty image, and a coordinate inside is kept |
| `FloatImage.TransposeResampled` | FloatImage.cpp:115-121 | reading at (y, x) gives the transpose |
| `FloatImage.HalvedResampled` | FloatImage.cpp:825-837 | reading at (2x, 2y) gives the point-sampled half |
| `FloatImage.DoubledResampled` | FloatImage.cpp:971-977 | reading at (x/2, y/2) gives the doubled image |
| `FloatImage.TransposeTwice` | FloatImage.cpp:103-125 | transposing twice gives the plane back |
| `FloatImage.DoubledThenHalved` | FloatImage.cpp:812-981 | halving the doubled image gives the image back |
| `FloatImage.PortionOfPortion` | FloatImage.cpp:127-151 | a portion of a portion is the portion at the summed offset |
| `FloatImage.WholePortion` | FloatImage.cpp:127-151 | the portion at (0, 0) of the full size is the image |
| `FloatImage.NewPlanes` | FloatImage.cpp:22-26 | n fresh, distinct planes of the given size |
| `FloatImage.FloatImage.constructor` | FloatImage.cpp:19-27 | the size and depth given, with fresh planes of width x height samples |
| `FloatImage.FloatImage.IndexMirror` | FloatImage.cpp:248-274 | for coordinates less than one width or height outside, an index inside the plane |
| `FloatImage.FloatImage.IndexClamp` | FloatImage.cpp:276-282 | always inside a non-empty image, and the plain index for a pixel inside |
| `FloatImage.FloatImage.CreateCopy` | FloatImage.cpp:44-60 | a new image of the source's size with the requested depth: the shared planes copied, the extra ones zero |
| `FloatImage.FloatImage.SetCopy` | FloatImage.cpp:86-101 | the shared planes copied from the source, the extra ones zeroed, the plane arrays kept |
| `FloatImage.FloatImage.CopyPlanePortion` | FloatImage.cpp:70-84 | the w x h region at (xlo, ylo) of the source plane copied to the corner of this plane, the rest unchanged |
| `FloatImage.FloatImage.CreateCopyPortion` | FloatImage.cpp:127-151 | NULL exactly when the region leaves the source; otherwise a w x h image whose planes are the portion |
| `FloatImage.FloatImage.CreateTranspose` | FloatImage.cpp:103-125 | width and height swapped, every plane the transpose |
| `FloatImage.FloatImage.CreateHalvedPointSampled` | FloatImage.cpp:812-844 | half the size (rounded down), every plane sampling the even pixels |
| `FloatImage.FloatImage.CreateDoubledBoxFilter` | FloatImage.cpp:961-981 | twice the size, every pixel repeated in a 2 x 2 block |
| `FloatImage.FloatImage.FillPlane` | FloatImage.cpp:530-540 | every sample of the plane is f |
| `FloatImage.CopySamples` | FloatImage.cpp:52 | memcpy of a whole plane |
| `FloatImage.ZeroSamples` | FloatImage.cpp:56 | memset of a whole plane to zero |
| `FloatImage.MirrorInPlane` | FloatImage.cpp:248-274 | the mirrored pixel lies inside the plane |
| `FloatImage.ClampInPlane` | FloatImage.cpp:276-282 | the clamped pixel lies inside a non-empty plane |
| `Vec2I.AreaRotate` | Vec2i.h:219-222 | the signed doubled area is unchanged when the three corners are rotated |
| `Vec2I.AreaSwap` | Vec2i.h:219-222 | swapping two corners negates the signed area (handedness flips) |
| `Vec2I.AreaDegenerate` | Vec2i.h:219-222 | a triangle with a repeated corner has zero area |
| `Vec2I.AreaSplit` | Vec2i.h:219-222 | the areas of the three triangles a point forms with the edges of abc add up to the area of abc |
| `Vec2I.Orientation` | Vec2i.h:226-254 | exactly one of Left, Right, Colinear holds; LeftOrOn is the negation of Right; swapping a and b exchanges Left and Right and keeps Colinear |
| `Triangulate2D.InsideTriangle` | Triangulate2d.cpp:84-100 | for a counter-clockwise triangle, P is inside exactly when it is left of or on each of the three edges |
| `Triangulate2D.CornersInside` | Triangulate2d.cpp:84-100 | each corner of a counter-clockwise triangle counts as inside it |
| `Triangulate2D.InsideTriangleRotate` | Triangulate2d.cpp:84-100 | the test does not depend on which corner is named first |
| `Triangulate2D.InsideTriangleSplit` | Triangulate2d.cpp:84-100 | for a point inside, each of the three sub-areas lies between zero and the triangle's area |
| `Triangulate2D.Snip` | Triangulate2d.cpp:102-123 | returns true exactly when u,v,w form a counter-clockwise triangle that contains none of the other remaining vertices |
| `Triangulate2D.TrianglesSnoc` | Triangulate2d.cpp:253-259 | appending a counter-clockwise triangle of three distinct contour indices keeps the output list well formed |
| `Triangulate2D.RemovePreserves` | Triangulate2d.cpp:262-267 | removing one entry of the vertex list keeps it a list of distinct valid contour indices |
| `Triangulate2D.RemoveAt` | Triangulate2d.cpp:262-265 | the shift loop leaves the remaining list equal to the old list without position v |
| `Triangulate2D.Back` | Triangulate2d.cpp:240-243 | the position visited i steps before v, modulo the current vertex count |
| `Triangulate2D.StepPositions` | Triangulate2d.cpp:241-243 | the modular steps u = v % nv and (u+1) % nv wrap only at nv |
| `Triangulate2D.BackStep` | Triangulate2d.cpp:240-243 | one more step of the scan shifts the history of visited positions by one |
| `Triangulate2D.BackCovers` | Triangulate2d.cpp:230-243 | nv consecutive steps visit every position of the current polygon |
| `Triangulate2D.Triangulate` | Triangulate2d.cpp:206-275 | every emitted triple is a counter-clockwise triangle of distinct contour indices; fewer than three points give true and no triangles; on true there are 3(n-2) indices; on false a polygon of at least three remaining vertices has no ear |
| `Triangulate2D.NoEarFromStreak` | Triangulate2d.cpp:228-238 | when the error counter runs out, a whole round of candidates failed, so the remaining polygon has no ear |
| `Triangulate2D.ClipStep` | Triangulate2d.cpp:230-271 | one pass of the loop either clips an ear (one vertex fewer, counter reset to 2nv) or moves on with a longer run of failed candidates, keeping the loop invariant |
| `Triangulate2D.ClipEar` | Triangulate2d.cpp:245-270 | clipping an ear emits its triangle, removes the middle vertex and re-establishes the loop invariant |
| `Triangulate2D.FailedCandidate` | Triangulate2d.cpp:233-245 | a candidate that is not an ear extends the run of failures by one |
| `Triangulate2D.EarAtCandidate` | Triangulate2d.cpp:241-245 | the triple the loop tests at u is the ear candidate at u |
| `Triangulate2D.StreakExtends` | Triangulate2d.cpp:240-245 | the run of failed positions, seen from the next v, covers one more position |
| `Triangulate2D.Match` | Triangulate2d.cpp:328-332 | a match means the two edges join the same pair of vertices |
| `Triangulate2D.MatchSameEdge` | Triangulate2d.cpp:328-332 | when the edges are not reverses of each other, a match holds exactly when they join the same pair, and the test is symmetric |
| `ConvexDecomp2D.Prev` | ConvexDecomp2d.cpp:27 | (cur + n - 1) % n is the corner before cur, wrapping from 0 to n-1 |
| `ConvexDecomp2D.Next` | ConvexDecomp2d.cpp:28 | (cur + 1) % n is the corner after cur, wrapping from n-1 to 0 |
| `ConvexDecomp2D.ReflexOrientation` | ConvexDecomp2d.cpp:6-19 | reflexness does not depend on which corner is named first, a reflex corner is not reflex when walked backwards, and colinear corners are never reflex |
| `ConvexDecomp2D.IsConvex` | ConvexDecomp2d.cpp:21-35 | true exactly when no corner of the loop is reflex |
| `ConvexDecomp2D.TriangleConvex` | ConvexDecomp2d.cpp:21-35 | a triangle with non-negative area is a convex loop |
| `ConvexDecomp2D.ModDifference` | ConvexDecomp2d.cpp:38-47 | the result is the signed distance from b to a around a loop of m, congruent to a-b, no longer than (m+1)/2 in absolute value, and equal to the shorter of the two ways round |
| `ConvexDecomp2D.ModDifferenceIs1` | ConvexDecomp2d.cpp:49-63 | true exactly when a and b are neighbours on the loop, wrap-around included |
| `ConvexDecomp2D.NeighboursAreOneApart` | ConvexDecomp2d.cpp:38-63 | for m >= 2, being neighbours is the same as a modular difference of absolute value one |
| `ConvexDecomp2D.SignsDiffer` | ConvexDecomp2d.cpp:65-69 | true exactly when the product of the two values is negative |
| `ConvexDecomp2D.SignProduct` | ConvexDecomp2d.cpp:65-69 | a negative (non-positive) product means strictly (weakly) opposite signs |
| `ConvexDecomp2D.Between` | ConvexDecomp2d.cpp:71-94 | for C on the line through distinct A and B, the coordinate test holds exactly when C lies on the closed segment AB |
| `ConvexDecomp2D.BetweenIsOnSegment` | ConvexDecomp2d.cpp:71-94 | on the line AB, lying on the segment is decided by the x coordinate, or by y when the segment is vertical |
| `ConvexDecomp2D.IntersectsAndCrosses` | ConvexDecomp2d.cpp:126-136 | true exactly when C and D lie strictly on opposite sides of AB and A and B strictly on opposite sides of CD |
| `ConvexDecomp2D.IntersectsOrTouches` | ConvexDecomp2d.cpp:97-124 | true exactly when an end point of one segment lies on the other, or the segments cross |
| `ConvexDecomp2D.CrossingSymmetric` | ConvexDecomp2d.cpp:126-136 | crossing does not depend on the order of the segments or the direction of the first |
| `ConvexDecomp2D.CrossingTouches` | ConvexDecomp2d.cpp:97-136 | a crossing is also an intersection, and segments that share an end point never cross |
| `ConvexDecomp2D.SharedEndTouches` | ConvexDecomp2d.cpp:97-124 | segments that share an end point touch |
| `ConvexDecomp2D.CheckSelfIntersection2d` | ConvexDecomp2d.cpp:185-201 | true exactly when some edge i of the contour crosses some later edge j |
| `ConvexDecomp2D.Rotate` | ConvexDecomp2d.cpp:278-293 | the loop read from position k on has the same length and the same elements |
| `ConvexDecomp2D.Pos` | ConvexDecomp2d.cpp:278-293 | the position k steps after v1 stays on the loop |
| `ConvexDecomp2D.Dist` | ConvexDecomp2d.cpp:278-293 | the unique number of steps from v1 to v2 around the loop |
| `ConvexDecomp2D.RotateAt` | ConvexDecomp2d.cpp:278-293 | entry k of the rotated loop is the entry k steps after v1 |
| `ConvexDecomp2D.Walk` | ConvexDecomp2d.cpp:278-285 | the wrapping walk collects the entries from v up to and including stop |
| `ConvexDecomp2D.Break` | ConvexDecomp2d.cpp:266-296 | the two halves run v1..v2 and v2..v1, each starts and ends at the shared cut vertices, their sizes add up to the loop's size plus two, and both are smaller than the loop exactly when v1 and v2 are not neighbours |
| `ConvexDecomp2D.BreakCovers` | ConvexDecomp2d.cpp:272-273 | the halves hold every vertex of the loop once, and the two cut vertices once more |
| `ConvexDecomp2D.CutTwice` | ConvexDecomp2d.cpp:272-273 | cutting a loop at positions 0 and d yields its elements plus the two cut points |
| `ConvexDecomp2D.SecondHalf` | ConvexDecomp2d.cpp:286-293 | the walk from v2 to v1 is the tail of the walk from v1, closed by v1 |
| `ConvexDecomp2D.CanMerge` | ConvexDecomp2d.cpp:579-640 | succeeds exactly when both corners at the ends of the shared edge stay convex after the join, and then the merged loop walks poly2 from n2 and poly1 from n1, with |poly1| + |poly2| - 2 entries |
| `ConvexDecomp2D.WalkBefore` | ConvexDecomp2d.cpp:617-632 | the wrapping walk from n collects every entry except the one at v |
| `ConvexDecomp2D.MergedCovers` | ConvexDecomp2d.cpp:617-633 | the merged loop holds the vertices of both polygons, less one copy of each end of the shared edge |
| `ConvexDecomp2D.DropLast` | ConvexDecomp2d.cpp:617-632 | walking from Next(v) while skipping v leaves out exactly one copy of poly[v] |
| `ConvexDecomp2D.TotalSizeUpdate` | ConvexDecomp2d.cpp:671-672 | replacing one polygon changes the total vertex count by the difference in sizes |
| `ConvexDecomp2D.TotalSizeEraseU` | ConvexDecomp2d.cpp:671 | erasing one polygon lowers the total vertex count by its size |
| `ConvexDecomp2D.MergePair` | ConvexDecomp2d.cpp:658-678 | finds a merge of two polygons exactly when some matching edge pair can merge, and the result is a valid loop with |poly1| + |poly2| - 2 entries |
| `ConvexDecomp2D.MergeAtEdge` | ConvexDecomp2d.cpp:661-677 | for a fixed edge of poly1, finds a merge exactly when some edge of poly2 can merge with it |
| `ConvexDecomp2D.MergedValid` | ConvexDecomp2d.cpp:617-632 | the merged loop indexes only existing vertices |
| `ConvexDecomp2D.FindMerge` | ConvexDecomp2d.cpp:648-680 | finds polygons p1 < p2 that can merge exactly when some pair can, and the merged loop is valid |
| `ConvexDecomp2D.TryMerges` | ConvexDecomp2d.cpp:642-684 | the loops stay valid, each merge removes one polygon and two vertex entries, and at the end no pair of polygons can merge |
| `ConvexHull3D.FaceEdge` | ConvexHullBuilder3d.cpp:69-71 | the k-th edge of a face in winding order: ab, bc, ca |
| `ConvexHull3D.EqualFlippedIsFlip` | ConvexHullBuilder3d.cpp:270-277 | two edges are equal-flipped exactly when one is the other reversed; the relation is symmetric and reversing twice is the identity |
| `ConvexHull3D.IndexOf` | ConvexHullBuilder3d.cpp:289 | the first position holding the value searched for |
| `ConvexHull3D.ToggleMultiset` | ConvexHullBuilder3d.cpp:279-299 | adding an edge removes one copy of its reverse when the list holds it, and otherwise appends the edge |
| `ConvexHull3D.ToggleSubset` | ConvexHullBuilder3d.cpp:279-299 | the list after the call holds only old edges and the new one |
| `ConvexHull3D.ToggleNoFlippedPair` | ConvexHullBuilder3d.cpp:279-299 | a hanging list with no edge next to its reverse keeps that property |
| `ConvexHull3D.ToggleUndo` | ConvexHullBuilder3d.cpp:279-299 | adding an edge and then its reverse restores the list's contents |
| `ConvexHull3D.AddEdgeToHangingList` | ConvexHullBuilder3d.cpp:279-299 | the search and the push or unordered erase compute the toggle of the edge |
| `ConvexHull3D.EdgesOf` | ConvexHullBuilder3d.cpp:404-406 | the set holds every edge of every listed face |
| `ConvexHull3D.FindBackFaces` | ConvexHullBuilder3d.cpp:353-387 | the back-face list is, in order, every face the vertex lies behind, and the vertex is really outside exactly when it lies behind some face by more than the allowed error |
| `ConvexHull3D.HangFace` | ConvexHullBuilder3d.cpp:404-406 | pushing a removed face's three edges keeps the hanging list equal to the edges of the removed faces with reversed pairs cancelled |
| `ConvexHull3D.EraseBackFace` | ConvexHullBuilder3d.cpp:396-409 | removing the faces backwards from the highest index keeps the not-yet-visited back faces at their original positions |
| `ConvexHull3D.SkippedNotBack` | ConvexHullBuilder3d.cpp:358-387 | a face between two listed back faces is not a back face |
| `ConvexHull3D.RemovalDone` | ConvexHullBuilder3d.cpp:396-409 | once every back face is removed, no remaining face has the vertex behind it |
| `ConvexHull3D.AppendFan` | ConvexHullBuilder3d.cpp:419-425 | the kept faces are followed by one face (edge.a, edge.b, vert) per hanging edge, in order |
| `ConvexHull3D.RemoveBackFaces` | ConvexHullBuilder3d.cpp:393-409 | the remaining faces do not have the vertex behind them, the removed ones do, together they are the old faces, and the hanging list is built from the removed ones |
| `ConvexHull3D.AddVert` | ConvexHullBuilder3d.cpp:350-433 | when the vertex is not really outside the hull is unchanged; otherwise the kept faces are in front of it, the removed faces behind it, and the new faces form a fan from each hanging edge, an edge list with no reversed pair drawn from the removed faces |
| `ConvexHull3D.InsertOnX` | ConvexHullBuilder3d.cpp:567-578 | inserting into a list sorted on x keeps it sorted on x and adds exactly the new vertex |
| `ConvexHull3D.InsertedAbove` | ConvexHullBuilder3d.cpp:567-578 | inserting a larger vertex keeps the first element the least on x |
| `ConvexHull3D.SortOnX` | ConvexHullBuilder3d.cpp:578 | the result is sorted on x and is a permutation of the input |
| `ConvexHull3D.FindSnap` | ConvexHullBuilder3d.cpp:587-609 | the downward scan with the early exit on a different x finds a duplicate exactly when an earlier entry equals the vertex |
| `ConvexHull3D.EraseDuplicate` | ConvexHullBuilder3d.cpp:602-607 | erasing a duplicate keeps the same set of vertices |
| `ConvexHull3D.EraseKeepsSuffix` | ConvexHullBuilder3d.cpp:583-610 | the unordered erase keeps the entries above the cursor distinct from each other and from those below |
| `ConvexHull3D.DedupStep` | ConvexHullBuilder3d.cpp:583-610 | one pass of the outer loop keeps the invariant of the backward scan |
| `ConvexHull3D.DedupStart` | ConvexHullBuilder3d.cpp:578-583 | the sorted list establishes the invariant at the top index |
| `ConvexHull3D.RemoveDegenerateVerts` | ConvexHullBuilder3d.cpp:572-611 | the result has no duplicates, holds exactly the vertices of the input, and is no longer |
| `ConvexHull3D.Corners` | ConvexHullBuilder3d.cpp:557-562 | three corners per face, and a point is among them exactly when it is a corner of some face |
| `ConvexHull3D.GetHullVerts` | ConvexHullBuilder3d.cpp:551-565 | the hull vertices are the distinct corners of the faces, at most three per face |
| `ConvexHull3D.AllVertsFront` | ConvexHullBuilder3d.cpp:9-31 | true exactly when no vertex lies behind the face by more than the allowed error |
| `ConvexHull3D.IsConvexHull3d` | ConvexHullBuilder3d.cpp:129-145 | true exactly when every vertex is in front of, or within the allowed error of, every face |
| `ConvexHull3D.Make3dIncremental` | ConvexHullBuilder3d.cpp:471-547 | fewer than four vertices or no seed tetrahedron give no faces; a seed that already bounds every vertex is left as it is |
| `ConvexHull3D.FlipCount` | ConvexHullBuilder3d.cpp:102-110 | counts the edges of the other face that equal the edge reversed: at most three, zero exactly when none does |
| `ConvexHull3D.CheckFace` | ConvexHullBuilder3d.cpp:65-122 | true exactly when every other face is in front of this face, shares no edge in the same direction, shares fewer than two reversed edges, and each of this face's edges has exactly one reversed partner |
| `ConvexHull3D.HullIsValid` | ConvexHullBuilder3d.cpp:60-124 | true exactly when every face passes the per-face test |
| `ConvexHull3D.MatchesPositive` | ConvexHullBuilder3d.cpp:113-121 | an edge of another face that reverses e makes e's match count positive |
| `ConvexHull3D.MatchesWitness` | ConvexHullBuilder3d.cpp:113-121 | a positive match count has a witness edge on another face |
| `ConvexHull3D.MatchesUnique` | ConvexHullBuilder3d.cpp:113-121 | with a match count of at most one the witness is unique |
| `ConvexHull3D.MateInvolution` | ConvexHullBuilder3d.cpp:118-121 | on a valid hull, each half-edge's reversed partner has it as its own partner |
| `ConvexHull3D.InvolutionEven` | ConvexHullBuilder3d.cpp:118-121 | a set paired off by an involution without fixed points has even size |
| `ConvexHull3D.RangeSize` | ConvexHullBuilder3d.cpp:118-121 | the half-edges 0..n-1 number n |
| `ConvexHull3D.ValidHullEvenFaces` | ConvexHullBuilder3d.cpp:60-124 | a hull that passes the validity test has an even number of faces |
| `BmpImage.U16` | BmpImage.cpp:499-511 | a little-endian 16-bit header field, below 2^16 |
| `BmpImage.U32` | BmpImage.cpp:561-605 | a little-endian 32-bit header field, below 2^32 |
| `BmpImage.Int32` | BmpImage.cpp:561-605 | the two's-complement reading of a 32-bit field: in int32 range and congruent to the unsigned value |
| `BmpImage.GetBytesFromFormat` | BmpImage.cpp:532-550 | at most four bytes per pixel, and zero exactly for the formats the switch does not list |
| `BmpImage.GetFormatForBytes` | BmpImage.cpp:514-530 | for 1 to 4 bytes a known format whose size is that many bytes; any other count gives UNKNOWN, which has size 0 |
| `BmpImage.Luma` | BmpImage.cpp:1920-1924 | the rounded (R + 2G + B)/4 grey level lies between the smallest and largest channel, and a grey colour keeps its level |
| `BmpImage.SwapRBTwice` | BmpImage.cpp:1746-1757 | exchanging red and blue twice gives back the colour |
| `BmpImage.MulLe` | BmpImage.cpp:1894-1895 | multiplying both sides of an inequality by a non-negative pitch keeps it |
| `BmpImage.PixelInBuffer` | BmpImage.cpp:1894-1895 | the pixel at y * pitch + x * bpp lies wholly inside a buffer of height * pitch bytes |
| `BmpImage.RowEnd` | BmpImage.cpp:1894-1895 | the last byte of a pixel stays within its row |
| `BmpImage.RowsAfter` | BmpImage.cpp:1894-1895 | row y ends no later than a later row starts |
| `BmpImage.PixelBefore` | BmpImage.cpp:1894-1895 | a pixel earlier in row-major order ends before a later one starts |
| `BmpImage.PixelsApart` | BmpImage.cpp:1894-1895 | two different pixels occupy disjoint bytes |
| `BmpImage.DecodeChannels` | BmpImage.cpp:1947-2003 | L8, R8G8B8 and X8R8G8B8 pixels read with full alpha, and L8 pixels are grey |
| `BmpImage.Encode` | BmpImage.cpp:1889-1932 | a written pixel occupies exactly the format's byte count |
| `BmpImage.Splice` | BmpImage.cpp:1889-1932 | writing bytes at offset i changes exactly bytes i to i + |e| and keeps the length |
| `BmpImage.DecodeEncode` | BmpImage.cpp:1889-2003 | reading back a written pixel gives the colour as the format stores it |
| `BmpImage.StoredIdempotent` | BmpImage.cpp:1889-2003 | storing a colour that the format already holds changes nothing |
| `BmpImage.StoredOfDecode` | BmpImage.cpp:1889-2003 | a colour read from a writable format is already in stored form, so writing it back is lossless |
| `BmpImage.StoredSwapRB` | BmpImage.cpp:1746-1757 | a stored colour with red and blue exchanged is still in stored form |
| `BmpImage.PrefixSameBytes` | BmpImage.cpp:1947-2003 | a prefix holds the same bytes as the whole buffer below its end |
| `BmpImage.DecodeLocal` | BmpImage.cpp:1947-2003 | reading a pixel depends only on its own bytes |
| `BmpImage.SpliceKeeps` | BmpImage.cpp:1889-1932 | writing one pixel leaves a disjoint pixel's colour unchanged |
| `BmpImage.SpliceReads` | BmpImage.cpp:1889-2003 | the written pixel reads as the written bytes |
| `BmpImage.MirrorIndexRange` | BmpImage.cpp:2005-2028 | the mirrored coordinate is in range exactly for -n < x <= 2n - 2 |
| `BmpImage.MirrorIndexReflects` | BmpImage.cpp:2005-2028 | mirroring reflects about the first and last pixel without repeating them |
| `BmpImage.MirrorDupeIndexRange` | BmpImage.cpp:2030-2053 | the dupe-edge coordinate is in range exactly for -n <= x < 2n |
| `BmpImage.MirrorDupeIndexReflects` | BmpImage.cpp:2030-2053 | dupe-edge mirroring reflects about the image edge, repeating the edge pixel |
| `BmpImage.FlipOutsideStep` | BmpImage.cpp:1712-1724 | swapping rows y and h-1-y extends the flipped border of the image by one row at each end |
| `BmpImage.ShittyMip1` | BmpImage.cpp:190-193 | the rounded average of four bytes lies between the smallest and largest, and four equal bytes give that byte |
| `BmpImage.CreateCopyLosesRows` | BmpImage.cpp:113-119 | a 1 × 8 L8 image with pitch 4 gets a 4-byte copy where its pixels need 32 bytes |
| `BmpImage.Image.constructor` | BmpImage.cpp:313-323 | a new image is empty: no size, UNKNOWN format, no buffer, no palette, owning nothing |
| `BmpImage.Image.Offset` | BmpImage.cpp:1894-1895 | the byte offset of pixel (x, y) lies within the buffer with room for the pixel |
| `BmpImage.Image.GetColor` | BmpImage.cpp:1947-2003 | formats GetColor does not handle give the debug colour; L8 and 24/32-bit X formats read with full alpha; L8 reads grey |
| `BmpImage.Image.SetColor` | BmpImage.cpp:1889-1932 | the buffer is the old one with the pixel's bytes replaced, the pixel reads back as the colour in stored form, and every other pixel is unchanged |
| `BmpImage.Image.SwapPixels` | BmpImage.cpp:1719-1722 | pixels (x, y) and (x, yy) exchange colours and every other pixel is unchanged |
| `BmpImage.Image.SwapRows` | BmpImage.cpp:1717-1723 | rows y and yy exchange colours and the other rows are unchanged |
| `BmpImage.Image.FlipVertical` | BmpImage.cpp:1710-1725 | pixel (x, y) afterwards holds the old colour of (x, height-1-y), with geometry, format and palette unchanged |
| `BmpImage.Image.SwapRowBGR` | BmpImage.cpp:1750-1755 | every pixel of row y has red and blue exchanged and the other rows are unchanged |
| `BmpImage.Image.SwapBGR` | BmpImage.cpp:1746-1757 | every pixel has red and blue exchanged, with geometry, format and palette unchanged |
| `BmpImage.Image.Transpose` | BmpImage.cpp:1852-1887 | a non-24-bit image is left untouched; a 24-bit image swaps width and height, gets a new owned buffer of pitch width*3, and pixel (x, y) holds the old pixel (y, x) |
| `BmpImage.Image.Force8BitGray` | BmpImage.cpp:1647-1678 | an L8 image is untouched; otherwise the image becomes L8 with pitch = width, an owned buffer and no palette, and each pixel holds the grey level of its old colour |
| `BmpImage.Image.CreateCopy` | BmpImage.cpp:101-130 | a fresh image with the same geometry, format and palette, owning both; its buffer holds height * pitch bytes, so every pixel reads the same colour as in the original |
| `BmpImage.PrefixKeepsColors` | BmpImage.cpp:113-119 | copying the first height * pitch bytes keeps every pixel's colour |
| `BmpImage.TransposedBytes` | BmpImage.cpp:1866-1881 | the new buffer has h * w * 3 bytes and its pixel (x, y) is the old pixel (y, x) |
| `BmpImage.TransposeStep` | BmpImage.cpp:1874-1879 | copying one pixel extends the transposed region by that pixel |
| `BmpImage.GrayBytes` | BmpImage.cpp:1662-1674 | the new L8 buffer has w * h bytes and each holds the grey level of the old pixel |
| `BmpImage.GrayStep` | BmpImage.cpp:1670-1672 | writing one grey byte extends the converted region by that pixel |
| `BmpRle.Nibble` | BmpImage.cpp:873 | an RLE4 pixel is a nibble: the high one for even i, the low one for odd i |
| `BmpRle.Even` | BmpImage.cpp:876-922 | rounding up to even with `(x + 1) & ~1` gives the even number x or x + 1 |
| `BmpRle.LiteralAdvancePads` | BmpImage.cpp:919-923 | the corrected literal advance covers the literal's bytes plus at most one pad byte and keeps the source pointer on a 16-bit boundary |
| `BmpRle.Rle4AdvanceShort` | BmpImage.cpp:876 | for a 4-bit literal of n ≡ 1 (mod 4) pixels the advance as written is one byte short of the literal, where the corrected advance pads by one |
| `BmpRle.Rle4AdvanceAgrees` | BmpImage.cpp:876 | for every other literal length the advance as written equals the corrected one |
| `BmpRle.RunPixels` | BmpImage.cpp:882-929 | a run of n pixels, pixel i being the run value (RLE4: the nibble for i) |
| `BmpRle.LiteralPixels` | BmpImage.cpp:872-921 | n literal pixels read from the bytes after the code |
| `BmpRle.Put` | BmpImage.cpp:920-928 | writing a segment into the buffer keeps its length |
| `BmpRle.PutAt` | BmpImage.cpp:920-928 | the bytes written at p are the segment's and all others are unchanged |
| `BmpRle.Step` | BmpImage.cpp:850-889 | one code consumes at least two input bytes and keeps the buffer size; out-of-range reads and writes are faults; a literal advances the source by the RLE4 advance as written or by the corrected one, as chosen |
| `BmpRle.DecodeFrom` | BmpImage.cpp:850-891 | a successful decode keeps the buffer size |
| `BmpRle.Continue` | BmpImage.cpp:850-889 | the loop after a code keeps the buffer size |
| `BmpRle.DecodeFromStep` | BmpImage.cpp:850-889 | the decode from a cursor is the first code's step followed by the decode from the next cursor, or that step's fault |
| `BmpRle.DecodeRle` | BmpImage.cpp:842-936 | the array ends as the decode of the codes from the last row, with the RLE4 literal advance as written or corrected as chosen, or the method reports the fault |
| `BmpRle.DecodeCode` | BmpImage.cpp:852-932 | one pass of the loop writes the buffer and moves the cursor as one step of the decode, with the chosen literal advance |
| `BmpRle.WriteRun` | BmpImage.cpp:882-928 | the run is written at p and nothing else changes |
| `BmpRle.WriteLiteral` | BmpImage.cpp:872-920 | the literal pixels are written at p and nothing else changes |
| `BmpRleEncode.SameRun` | BmpImage.cpp:882-929 | the longest run of equal bytes starting at x, at least one |
| `BmpRleEncode.RunLength` | BmpImage.cpp:882-929 | a run of 1 to 255 equal bytes starting at x, as one run code can hold |
| `BmpRleEncode.RunByte` | BmpImage.cpp:883 | the value byte whose run decodes to v at every position (RLE4: v in both nibbles) |
| `BmpRleEncode.CodesOf` | BmpImage.cpp:926-930 | two code bytes per run |
| `BmpRleEncode.ExpandHead` | BmpImage.cpp:882-885 | a run of k copies of row[x] followed by the runs of the rest expands to the row from x on |
| `BmpRleEncode.RowRuns` | BmpImage.cpp:882-929 | a row split into runs of 1 to 255 equal bytes that expand back to the row |
| `BmpRleEncode.RowRunsCodable` | BmpImage.cpp:883 | the runs of a row of nibbles are codable as RLE4 |
| `BmpRleEncode.RowFits` | BmpImage.cpp:883 | a row of a nibble image holds only nibbles |
| `BmpRleEncode.Row` | BmpImage.cpp:842-859 | the first w bytes of row m |
| `BmpRleEncode.Lines` | BmpImage.cpp:842-859 | the runs of rows m down to 0, each expanding to w pixels |
| `BmpRleEncode.LinesCodable` | BmpImage.cpp:883 | every row's runs are codable |
| `BmpRleEncode.PaintLines` | BmpImage.cpp:856-859 | painting the rows from base one pitch lower each keeps the buffer size |
| `BmpRleEncode.LinesPlaced` | BmpImage.cpp:842-859 | row m's runs start at m * pitch and every row fits its pitch |
| `BmpRleEncode.PutTwice` | BmpImage.cpp:885-929 | writing a then b right after it is writing a + b |
| `BmpRleEncode.PutNothing` | BmpImage.cpp:882-885 | writing an empty segment changes nothing |
| `BmpRleEncode.HoldsSplit` | BmpImage.cpp:888-932 | input holding a + b at s holds a at s and b right after |
| `BmpRleEncode.RunStep` | BmpImage.cpp:926-932 | a run code writes its run and moves both pointers on |
| `BmpRleEncode.EndOfLineStep` | BmpImage.cpp:904-908 | an end-of-line code moves the pixel pointer to the start of the row below |
| `BmpRleEncode.CodesHead` | BmpImage.cpp:926-932 | the first run's code is at s and the rest follows |
| `BmpRleEncode.AppendAssoc` | BmpImage.cpp:888-932 | concatenation of code strings is associative |
| `BmpRleEncode.HoldsHead` | BmpImage.cpp:888-932 | the first two bytes held at s are a and b and the rest follows |
| `BmpRleEncode.ExpandFirst` | BmpImage.cpp:882-929 | the expansion of a run list starts with its first run as decoded |
| `BmpRleEncode.HoldsPair` | BmpImage.cpp:888-932 | a held pair is the two bytes at s |
| `BmpRleEncode.CodesAt` | BmpImage.cpp:926-932 | a run list's codes followed by end of line place each run's code at its offset |
| `BmpRleEncode.LinesCodesAt` | BmpImage.cpp:898-933 | the rows' codes place each row's runs at its offset |
| `BmpRleEncode.LineDecode` | BmpImage.cpp:898-933 | decoding one row's codes writes the row's pixels and moves to the row below |
| `BmpRleEncode.LinesDecode` | BmpImage.cpp:898-936 | decoding all rows' codes ends successfully with every row painted |
| `BmpRleEncode.PaintRowsStep` | BmpImage.cpp:856-859 | painting rows m down to 0 is painting row m and then the rows below |
| `BmpRleEncode.PaintRowsKeeps` | BmpImage.cpp:856-859 | bytes above the painted rows are unchanged |
| `BmpRleEncode.PaintRowsPixel` | BmpImage.cpp:856-859 | a painted byte holds the pixel where x < w and keeps the old byte in the row padding |
| `BmpRleEncode.EncodeDecodesTo` | BmpImage.cpp:842-936 | decoding the encoding of an image paints every row |
| `BmpRleEncode.PaintRowsAt` | BmpImage.cpp:856-859 | the painted buffer holds each pixel at y * pitch + x, and the padding unchanged |
| `BmpRleEncode.EncodeDecode` | BmpImage.cpp:842-936 | decoding the run-length encoding of any 8-bit (or nibble) image succeeds and yields every pixel at its place, with the row padding untouched, under the literal advance as written and under the corrected one |
| `BmpLoad.Zeros` | BmpImage.cpp:814-825 | the buffer new uint8[n] returns, taken as n zero bytes |
| `BmpLoad.Pad4` | BmpImage.cpp:738-754 | `(x + 3) & ~3` is the multiple of four from x to x + 3 |
| `BmpLoad.Pow2UpTo8` | BmpImage.cpp:580 | 1 << bitCount is at most 256 for bit counts up to 8 |
| `BmpLoad.PaletteColors` | BmpImage.cpp:578-592 | up to 8 bits per pixel: a zero biClrUsed means the full 2^bits palette and a larger one is clamped to it; above 8 bits there is no palette |
| `BmpLoad.RgbFormat` | BmpImage.cpp:618-640 | 1, 4 and 8 bits give P8, 16, 24 and 32 give the format of that many bits, and any other count is rejected |
| `BmpLoad.MaskFormat` | BmpImage.cpp:643-690 | a known format is chosen only when the four masks are exactly that format's, for 16, 24 or 32 bits |
| `BmpLoad.MaskFormatComplete` | BmpImage.cpp:652-689 | every format the BI_BITFIELDS switch lists is recognised from its own masks |
| `BmpLoad.ParseDib` | BmpImage.cpp:566-756 | an accepted header has a known format, a 4-byte-aligned pitch, at most 256 colours and a pixel offset within the data; a refusal never loads an image; a negative width, or a height of -2^31, is reported as undefined behaviour |
| `BmpLoad.PaletteEntry` | BmpImage.cpp:713-718 | palette entry i holds the RGBQUAD's red, green and blue with alpha 255 |
| `BmpLoad.DibPaletteShape` | BmpImage.cpp:706-729 | the palette has 256 entries with alpha 255, and those past biClrUsed stay 0xFFFFFFFF from the memset |
| `BmpLoad.ReadDibPalette` | BmpImage.cpp:706-729 | the palette loop computes the palette the header describes, or the over-read fault |
| `BmpLoad.Sample` | BmpImage.cpp:944-958 | a 1-bit sample is 0 or 1 and a 4-bit sample is below 16 |
| `BmpLoad.SampleInRow` | BmpImage.cpp:943-958 | the source byte a pixel unpacks from lies within the row's bytes |
| `BmpLoad.RowPixels` | BmpImage.cpp:943-970 | one unpacked row holds dwWidthBytes bytes |
| `BmpLoad.RowInBuffer` | BmpImage.cpp:831-840 | the destination row, counted down for a bottom-up DIB, lies within the buffer |
| `BmpLoad.UnpackFrom` | BmpImage.cpp:939-974 | unpacking the rows from r on keeps the buffer size |
| `BmpLoad.DibPixels` | BmpImage.cpp:811-977 | the decoded buffer holds height * pitch bytes; RLE4 and RLE8 bitmaps are decoded with the literal advance as written |
| `BmpLoad.CellInside` | BmpImage.cpp:831-840 | cell (q, x) of a height × pitch buffer is inside it |
| `BmpLoad.RowsApart` | BmpImage.cpp:941-947 | a row written at Q * pitch touches no other row |
| `BmpLoad.PutRowCell` | BmpImage.cpp:943-944 | writing a row changes only that row's cells below its length |
| `BmpLoad.DestRowInvolution` | BmpImage.cpp:831-840 | the bottom-up row mapping is its own inverse |
| `BmpLoad.UnpackFromRows` | BmpImage.cpp:939-974 | after the unpack from row r, every cell of a destination row at or after r holds its source pixel and the rest keep their old value |
| `BmpLoad.DibUnpacked` | BmpImage.cpp:939-974 | an unpacked image holds, at each row and column below dwWidthBytes, the pixel unpacked from the matching source row, and zero in the padding |
| `BmpLoad.GuardMeansRow` | BmpImage.cpp:941-968 | the loop guard pbDestMin <= pbDest < pbDestLim holds exactly while rows remain |
| `BmpLoad.WriteRow` | BmpImage.cpp:943-970 | the array is the old one with the unpacked row written at p |
| `BmpLoad.NextRow` | BmpImage.cpp:946-973 | the destination moves one pitch on (up for bottom-up) and the source one padded row on |
| `BmpLoad.UnpackRow` | BmpImage.cpp:941-973 | one pass writes one row, so the rest of the unpack continues from r + 1, or reports the over-read |
| `BmpLoad.Unpack` | BmpImage.cpp:939-974 | the loops over the rows leave the array as the unpack computes it, or report its fault |
| `BmpLoad.DecodeDibPixels` | BmpImage.cpp:811-977 | the pixel stage of LoadDIB computes the pixels of the DIB, RLE codes decoded with the literal advance as written, or its fault |
| `BmpLoad.LoadDIB` | BmpImage.cpp:561-977 | the method computes the outcome of the header checks, the palette and the pixel stage, the RLE4 literal advance as written |
| `BmpLoad.DibLoadedShape` | BmpImage.cpp:706-825 | a loaded DIB has a pitch that is a multiple of four and less than four bytes past the row, height * pitch bytes of pixels, and a 256-entry palette exactly when it is P8 |
| `BmpLoad.DibChecks` | BmpImage.cpp:566-645 | data shorter than the header, or a biSize below 40, is refused; an accepted header has one plane, a compression not beyond BI_BITFIELDS, a V4 header for BI_BITFIELDS, and only uncompressed or bit-field data stored top-down |
| `BmpLoad.LoadBMP` | BmpImage.cpp:499-511 | the method computes LoadBMP's outcome: the file header checks, then LoadDIB as written |
| `BmpLoad.BmpLoadedIsDib` | BmpImage.cpp:499-511 | a BMP loads only with the tag 'BM', a size field within the data and a DIB after the 14-byte header that loads to the same image; a wrong tag is refused |
| `BmpTga.BytesFor` | BmpImage.cpp:1041-1058 | `(bits + 7) >> 3` is at most 32 bytes, and zero only for zero bits |
| `BmpTga.ColorMapFormat` | BmpImage.cpp:1044-1054 | 15, 16, 24 and 32 colour-map bits give a format whose entry size is the header's byte count |
| `BmpTga.PixelFormat` | BmpImage.cpp:1061-1095 | a recognised image type and depth give a format of the header's byte count, and P8 only for colour-mapped images |
| `BmpTga.DepthBytesRange` | BmpImage.cpp:1058-1095 | every TGA pixel takes one to four bytes; 24-bit X8R8G8B8 takes three and P8 one |
| `BmpTga.ReadHeader` | BmpImage.cpp:987-1003 | the header's 16-bit fields are below 2^16 |
| `BmpTga.TgaFormats` | BmpImage.cpp:1025-1095 | the format checks only refuse; an accepted header has a non-zero size, a depth matching the pixel format, a colour map for P8, and colour-map bits matching its format |
| `BmpTga.ParseTga` | BmpImage.cpp:1022-1122 | an accepted header is consistent, with its image data starting within the file, the header's width and height, and the format's byte count |
| `BmpTga.TgaLayout` | BmpImage.cpp:1097-1122 | the ID field, the colour map and a P8 map that fits 256 entries are checked in turn, and the image data starts right after the colour map |
| `BmpTga.Widen5` | BmpImage.cpp:1147-1149 | `(x << 3) \| (x >> 2)` widens 5 bits to a byte whose top five bits are x, with 0 and 31 mapped to 0 and 255 |
| `BmpTga.EntryInside` | BmpImage.cpp:1114-1117 | every colour-map entry lies before the image data |
| `BmpTga.PaletteAt` | BmpImage.cpp:1124-1131 | palette entries outside the colour map's range stay 0xFFFFFFFF from the memset |
| `BmpTga.TgaPalette` | BmpImage.cpp:1119-1202 | the palette has 256 entries |
| `BmpTga.ReadTgaPalette` | BmpImage.cpp:1119-1202 | the colour-map loop fills the palette as it is defined entry by entry |
| `BmpTga.NextEntry` | BmpImage.cpp:1151-1186 | the entry pointer moves one entry size on |
| `BmpTga.MapEntry16` | BmpImage.cpp:1139-1167 | a 16-bit entry's channels are its three 5-bit fields widened, with alpha 255 for X1R5G5B5 and from the top bit for A1R5G5B5 |
| `BmpTga.MapEntryBytes` | BmpImage.cpp:1169-1187 | a 24-bit entry is B, G, R bytes with alpha 255, and a 32-bit entry is the little-endian word |
| `BmpTga.Walk` | BmpImage.cpp:1242-1296 | the row walk keeps the buffer size, and fails only by running out of data or writing outside the buffer |
| `BmpTga.TgaRows` | BmpImage.cpp:1208-1297 | the decoded rows fill a buffer of cbImage bytes, one byte more per pixel for 24-bit images |
| `BmpTga.Widen` | BmpImage.cpp:1309-1312 | widening one pixel keeps the buffer size |
| `BmpTga.WidenDown` | BmpImage.cpp:1304-1315 | widening from the last pixel down keeps the buffer size |
| `BmpTga.WidenDownFrom` | BmpImage.cpp:1304-1315 | going backwards, each pixel's three bytes are read before a later pixel's four overwrite them, so every pixel ends as B, G, R, 0xff |
| `BmpTga.WidenAll` | BmpImage.cpp:1299-1317 | after the in-place widening, 4-byte pixel j holds the three bytes of 3-byte pixel j followed by alpha 0xff |
| `BmpTga.WidenInPlace` | BmpImage.cpp:1303-1315 | the backward loop computes the widening |
| `BmpTga.WidenPixel` | BmpImage.cpp:1309-1312 | one pass writes the four bytes of pixel j |
| `BmpTga.Copy` | BmpImage.cpp:1277 | memcpy writes the n source bytes at p and nothing else |
| `BmpTga.CopyPixel` | BmpImage.cpp:1272-1286 | one pixel of a packet is copied and the walk continues from the next position, or the walk's refusal or fault is reported |
| `BmpTga.CopyPacket` | BmpImage.cpp:1248-1293 | one packet, raw or run-length, is copied and the walk continues on the same row further right, or its refusal or fault is reported |
| `BmpTga.DecodeTgaRows` | BmpImage.cpp:1242-1296 | the loops over rows and packets leave the buffer as the walk computes it, or report its outcome |
| `BmpTga.DecodeTgaPixels` | BmpImage.cpp:1223-1297 | the direct copy or the row walk computes the rows of the image |
| `BmpTga.LoadTGA` | BmpImage.cpp:1013-1320 | the method computes LoadTGA's outcome |
| `BmpTga.TgaChecks` | BmpImage.cpp:1022-1117 | short data is refused; an accepted header has colormap type 0 or 1, image type 1, 2, 3, 9, 10 or 11, non-zero size, a valid colour-map depth, an 8-bit colour-mapped or grey image or a 15/16/24/32-bit true-colour one, an ID field and colour map that fit, and RLE exactly for types from 8 up |
| `BmpTga.TypeBits` | BmpImage.cpp:1025-1097 | the mask tests leave colormap types 0 and 1 and image types 0-3 and 8-11, whose low two bits are the kind and bit 3 the RLE flag |
| `BmpTga.TgaLoadedShape` | BmpImage.cpp:1208-1319 | a loaded TGA has the header's non-zero size, one of six formats, a pitch of width times 1, 2 or 4 bytes, height * pitch bytes, and a 256-entry palette exactly when P8 |
| `BmpTga.SizeOfRows` | BmpImage.cpp:1211-1213 | w * h * b bytes are h rows of w * b |
| `BmpTga.TgaWidened` | BmpImage.cpp:1299-1317 | a loaded 24-bit TGA holds each decoded pixel's three bytes followed by 0xff |
| `BmpTga.TgaNoImageData` | BmpImage.cpp:1253-1275 | a file that ends right after the colour map and is not a direct copy is refused |
| `BmpPpm.Scale` | BmpImage.cpp:1389-1486 | `u * 255 / max` maps samples up to the maximum into 0..255, and the maximum to 255 |
| `BmpPpm.ScaleBound` | BmpImage.cpp:1478-1486 | the scaled sample of a value up to max is at most 255, and exactly 255 at max |
| `BmpPpm.WordBytes` | BmpImage.cpp:1452-1460 | a 32-bit pixel is stored as four little-endian bytes |
| `BmpPpm.ByteRoundTrip` | BmpImage.cpp:1389-1391 | a byte value survives the round trip through a 32-bit word |
| `BmpPpm.PackBlue` | BmpImage.cpp:1389-1391 | the low byte of the packed pixel is blue |
| `BmpPpm.PackGreen` | BmpImage.cpp:1389-1391 | the second byte of the packed pixel is green |
| `BmpPpm.PackRed` | BmpImage.cpp:1389-1391 | the third byte of the packed pixel is red |
| `BmpPpm.PackAlpha` | BmpImage.cpp:1389-1391 | the top byte of the packed pixel is 0xff |
| `BmpPpm.ShlByte` | BmpImage.cpp:1389-1391 | shifting a byte value by up to 16 bits loses nothing |
| `BmpPpm.PackBytes` | BmpImage.cpp:1389-1391 | a packed pixel is stored as B, G, R, 255 |
| `BmpPpm.ChannelBytes` | BmpImage.cpp:1389-1486 | the binary and the ASCII ways of assembling a pixel both store B, G, R, 255 |
| `BmpPpm.PackOrder` | BmpImage.cpp:1478-1486 | or-ing the channels in the ASCII order gives the same word as the binary order |
| `BmpPpm.OrKeepsOpaque` | BmpImage.cpp:1482-1486 | or-ing more bits into a pixel whose top byte is 0xff keeps it |
| `BmpPpm.CommentEnd` | BmpImage.cpp:1408-1418 | a comment runs to the first newline or the end of the data |
| `BmpPpm.Number` | BmpImage.cpp:1423-1434 | a number ends at whitespace or at the end of the data, and a number that starts with a non-space consumes at least one byte |
| `BmpPpm.DecimalSnoc` | BmpImage.cpp:1430 | `u * 10 + (c - '0')` appends a digit to the decimal value |
| `BmpPpm.NumberIsDecimal` | BmpImage.cpp:1423-1434 | the number read is the decimal value of the digits it consumed; the read fails exactly when a byte that is neither a digit nor a space comes first |
| `BmpPpm.BinaryFrom` | BmpImage.cpp:1387-1400 | the binary sample loop keeps the buffer size, and fails only by refusal or over-read |
| `BmpPpm.BinaryFills` | BmpImage.cpp:1387-1400 | after the binary loop, pixels before pdw are unchanged and pixel k after it comes from the three bytes 3(k - pdw) after the start, all of which lie within the data |
| `BmpPpm.Store` | BmpImage.cpp:1436-1495 | storing a number either refuses it (a zero width, height or maximum, or no room for a pixel) or moves to the next mode, keeping the loop invariant |
| `BmpPpm.Sample` | BmpImage.cpp:1474-1492 | storing a sample keeps the loop invariant or refuses |
| `BmpPpm.Binary` | BmpImage.cpp:1372-1401 | the binary branch never loads without filling the buffer |
| `BmpPpm.PpmFrom` | BmpImage.cpp:1370-1499 | the loop ends with every pixel filled, or an outcome that is not a load |
| `BmpPpm.LeBytes` | BmpImage.cpp:1452-1457 | four bytes per pixel word |
| `BmpPpm.SkipComment` | BmpImage.cpp:1411-1415 | the comment loop stops where the comment ends |
| `BmpPpm.ReadNumber` | BmpImage.cpp:1423-1434 | the digit loop computes the number and where it ends |
| `BmpPpm.ReadBinary` | BmpImage.cpp:1387-1398 | the binary loop fills the pixel array as the binary decode defines it, or reports its outcome |
| `BmpPpm.FinishBinary` | BmpImage.cpp:1372-1401 | the binary branch returns the image or the outcome the binary decode defines |
| `BmpPpm.StoreHeader` | BmpImage.cpp:1438-1472 | storing a width, height or maximum matches the definition, allocating the pixel array at the height |
| `BmpPpm.StoreSample` | BmpImage.cpp:1474-1492 | storing a sample matches the definition, and completing the last pixel ends the load |
| `BmpPpm.Advance` | BmpImage.cpp:1402-1496 | one pass of the loop moves forward and leaves the rest of the decode unchanged, or ends with the decode's outcome |
| `BmpPpm.LoadPPM` | BmpImage.cpp:1341-1500 | the method computes LoadPPM's outcome |
| `BmpPpm.StoreOpaque` | BmpImage.cpp:1478-1486 | storing a number keeps every written pixel's alpha at 0xff |
| `BmpPpm.BinaryOpaque` | BmpImage.cpp:1389-1391 | every pixel of the binary loop's output has alpha 0xff |
| `BmpPpm.NumberOpaque` | BmpImage.cpp:1423-1495 | reading and storing a number keeps every written pixel's alpha at 0xff |
| `BmpPpm.BinaryStateOpaque` | BmpImage.cpp:1372-1401 | the binary branch keeps every pixel's alpha at 0xff |
| `BmpPpm.PpmFromOpaque` | BmpImage.cpp:1370-1499 | the whole loop keeps every written pixel's alpha at 0xff |
| `BmpPpm.LeBytesWord` | BmpImage.cpp:1452-1457 | bytes 4k to 4k + 3 of the buffer are pixel k's word |
| `BmpPpm.PpmLoadedShape` | BmpImage.cpp:1341-1500 | a loaded PPM starts "P3" or "P6", is X8R8G8B8 with no palette, has a non-zero size, a pitch of 4 * width, width * height pixels, and alpha 0xff in every pixel |
| `BmpPpm.RedStep` | BmpImage.cpp:1474-1479 | a red sample starts the pixel with the scaled red and alpha 0xff and moves to green |
| `BmpPpm.GreenStep` | BmpImage.cpp:1481-1483 | a green sample ors in the scaled green and moves to blue |
| `BmpPpm.BlueStep` | BmpImage.cpp:1485-1492 | a blue sample ors in the scaled blue and moves to the next pixel's red |
| `BmpPpm.AsciiPixel` | BmpImage.cpp:1474-1492 | three samples up to the maximum make one pixel stored as the scaled B, G, R and 255, leaving the other pixels unchanged |
| `BmpPpm.BinaryPixel` | BmpImage.cpp:1389-1391 | three binary samples up to the maximum make one pixel stored as the scaled B, G, R and 255 |
| `BmpPpm.BinaryNeedsByteMax` | BmpImage.cpp:1372-1376 | a P6 file whose maximum is above 255 is refused when its binary samples start |
| `BmpFile.LoadFrom` | BmpImage.cpp:360-406 | the sequence from decoder i on stops at a decoder from i to 4 |
| `BmpFile.LoadFromFirst` | BmpImage.cpp:360-406 | the sequence stops at the first decoder that does not return false, with its outcome, and returns false exactly when all four do |
| `BmpFile.PpmIsNotBmp` | BmpImage.cpp:499-511 | a file starting with 'P' is refused by LoadBMP and so goes on to LoadPPM |
| `BmpFile.Try` | BmpImage.cpp:360-406 | step i of Load calls LoadBMP, LoadPPM, LoadTGA or LoadDIB |
| `BmpFile.Install` | BmpImage.cpp:753-756 | a successful decoder sets the size, format, owned buffer and, for P8, the palette |
| `BmpFile.Load` | BmpImage.cpp:360-406 | Load returns the first decoder's outcome that is not false; on success the image holds that decoder's geometry, format, owned buffer and palette; after a failed decoder the buffer and palette are released and forgotten |
| `Color.Red` | Color.h:126 | the red channel of a packed word is a byte |
| `Color.Green` | Color.h:127 | the green channel of a packed word is a byte |
| `Color.Blue` | Color.h:128 | the blue channel of a packed word is a byte |
| `Color.Alpha` | Color.h:129 | the alpha channel of a packed word is a byte |
| `Color.DistanceSqr` | Color.h:393-403 | the sum of the four squared channel differences is at most 4 · 255², so it fits the uint32 result |
| `Color.DistanceSqrRGB` | Color.h:405-414 | the sum over red, green and blue is at most 3 · 255² |
| `Color.ColorDW.FromWord` | Color.h:105 | the colour holds the given word unchanged |
| `Color.ColorDW.Equals` | Color.h:196-197 | two colours compare equal exactly when all four channels agree |
| `ColorConversions.LocoPackRoundTrip` | ColorConversions.cpp:90-106 | on channel values, the inverse transform undoes the forward one and the forward one undoes the inverse |
| `ColorConversions.InverseUndoesLoco` | ColorConversions.cpp:99-106 | the inverse applied to the forward transform's channels gives back the original colour |
| `ColorConversions.LocoUndoesInverse` | ColorConversions.cpp:90-97 | the forward transform applied to the inverse's channels gives back the original colour |
| `Rect.RectI.Zero` | Rect.h:57-60 | the eZero rectangle has all four bounds 0 and is valid |
| `Rect.RectI.Intersects` | Rect.h:244-256 | the larger-min / smaller-max test holds exactly when the two rectangles share a point |
| `Rect.EnclosesIffPoints` | Rect.h:232-237 | bound containment of a valid rectangle holds exactly when every point of it lies in the outer one |
| `Rect.ExtendedIsEnclosing` | Rect.h:160-185 | extending to a point is enclosing the one-point rectangle at it |
| `Vec3.CrossAntisymmetric` | Vec3i.h:311-318 | swapping the operands negates the cross product |
| `Vec3.TriangleCrossRotates` | Vec3i.h:384-390 | the triangle normal is the same whichever corner it is computed from |
| `Vec3.TriangleCrossDegenerate` | Vec3i.h:384-390 | a triangle with two equal corners has a zero normal |
| `Vec3.Vec3i.constructor` | Vec3i.h:41-44 | the vector holds the three given components |
| `Vec3.Vec3i64.constructor` | Vec3i.h:369-372 | the int64 vector holds the three given components |
| `Util.ClampMonotone` | Util.h:367-371 | clamping to a range preserves order |
| `Util.RoundDownBounds` | Util.h:412-417 | masking off the low bits gives the multiple of the alignment in (v - a, v] |
| `StrUtil.IsNumberChars` | StrUtil.cpp:9-28 | every character of a string isnumber accepts is white space, a digit, a sign, '.' or 'e' |
| `StrUtil.NumberExample` | StrUtil.cpp:9-28 | "-99.4e7" is a number |
| `StrUtil.NotNumberExample` | StrUtil.cpp:9-28 | "33 xx" is not a number |
| `StrUtil.TrimEnd` | StrUtil.cpp:144-159 | the text without trailing white space: a prefix that ends in a non-space, with only white space after it |
| `StrUtil.IMatchRest` | StrUtil.cpp:289-308 | the inner loop of stristr answers exactly whether the pattern matches case-insensitively at that position |
| `StrUtil.Replaced` | StrUtil.cpp:432-442 | same length, every `fm` becomes `to` and every other character is kept |
| `StrUtil.ArgstrExamples` | StrUtil.cpp:523-547 | "-ofoo" and "-o=foo" give the value in the same argument, "-o foo" in the next, and a lone "-o" none |
| `StrUtil.CommasLength` | StrUtil.cpp:593-641 | a number below 10 · 1000^e prints in at most 4e + 1 characters, which bounds the buffer |
| `StrUtil.ExpandStrEscapesAsWritten` | StrUtil.cpp:783-821 | as written, the expansion only ever stops at a NUL present in the readable memory |
| `MoreUtil.Strchrorend` | StrUtil.cpp:505-510 | the first `c` at or after the position, or the end of the string |
| `MoreUtil.KillHeadTailWhiteIntended` | MoreUtil.cpp:147-155 | the intended trim: the text between the leading and trailing white space, starting and ending with a non-space |
| `MoreUtil.MyatofReadsGrouped` | MoreUtil.cpp:377-453 | myatof reads the text itoacommas writes for a number back as that number's digits |
| `MoreUtil.MyatofReadsNegative` | MoreUtil.cpp:377-453 | the same for a negative number, the '-' kept |
| `MoreUtil.QuoteEnd` | MoreUtil.cpp:610-624 | the closing quote found is the first one, with no NUL before it |
| `VectorFlex.Inserted` | vector_flex.h:724-755 | the element lands at the index, the head is kept and the tail moves up one |
| `VectorFlex.ErasedRange` | vector_flex.h:786-802 | the head is kept and the tail after the range moves down over it |
| `VectorFlex.FirstIndexOf` | vector_flex.h:622-631 | the first position holding the value, or the size when none does |
| `VectorFlex.SwappedOut` | vector_flex.h:602-616 | the last element moves into the erased slot and everything else stays |
| `VectorFlex.Resized` | vector_flex.h:804-829 | the contents cut back, or padded with copies of the fill value |
| `VectorFlex.Vector.Back` | vector_flex.h:486-487 | the last element |
| `VecSorted.VecSorted.constructor` | vecsorted.h:75-76 | an empty, valid sorted vector |
| `VecSorted.DedupSubMultiset` | vecsorted.h:101-109 | deduplicating only removes elements |
| `VecSorted.VecSorted.RemoveRangeValid` | vecsorted.h:253-261 | removing a range keeps a valid vector valid |
| `StringCow.Mapped` | String.h:293-301 | each character passed through the case map |
| `StringCow.CompareFromLess` | String.cpp:431-434 | the comparison is negative exactly when the mapped text is lexicographically less |
| `RefCountedTable.PointerTable.ReuseFree` | RefCounted.cpp:80-89 | with a free slot, the head of the free list is popped and holds the pointer, its guid kept; no other slot changes |
| `RefCountedTable.PointerTable.IssueFresh` | RefCounted.cpp:90-114 | with no free slot, the next fresh slot holds the pointer with guid 0, the table growing when full |
| `RefCountedTable.StepGuid` | RefCounted.cpp:121-122 | the wrapped guid steps like the counter it wraps and never repeats at once |
| `SmallAllocatorGreedy.GreedyAllocator.constructor` | SmallAllocator_Greedy.cpp:252-270 | no size classes exist before the first small request |
| `SmallAllocatorGreedy.ChunkAddresses` | SmallAllocator_Greedy.cpp:215-226 | the chunks of a block sit at consecutive multiples of the chunk size from its base |
| `GoogleChart.AlphabetRoundTrip` | GoogleChart.cpp:13-20 | the position of the i-th alphabet character is i |
| `GoogleChart.ExtendedDecode` | GoogleChart.cpp:38-53 | a decoded pair is in the extended encoding's range |
| `GoogleChart.TextDecode` | GoogleChart.cpp:55-67 | a decoded text value is between 0 and 99 |
| `GoogleChart.Cycled` | GoogleChart.cpp:109-119 | the colour list cycles through the table, entry i being table[i mod n] |
| `HashtablePrime.EmptyTableValid` | hashtable_prime.h:225-258 | a table of empty slots meets the table invariant with no inserts |
| `HashtablePrime.ReachableAfterErase` | hashtable_prime.h:355-366 | turning a live slot into a tombstone keeps every other entry reachable on its probe sequence |
| `HashtablePrime.MinNewSizeCovers` | hashtable_prime.h:236-257 | the size a rebuild asks for is at least the occupancy |
| `HashtablePrime.HashtablePrime.RebuildIfDue` | hashtable_prime.h:323-327 | the table is rebuilt when the insert count reaches the threshold, keeping its live entries |
| `HashtablePrime.HashtablePrime.FindForever` | hashtable_prime.h:291-316 | when no probe finds the key or an empty slot, no empty slot is ever reached and the key is absent |
| `LinkList.RingEnds` | Link.h:202-232 | the first node of a ring links to the second and to the last, and the last links back to the first |
| `AutoPrintf.ReadsBackLetter` | autoprintf.cpp:35-54 | "%" and a conversion letter are read back as that letter's type |
| `AutoPrintf.ReadsBackI64` | autoprintf.cpp:35-54 | "%I64" and a letter are read back as the letter's 64-bit type |
| `MatchPat.StepPlain` | matchpat.cpp:199-230 | an ordinary character compiles to itself |
| `MatchPat.StepEscaped` | matchpat.cpp:203-208 | a backquote before a wild character compiles to that character as a literal |
| `MatchPat.SkipForward` | matchpat.cpp:428 | the scan stops at the first occurrence of the code |
| `MatchPat.SkipForward2` | matchpat.cpp:460 | the scan stops at the first occurrence of either code |
| `MatchPat.ScanList` | matchpat.cpp:418-427 | the list loop of a set as written, wherever it stays inside the pattern |
| `MatchPat.CountsUpper` | matchpat.cpp:860-863 | upper-casing turns every letter upper-case |
| `MatchPat.CountsLower` | matchpat.cpp:869-872 | lower-casing turns every letter lower-case |
| `PrefBlock.CountText` | PrefBlock.h:128-129 | the count the vector writer prints holds no comma and reads back as the count |

## Left out

- File I/O, windows, threads, clocks and the Win32 shells around the decoders (`BmpImage::Load(const char *)`, `WriteBMP`, `WriteTGA`, the FloatImage file formats): the decoders are modelled over a byte sequence in memory.
- Floating point: `ColorF`, the YUV/YCoCg/LAB conversions, FloatImage filtering and gamma, and the Delaunay flips of Triangulate2d. FloatImage samples are opaque `real`s that are only copied.
- GoogleChart: the double-to-int scaling in front of each encoder; the encoders start from the scaled integer.
- GoogleChart.PlotSeries.LimitChartSeries: the promise that a negative numPoints removes nothing is stated for vectors of at most 2^63 - 1 points, because a sequence in the model has no size limit. It states which points survive, that the end points stay, that x and y stay paired and that the loop stops only when small enough or with no candidate left; it does not state that each removed point is the cheapest candidate. `GoogleChart.FindBest` states that choice on its own, and doubles are modelled as `real`.
- `GetChm`, `MakeXYPlot`, `MakeBarChart` and `ThinChartSeries` in GoogleChart.cpp build text with printf and doubles and are not modelled.
- C integer widths are modelled where the result depends on them: Vec3i wrap-around, guids, the allocator's statistics, `IsPow2` on the 32-bit pattern and `AlignUp` wrap. Elsewhere integers are unbounded, and undefined behaviour such as signed overflow in `w * h`, PPM numbers, `u * 255` or a left shift is not modelled.
- Buffers are at most 2^31 bytes. Every `new[]` buffer is zero-filled in the model; the source leaves it uninitialised.
- Allocation failure, exceptions and `catch(...)`: a decoder that would run into undefined behaviour yields `Undefined` and ends `Load`; a thrown C++ exception is not modelled.
- BmpFile.Load: on failure the image keeps its old width, height, pitch and format. The source's failing decoders may already have set some of them, for example LoadPPM sets the size before it reads the pixels.
- A 24-bit `BI_BITFIELDS` bitmap with the X8R8G8B8 masks gets the 4-byte X8R8G8B8 format, as in the source; that quirk is kept rather than corrected.
- A PPM sample above `max` scales past 255 and, as in the source, spills into the neighbouring channel of the packed word; the model keeps that rather than rejecting it.
- BmpImage operations outside the decoders and the named pixel operations: `CreateCopyPortion`, `CreateShittyMip`, `Depalettize`, `Force24Bit`, `Force32Bit`, `FlipVerticalAndBGR`, `SampleBilinear`, the JPEG loader and the writers.
- `GetColorMirror` and `GetColorMirrorDupeEdge` are stated through the mirror-index lemmas rather than as separate image methods.
- TextureInfo: FloatImage keeps only the width and height it reads from it.
- FloatImage.CopyPlanePortion: requires two distinct planes; copying a plane onto itself is not modelled.
- Vec2i.cpp, which defines `Area`, is not part of this model: `Area` is the integer cross product, with the sign conventions the callers rely on.
- The `Facei` side and distance tests of ConvexHullBuilder3d are a `Geometry` function parameter, because their header is not part of this model.
- ConvexHull3D.Make3dIncremental: the seed tetrahedron search and the random vertex order are parameters (`seed`, `permutation`); the model keeps the guards and the face and edge bookkeeping.
- ConvexHull3D.AddEdgeToHangingList: the debug `ASSERT` that the edge is absent is not a precondition, because it would need the whole hull's validity in `AddVert`.
- The test's Euler check `2 · (V − 2) == F` is not proved. `ConvexHull3D.ValidHullEvenFaces` proves only that a hull `HullIsValid` accepts has an even number of faces.
- `HanginEdgeListIsValid` and the hull's debug validity walks are not modelled.
- ConvexDecomp2d: `CheckIntersection`, `IsOutside`, `PinchReflexReflex`, `BreakAtReflex`, `MakeConvexPieces` and `ConvexDecomposition2d` are not modelled. They recurse over float tests and heuristics. The `Vec2` float versions of `Intersects` and `CheckSelfIntersection2d` are not modelled either.
- MoreUtil.FindMatchingBraceBalances: the balance is proved only for text without '/', where no comment is skipped; with comments the scan is stated by `BraceScan` and shown on one example (`FindMatchingBraceSkipsComment`), not by a depth count over the text outside comments.
- PrefBlock: the reader's table is keyed by the tokenchar-folded name (`NameKey`), which is what the Token's FNV hash is computed from. Two different folded names whose 32-bit hashes collide find the same entry in the source; the model keeps them apart, because the hash function itself is not modelled.
- StringCow.String.FindReplace: requires a non-empty `from`. With an empty `from` every position matches and the source's loop never ends on a non-empty string: `ptr` stays put after an empty replacement, or meets another empty match right after each inserted `to`. A terminating model cannot express that; an empty string returns 0 there.
- Util.NextPow2: requires x <= 2^30. Above that, doubling the int `y` past 2^30 overflows, which is undefined behaviour; in practice `y` wraps to INT_MIN and then 0, and the loop never ends. The model does not follow that path.
- BmpLoad.ParseDib: a negative biWidth, or a biHeight of -2^31, is reported as `Undefined(NegativeSize)` and ends Load. In the source the width becomes a 32-bit pitch and width near 2^32. Then `new uint8[dwHeight * m_pitch]` either throws, and Load's `catch(...)` goes on to the next decoder, or succeeds and the row loop writes with that pitch outside the buffer; which happens depends on the allocator, and the model does not choose.
- PrefBlock: the block parser behind `PrefBlock_Reader::Read` is a function parameter (`parse`). `TokToComma` is declared but not defined in the source, and is modelled as a cut at the first ','.
- vector.h growth rule: dynamic storage grows to `max(2 · capacity, newsize)` in the model. Element constructors and destructors, `extend_no_construct`, `find_if` and `appendv` are not modelled; an element is a value.
- vector_s `makefit2`: the source fails if it is ever called and nothing calls it, so it has no member.
- hashtable_prime: the counters and hash are unbounded rather than `uint32`, and the fill ratio is in per-mille rather than a float. The magic empty and deleted keys are slot constructors, so the requirement that a key is not one of them disappears. The key-only `find`/`insert` aliases, `tail()` and the iterator class are not modelled. A probe loop that would spin forever stops after `2 · size` probes with `Forever`.
- SmallAllocator: the `DO_STATS` counters, `lprintf` and `DO_INVALIDATE_DATA` are not modelled. Block and `malloc` addresses are parameters.
- RefCounted: the debug counters `s_totalRefCount` and `s_totalObjectCount`, the `DO_16BIT_INDEX` build and reference tracking are not modelled.
- Link.h: `ListIsValid` (an assert-only walk), the sanity bound of 99999 in `GetListLength`, and `LinkBase` without data are not modelled.
- matchpat: a range such as `[a-]]` that reads past the pattern, a source literal left after the string's terminator has been read, and a turn that goes on to the stars with the string pointer past its terminator are all collapsed into one over-read outcome; what the source would read there is not modelled. `RenameByPat`'s debug `ASSERT` is not a precondition. The partial contents of the output when `RenameByPat` returns 0 are not stated.
- String.cpp: `Reserve` only breaks sharing; capacity is not modelled.
- Aliasing: String `Set`, `Append` and `Insert` take the text as a value. In the source the `const char *` may point into the string's own buffer, which `clear`, `resize` or the copy itself may move or overwrite. Likewise vector_flex `insert(position, e)` takes `e` as a value, where the source's reference may name an element of the vector being grown, so `*newpos = e` may read a moved or reallocated slot. The model states the result for text and elements that do not alias the target.
- VecSorted: `std::sort` is modelled by its result, a sorted permutation, not by its algorithm.
- `ConvexHull3D.RemoveDegenerateVerts` sorts with an insertion-sort function that stands for `std::sort`.

## Findings

| source | as written | input that shows it | evidently intended | confidence | as-written member | corrected member |
|---|---|---|---|---|---|---|
| StrUtil.cpp:269-287 | `strtcmp` looks for the end of the strings after passing each character through `tokenchar`, which turns NUL into a space, so the end test never fires | "a" against "a": the loop runs past both terminators | two equal strings compare equal (0) at their common terminator | not executed | `StrUtil.StrtcmpAsWritten` | `StrUtil.Strtcmp` |
| StrUtil.cpp:606-612 | `sprintfcommas` multiplies the 64-bit place value by 1000 until it passes the number, which wraps for numbers of 10^18 or more | 10^18: the place value wraps to 3875820019684212736 | the groups of any 64-bit value are printed | not executed | `StrUtil.SprintfcommasPlaceOverflow` | `StrUtil.Sprintfcommas` |
| StrUtil.cpp:783-821 | `expandStrEscapes` consumes the character after a backslash even when it is the terminator | "a\\" followed by NUL: the read continues past the end | a trailing backslash is copied and expansion stops at the terminator | not executed | `StrUtil.ExpandStrEscapesOverrun` | `StrUtil.ExpandStrEscapes` |
| MoreUtil.cpp:150-152 | `KillHeadTailWhite` treats a string of one remaining character like an empty one | " x ": the result is "" | " x " trims to "x" | medium, not executed | `MoreUtil.KillHeadTailWhiteDropsOneChar` | `MoreUtil.KillHeadTailWhiteIntended` |
| MoreUtil.cpp:419-423 | `itoacommas` negates a negative number in its own width, and the most negative value is its own negation | INT_MIN: only "-" is written | "-2,147,483,648" | not executed | `MoreUtil.ItoacommasMinValue` | `MoreUtil.ItoacommasIntended` |
| vecsorted.h:331-366 | `insert` skips an equivalent element in the multi-set variant and adds a duplicate in the unique one | insert 5 into the unique vector [5]: the result is [5, 5] | a unique vector stays free of duplicates | not executed | `VecSorted.InsertAsWrittenBreaksUnique` | `VecSorted.InsertIntendedKeepsValid` |
| matchpat.cpp:418-427 | the `[...]` list scan steps past a comma without checking for the closing bracket or the end of the pattern | pattern "[a,]" against "z": the scan reads past the pattern | the scan stays inside the list | not executed | `MatchPat.TrailingCommaOverRead` | `MatchPat.ListScanStaysInSet` |
| SmallAllocator_Greedy.cpp:300 | the bytes in use of size class i are counted as chunks times (i+1)*4, half the class's chunk size | class 0 with one chunk in use: 4 bytes reported for an 8-byte chunk | chunks in use times the class's chunk size | not executed | `SmallAllocatorGreedy.UsedBytesHalved` | `SmallAllocatorGreedy.UsedBytes` |
| Vec3i.cpp:38-48 | the overflow guard of the 64-bit dot product bounds each product but not their sum | (-2^31, -2^31, -2^31) with itself: the sum is 3·2^62 | the guard admits only sums that fit 64 bits | not executed | `Vec3.DotOverflows` | `Vec3.DotIntended` |
| Vec3i.cpp:50-60 | the overflow guard of the cross product bounds each product but not their difference | (0, 46340, -46340) × (0, 46340, 46340): the x component is 2·46340^2 | the guard admits only components that fit 32 bits | not executed | `Vec3.CrossOverflows` | `Vec3.CrossIntended` |
| Vec3i.h:320-327 | `DistanceSqr` takes the coordinate differences in 32 bits before widening | (2^31-1, 0, 0) and (-2, 0, 0): the difference wraps | differences taken in 64 bits | not executed | `Vec3.DistanceSqrOverflows` | `Vec3.DistanceSqr` |
| BmpImage.cpp:876 | the 4-bit RLE literal advance rounds the pixel count down before padding to a word | a literal of 5 pixels (3 bytes): the reader advances 2 bytes, and the loader (`BmpLoad.DibPixels`) runs this advance | the literal's bytes rounded up to an even count | not executed | `BmpRle.Rle4AdvanceShort` | `BmpRle.LiteralAdvancePads` |
| BmpImage.cpp:113-119 | `CreateCopy` sizes the new buffer as bytes per pixel times width times pitch, leaving out the height | a 1×8 8-bit image of pitch 4: 4 bytes are allocated and copied for 32 bytes of rows | the copy has height·pitch bytes | not executed | `BmpImage.CreateCopyLosesRows` | `BmpImage.Image.CreateCopy` |
| String.cpp:534-535 | `String::Insert` moves the tail correctly but then copies the inserted text to `buf+at+old_len` instead of `buf+at` | "ab" insert "X" at 0 gives "aaX"; at a later position the copy writes past the end of the vector | "Xab" | not executed | `StringCow.InsertAsWrittenOverruns` | `StringCow.String.Insert` |
| vecsorted.h:302-311 | `is_sorted` loops while `i < n - 1` with `n` an unsigned size_t, so for an empty vector the bound wraps to its largest value | an empty vector: the first pass reads at(1) and at(0); the constructor from a sorted range asserts is_sorted on an empty range (vecsorted.h:115) | an empty vector is sorted, as is_valid already says | not executed | `VecSorted.VecSorted.IsSortedAsWritten` | `VecSorted.VecSorted.IsSorted` |
