# lil: a verified model of the fixed-capacity string and its helpers

This project models the core of the `lil` embedded C++ library in Dafny:

- **`lil::Str<SIZE>`** (`str.dfy`, `str_spec.dfy`): a string that lives in one array of `SIZE` bytes.
  - Bytes `[0, size())` are the characters, and byte `size()` is the terminator.
  - The last byte holds the remaining capacity `MAX_CHARS - size()`, so `size()` costs one read. When the string is full, that byte is 0 and is also the terminator.
  - Every mutator works in place, truncates on overflow, and ends with `set_size_unsafe`.
  - The class `Strings.Str` holds the array and a ghost `Contents`. `Valid()` ties the marker and the terminator to the contents and limits `SIZE` to 128 bytes. That limit exists because `available()` returns a `char` and `modify_size` takes an `int8_t`.
  - Each mutator is proved against value-level functions in the module `StrSpec`:
    - what it does to the content: `InsertedFill`, `InsertedPtr`, `Erased`;
    - what its steps do to the bytes: `FillBytes`, `PtrInsertFixed`, `EraseBytes`. These are built from `MoveBytes` (`memmove`), `CopyBytes` (`memcpy`) and `SetSizeBytes` (`set_size_unsafe`).
  - The in-place algorithms are methods over the `array<byte>`: the backward shift loop and the fill loop of `insert`, `memmove`, `memcpy`, and the counter loops of `len` and `cpy`.
- **`lil::IArr`** (`array_view.dfy`): the array-view mixin. It has no state, and every accessor is an expression over the derived type's `size()` and `data()`. Iterators are indices.
- **`lil::Interval<T>`** (`interval.dfy`): an inclusive range over `int`, with the free `minimum` and `maximum`.
- **`Binary.hpp`** (`binary.dfy`): `bitsToRepresent`, and `intBitsToFit` over a leading-zero count.
- **`StrFindings`** (`str_findings.dfy`) models three places where the byte arithmetic of `Str` does not do what the surrounding code and comments intend. Each is modelled as written, with concrete inputs, and corrected, with the intended content proved.
- **`StrScenarios`** (`str_scenarios.dfy`) states the scenarios of `tests/Str.test.cpp` as client methods of the class. Each scenario method's postcondition is the list of strings the test compares `c_str()` with.

Where the written specification of the library disagrees with the code, the model follows the code:

- **Bytes after the content.** The code's shifts and moves leave stale bytes after the terminator. They are not zeroed, and the model does not claim they are.
- **Erase past the content.** `erase` with an index past the content is not a no-op. The `size_t` subtraction underflows (`ErasePastEndExample`).
- **The literal constructor.** It does not copy the literal verbatim: `cpy` forces the last byte to 0.
- **The `Builder` test.** The commented-out test expects `capacity() == 8` for `Str<4> % Str<5>`. By the code, the result is a `Str<8>`, whose `capacity()` is `MAX_CHARS`, which is 7 (`StrScenarios.Builder`).

## Model

| member | source | states |
|---|---|---|
| Intervals.Minimum | include/lil/Interval.hpp:108-113 | the result is one of the two arguments and no larger than either; on a tie it is `rhs` |
| Intervals.Maximum | include/lil/Interval.hpp:115-120 | the result is one of the two arguments and no smaller than either; on a tie it is `rhs` |
| Intervals.HalfTowardZero | include/lil/Interval.hpp:64-67 | C++ division by 2: the remainder has the sign of the dividend (truncation toward zero) |
| Intervals.Interval.Clip | include/lil/Interval.hpp:32-36 | the result is at most `max` and, on an ordered interval, at least `min`; it is `value` inside the range and the nearer bound outside it |
| Intervals.Interval.InRange | include/lil/Interval.hpp:38-42 | on an ordered interval, true exactly when `min <= value <= max`; on an unordered one, exactly when `value == max` |
| Intervals.Interval.Deadband | include/lil/Interval.hpp:44-55 | the deadband value inside the range, `value` outside it; on an unordered interval, the deadband value exactly at `value == max` |
| Intervals.Interval.Mid | include/lil/Interval.hpp:63-67 | `(min + max) / 2` rounded toward zero, lying inside an ordered interval |
| Intervals.Interval.DeadbandMid | include/lil/Interval.hpp:57-61 | the midpoint inside the range, `value` outside it; on an unordered interval, the midpoint exactly at `value == max` |
| Intervals.Interval.Length | include/lil/Interval.hpp:69-73 | `min + length() == max`, and the length is non-negative exactly when the interval is ordered |
| Intervals.Interval.Equals | include/lil/Interval.hpp:95-99 | true exactly when both bounds agree |
| Intervals.Interval.NotEquals | include/lil/Interval.hpp:101-105 | the negation of equality |
| Intervals.Default | include/lil/Interval.hpp:15-20 | the default interval is ordered, has length 0 and holds the default value 0 |
| Intervals.Make | include/lil/Interval.hpp:22-30 | the constructor's result is ordered, and its bounds are the two arguments (as a multiset) |
| Intervals.Intersect | include/lil/Interval.hpp:75-83 | ordered; from the larger lower bound to the smaller upper bound, swapped when these cross |
| Intervals.Union | include/lil/Interval.hpp:85-93 | ordered; for ordered operands, from the smaller lower bound to the larger upper bound |
| Intervals.IntersectIsMeet | include/lil/Interval.hpp:75-83 | for overlapping ordered operands, a value is in the intersection exactly when it is in both |
| Intervals.IntersectOfDisjoint | include/lil/Interval.hpp:75-82 | disjoint operands, in either order, give the span of the two inner boundaries, as the comment's `([1, 2], [3, 4]) -> [2, 3]` |
| Intervals.UnionContains | include/lil/Interval.hpp:85-93 | the union contains every value either ordered operand contains |
| Intervals.ClipIdempotent | include/lil/Interval.hpp:32-42 | a clipped value is in range, and clipping it again changes nothing |
| ArrayView.Empty | include/lil/detail/IArr.hpp:22 | `empty()` is true exactly when there are no elements |
| ArrayView.Index | include/lil/detail/IArr.hpp:24-25 | `operator[](i)` reads position `i` of the storage, which is element `i` when `i < size()` |
| ArrayView.At | include/lil/detail/IArr.hpp:27-32 | `at(i)` reads the same position as `operator[](i)`, with no bounds check |
| ArrayView.Front | include/lil/detail/IArr.hpp:34-39 | `front()` reads position 0, the first element when there is one |
| ArrayView.Back | include/lil/detail/IArr.hpp:40-45 | `back()` reads position `size()`, the slot just after the elements |
| ArrayView.Begin | include/lil/detail/IArr.hpp:47-48 | `begin()` is position 0, where the elements start |
| ArrayView.End | include/lil/detail/IArr.hpp:50-51 | `end() - begin() == size()`, and the storage between them is the elements |
| ArrayView.CBegin | include/lil/detail/IArr.hpp:49 | `cbegin()` is `begin()` |
| ArrayView.CEnd | include/lil/detail/IArr.hpp:52 | `cend()` is `end()` |
| Binary.Pow2 | include/lil/Binary.hpp:26-29 | powers of two are positive (the scale `bitsToRepresent` is stated on) |
| Binary.Clz | include/lil/Binary.hpp:16-24 | for a non-zero `width`-bit value, the count `n` of leading zeros satisfies `2^(width-1-n) <= v < 2^(width-n)` |
| Binary.BitsToRepresent | include/lil/Binary.hpp:26-29 | `64 - clz(v)` is the `r` with `2^(r-1) <= v < 2^r`, between 1 and 64 |
| Binary.BitsToRepresentUnique | include/lil/Binary.hpp:26-29 | that `r` is unique: any `r` with `2^(r-1) <= v < 2^r` is the one returned |
| Binary.Pow2Monotone | include/lil/Binary.hpp:26-29 | powers of two grow with the exponent |
| Binary.IntBitsToFit | include/lil/Binary.hpp:31-50 | up to 64, the smallest of 8, 16, 32 and 64 that is at least `value`; -1 exactly when `value > 64` |
| Binary.IntBitsToFitMonotone | include/lil/Binary.hpp:31-50 | the chosen width never decreases as `value` grows on `[0, 64]` |
| Binary.IntBitsToFitIdempotent | include/lil/Binary.hpp:31-50 | a chosen width is its own best fit |
| StrSpec.SetSizeBytes | include/lil/Str.hpp:49-54 | `set_size_unsafe(sz)` lays the bytes out for content `b[..sz]` and changes no byte other than position `sz` and the marker |
| StrSpec.CLen | include/lil/Str.hpp:187-194 | `len(str, n)` is at most `n`, has no NUL before it, and is a NUL's index when it is less than `n` |
| StrSpec.Repeat | include/lil/Str.hpp:93-96 | `count` copies of one byte |
| StrSpec.CopyPadded | include/lil/Str.hpp:172-185 | what `cpy(dst, src, n)` leaves in `dst[0, n)` has length `n` and ends in NUL |
| StrSpec.CopyPaddedAt | include/lil/Str.hpp:172-185 | position `i` of it is `src[i]` before the first NUL of `src` and before position `n - 1`, and NUL from there on |
| StrSpec.Truncate | include/lil/Str.hpp:79-86 | truncation keeps the first `min(|s|, max)` characters |
| StrSpec.Splice | include/lil/Str.hpp:79-82 | inserting `t` into `s` adds exactly `|t|` characters |
| StrSpec.InsertedFill | include/lil/Str.hpp:79-100 | the content after a fill insertion has `min(size + count, MAX_CHARS)` characters |
| StrSpec.InsertedFillAt | include/lil/Str.hpp:79-100 | character `i` of it is the old character before the clamped index, the fill for the next `count` positions, and the old character `count` places to the left after them |
| StrSpec.InsertionPoint | include/lil/Str.hpp:110 | `insertion_point` is `index`, clamped to the end of the content |
| StrSpec.InsertionSize | include/lil/Str.hpp:111 | `insertion_size` is `count` when that fits after the insertion point, and otherwise exactly what fits |
| StrSpec.PtrInsertSafe | include/lil/Str.hpp:110-118 | in the regimes it names, the `memmove` as written ends at or before `MAX_CHARS`, so it never reaches the marker |
| StrSpec.InsertedPtr | include/lil/Str.hpp:108-124 | the content after a pointer insertion has `min(size + insertion_size, MAX_CHARS)` characters |
| StrSpec.InsertedPtrAt | include/lil/Str.hpp:108-124 | character `i` of it is the old character before the insertion point, then `str[i - insertion_point]`, then the old character `insertion_size` places to the left |
| StrSpec.Erased | include/lil/Str.hpp:141-150 | the content after an erase from inside the content loses `min(count, size - index)` characters |
| StrSpec.ErasedAt | include/lil/Str.hpp:141-150 | character `i` of it is the old character before `index`, and the old character that many places to the right after it |
| StrSpec.SetSizeBytesKeeps | include/lil/Str.hpp:49-54 | setting the size a string already has changes no byte |
| StrSpec.MoveBytes | include/lil/Str.hpp:118 | `memmove`: each destination byte is the source byte before any write, and every other byte is unchanged |
| StrSpec.CopyBytes | include/lil/Str.hpp:119 | `memcpy`: the destination range holds the source, and every other byte is unchanged |
| StrSpec.ShiftLoop | include/lil/Str.hpp:88-91 | the backward loop copies position `j - count` to `j` for `j` from `last` down to `index + count`, and touches nothing else |
| StrSpec.FillLoop | include/lil/Str.hpp:93-96 | the fill loop writes `fill` at `index` up to `count` times, below `MAX_CHARS`, and touches nothing else |
| StrSpec.FillBytes | include/lil/Str.hpp:83-100 | the bytes `insert(index, count, fill)` leaves have the array's length |
| StrSpec.FillBytesContent | include/lil/Str.hpp:83-100 | for an index inside the content, a full string or a zero count, those bytes are laid out for `InsertedFill` of the old content; a zero count changes no byte |
| StrSpec.FillLoopsInside | include/lil/Str.hpp:88-96 | from an index inside the content, the first `min(size + count, MAX)` bytes are the old head, `count` fills and the old tail |
| StrSpec.FillLoopsIdle | include/lil/Str.hpp:88-96 | past the end of a full string, or with nothing to insert, neither loop writes, and the length stays |
| StrSpec.FillLoopsKeep | include/lil/Str.hpp:88-91 | with a zero count, the shift copies each byte onto itself |
| StrSpec.MoveSizeAsWritten | include/lil/Str.hpp:112-116 | `move_size` as written: the whole tail when tail and insertion fit, else the tail less `insertion_size`, wrapping modulo `2^64` when the insertion is the longer |
| StrSpec.AvailableRead | include/lil/Str.hpp:170 | `available()` widens the marker `char`, taken as signed, to `size_t`: the byte itself below 128, and `2^64 - 256` more from 128 on |
| StrSpec.SizeReadAsWritten | include/lil/Str.hpp:167 | `size()` in `size_t` is the size the marker records when the marker is at most `MAX_CHARS`, and otherwise a wrapped size past the array |
| StrSpec.PtrInsertBytes | include/lil/Str.hpp:118-122 | the steps go past the array exactly when the insertion point, the insertion size and the move together exceed it; otherwise the array keeps its length |
| StrSpec.PtrInsertAsWritten | include/lil/Str.hpp:108-124 | the insertion as written goes past the array exactly when its own move size takes the `memmove` past it |
| StrSpec.PtrInsertFixed | include/lil/Str.hpp:108-124 | with the intended move size the insertion always stays in the array |
| StrSpec.MoveSizeFixed | include/lil/Str.hpp:112-116 | the intended move size keeps the moved tail inside `MAX_CHARS`: the whole tail when everything fits, else exactly what fits |
| StrSpec.MoveAndCopy | include/lil/Str.hpp:118-122 | the bytes after the move, the copy and the new size have the array's length |
| StrSpec.MoveAndCopyLayout | include/lil/Str.hpp:118-122 | when the new size ends the moved tail, the content is the head, the copied bytes and the moved tail |
| StrSpec.MoveSizeAgreesWhenSafe | include/lil/Str.hpp:110-124 | in the regimes of `PtrInsertSafe`, the move size as written equals the intended one, and so does the whole insertion |
| StrSpec.PtrInsertFixedCorrect | include/lil/Str.hpp:108-124 | with the intended move size, every pointer insertion stays in the array and leaves exactly `InsertedPtr` of the old content |
| StrSpec.PtrInsertLayout | include/lil/Str.hpp:108-124 | the bytes of the insertion's steps are laid out for `InsertedPtr` |
| StrSpec.PtrInsertFixedWritten | include/lil/Str.hpp:108-124 | the bytes the steps leave are the `Written` outcome of the intended insertion, laid out for `InsertedPtr` |
| StrSpec.MoveThenCopy | include/lil/Str.hpp:118-119 | `memmove` then `memcpy` leave the head, the copied bytes and the moved tail, in that order |
| StrSpec.InsertedPtrSplit | include/lil/Str.hpp:110-116 | `InsertedPtr` is the head, the inserted bytes and the part of the tail the intended move keeps |
| StrSpec.EraseSizeFixed | include/lil/Str.hpp:143-145 | the intended erase size removes at most `count` characters, never past the end, and none from past the end |
| StrSpec.EraseMoveFixed | include/lil/Str.hpp:144-146 | the intended move length is the tail after the erased characters: erase point, erase size and move sum to the size |
| StrSpec.EraseBytes | include/lil/Str.hpp:141-150 | the erase steps go past the array exactly when erase point, erase size and move together exceed it; otherwise the array keeps its length and is laid out for its first `size - erase_size` bytes |
| StrSpec.CloseGap | include/lil/Str.hpp:146-147 | the bytes after the move and the new size have the array's length |
| StrSpec.CloseGapLayout | include/lil/Str.hpp:146-147 | when the new size ends the moved bytes, the content is the head and the moved bytes |
| StrSpec.ErasedSplit | include/lil/Str.hpp:141-150 | `Erased` is the head and the part of the tail after the erased characters |
| StrSpec.EraseFixedCorrect | include/lil/Str.hpp:141-150 | with the intended sizes, every erase stays in the array, leaves exactly `Erased` of the old content, and changes nothing from past the end |
| StrSpec.EraseFixedWritten | include/lil/Str.hpp:141-150 | the bytes the erase steps leave are its `Written` outcome, laid out for `Erased` |
| StrSpec.AppendFillIsConcat | include/lil/Str.hpp:132 | `append(count, fill)` is the old content followed by as many fills as fit |
| StrSpec.AppendPtrIsConcat | include/lil/Str.hpp:133-134 | `append(str, count)` is the old content followed by as much of `str[..count]` as fits |
| StrSpec.CLenOfTerminated | include/lil/Str.hpp:187-194 | `len` of a terminated string no longer than the bound is the number of characters before the terminator |
| StrSpec.CLenOfFirstNul | include/lil/Str.hpp:187-194 | `len` is the index of the first NUL when that index is within the bound |
| StrSpec.CLenOfNulFree | include/lil/Str.hpp:187-194 | `len` stops at the bound when no NUL precedes it |
| StrSpec.LiteralContent | include/lil/Str.hpp:172-185 | `cpy` of a literal with no interior NUL keeps every byte but the last |
| Strings.MemMove | include/lil/Str.hpp:118 | the array afterwards is `MoveBytes` of the array before |
| Strings.MemCpy | include/lil/Str.hpp:119 | the array afterwards is `CopyBytes` of the array before |
| Strings.SetSizeInPlace | include/lil/Str.hpp:49-54 | writing the marker, then the terminator at the `size()` the marker gives, yields `SetSizeBytes` |
| Strings.SizeRead | include/lil/Str.hpp:167 | the size the methods read from the marker is below the array's length |
| Strings.SizeReadAgrees | include/lil/Str.hpp:167-170 | where that size is not negative it is what `size()` reads in `size_t`, where it is negative `size()` wraps past the array, and for a string of `size` characters it is `size` |
| Strings.MoveCopyAndSetSize | include/lil/Str.hpp:118-122 | the move, the copy and `set_size_unsafe` with the re-read `size()` plus the insertion yield `MoveAndCopy` |
| Strings.InsertPtrInPlace | include/lil/Str.hpp:108-124 | in the safe regimes, the code as written (its own move-size fix-up) leaves the intended outcome, laid out for `InsertedPtr` |
| Strings.MoveAndSetSize | include/lil/Str.hpp:146-147 | the move and `modify_size(-erase_size)` with the re-read `size()` yield `CloseGap` |
| Strings.EraseInPlace | include/lil/Str.hpp:141-150 | the erase steps leave the intended outcome, laid out for `Erased` |
| Strings.ShiftRight | include/lil/Str.hpp:88-91 | the backward loop over an unsigned index leaves `ShiftLoop` of the array |
| Strings.FillForward | include/lil/Str.hpp:93-96 | the fill loop leaves `FillLoop` of the array |
| Strings.InsertFillInPlace | include/lil/Str.hpp:83-100 | the whole fill insertion leaves `FillBytes`, laid out for `InsertedFill`, and changes nothing for a zero count |
| Strings.Str.ContentsOfWritten | include/lil/Str.hpp:49-54 | a valid string whose bytes are laid out for `c` holds `c` |
| Strings.Str.Available | include/lil/Str.hpp:170 | `available()` is `MAX_CHARS - size()` |
| Strings.Str.MaxSize | include/lil/Str.hpp:168 | `max_size()` is `SIZE - 1` |
| Strings.Str.Capacity | include/lil/Str.hpp:169 | `capacity()` equals `max_size()` and bounds the content |
| Strings.Str.Size | include/lil/Str.hpp:167 | `size()`, computed from the marker, is the number of characters |
| Strings.Str.Full | include/lil/Str.hpp:166 | `full()` is true exactly when the content takes all `MAX_CHARS` |
| Strings.Str.Data | include/lil/Str.hpp:163-164 | `data()` is the array: the content, the terminator, and the marker in the last byte |
| Strings.Str.CStr | include/lil/Str.hpp:165 | `c_str()` is terminated after the content, and reading it back with `len` gives the content when that has no NUL |
| Strings.Str.View | include/lil/detail/IArr.hpp:60-63 | the mixin's `size()`/`data()` pair for this string has the whole array as its storage and the content as its elements, so its `back()` is the terminator |
| Strings.Str.Len | include/lil/Str.hpp:187-194 | the counter loop returns `CLen` |
| Strings.Str.Cpy | include/lil/Str.hpp:172-185 | the two loops and the last write leave `CopyPadded` in `dst[0, n)` and nothing after it changes |
| Strings.Str.Empty | include/lil/Str.hpp:24-27 | the default constructor gives a valid empty string |
| Strings.Str.FromPtr | include/lil/Str.hpp:29-35 | the content is the first `min(len(str, sz), MAX_CHARS)` bytes of `str` |
| Strings.Str.FromLiteral | include/lil/Str.hpp:37-41 | the literal constructor gives a full string holding `cpy` of the literal |
| Strings.Str.FromStr | include/lil/Str.hpp:43-47 | construction from another string is `Str(other.c_str(), other.size())` |
| Strings.Str.SetSizeUnsafe | include/lil/Str.hpp:49-54 | the first `sz` bytes become the content; only the marker and position `sz` change |
| Strings.Str.ModifySize | include/lil/Str.hpp:56-59 | `set_size_unsafe(size() + diff)` |
| Strings.Str.PushBack | include/lil/Str.hpp:61-66 | on a string that is not full, appends one character |
| Strings.Str.PopBack | include/lil/Str.hpp:68-72 | on a non-empty string, drops the last character |
| Strings.Str.Clear | include/lil/Str.hpp:74-77 | empties the string, from any storage of the right shape |
| Strings.Str.InsertFill | include/lil/Str.hpp:83-100 | the content becomes `InsertedFill`: the first `MAX_CHARS` characters of head, fills and tail; a zero count changes no byte |
| Strings.Str.InsertCStr | include/lil/Str.hpp:102-106 | `insert(index, str)` inserts `len(str, MAX_CHARS)` bytes of `str` |
| Strings.Str.InsertPtr | include/lil/Str.hpp:108-124 | the content becomes `InsertedPtr`: clamped point, clamped size, truncated to `MAX_CHARS`; the bytes are the intended outcome |
| Strings.Str.InsertStr | include/lil/Str.hpp:126-130 | `insert(index, other)` is `insert(index, other.data(), other.size())` |
| Strings.Str.AppendFill | include/lil/Str.hpp:132 | the old content followed by as many fills as fit |
| Strings.Str.AppendCStr | include/lil/Str.hpp:133 | the old content followed by as much of the C string as fits |
| Strings.Str.AppendPtr | include/lil/Str.hpp:134 | the old content followed by as much of `str[..count]` as fits, for every count |
| Strings.Str.AppendStr | include/lil/Str.hpp:135-139 | the old content followed by as much of the other string as fits |
| Strings.Str.AddChar | include/lil/Str.hpp:155 | `+= c` appends `c`, and is a no-op on a full string |
| Strings.Str.AddCStr | include/lil/Str.hpp:156 | `+= str` is `append(str)` |
| Strings.Str.AddStr | include/lil/Str.hpp:157-161 | `+= other` is `append(other)` |
| Strings.Str.Erase | include/lil/Str.hpp:141-150 | the content becomes `Erased`: at most `count` characters go from `index`, never past the end |
| Strings.Str.ErasePos | include/lil/Str.hpp:152 | `erase(position)` removes one character at `position - cbegin()` |
| Strings.Str.EraseRange | include/lil/Str.hpp:153 | `erase(first, last)` removes `last - first` characters; a reversed range wraps and removes everything from `first` |
| Strings.StrLiteral | include/lil/Str.hpp:204-208 | `str_literal` gives a full string holding the literal without its terminator |
| Strings.Concat | include/lil/Str.hpp:210-216 | `lhs % rhs` is a new `Str<LSIZE + RSIZE - 1>` holding `lhs` then `rhs`, with nothing truncated |
| StrFindings.StaleTerminatorExample | include/lil/Str.hpp:112-122 | `Str<10>("12345678").insert(1, "abc", 3)` as written leaves the old terminator inside a size-9 content |
| StrFindings.OutOfBoundsExample | include/lil/Str.hpp:112-118 | `Str<10>("123456789").insert(5, "ab", 2)` as written moves past the array |
| StrFindings.MarkerMisreadExample | include/lil/Str.hpp:112-122 | `Str<10>("12345678\n").insert(8, "a", 1)` as written moves the newline onto the marker, and `size()` then reads a size that, plus one, wraps to 0: the string becomes empty instead of "12345678a" |
| StrFindings.MarkerOverwriteExactly | include/lil/Str.hpp:112-122 | on a full string, inserting one character before the last gives the intended result exactly when the last character is not both between 2 and `MAX_CHARS + 1` and below 128 |
| StrFindings.MarkerOverwriteAsWritten | include/lil/Str.hpp:112-122 | as written, that insertion moves the last character onto the marker and sets the size re-read from it plus one, capped |
| StrFindings.MarkerOverwriteFixed | include/lil/Str.hpp:110-124 | with the intended move size, that insertion moves nothing and the string stays full |
| StrFindings.MarkerReadSize | include/lil/Str.hpp:121-122 | the size set after reading marker byte `c` plus one is `MAX_CHARS` exactly when `c` is not both between 2 and `MAX_CHARS + 1` and below 128 |
| StrFindings.WrapExample | include/lil/Str.hpp:112-118 | `Str<10>("1234").insert(0, "abcdef", 6)` as written wraps the `size_t` move size |
| StrFindings.EraseSizeAsWritten | include/lil/Str.hpp:145 | `erase_size` as written is at most `count`, and is `min(count, size - index)` with `size - index` taken modulo `2^64` |
| StrFindings.EraseMoveAsWritten | include/lil/Str.hpp:146 | the `memmove` length as written is `size - index` modulo `2^64` |
| StrFindings.EraseAgreesInRange | include/lil/Str.hpp:143-146 | inside the content, the erase size as written is the intended one, and the move length exceeds the intended one by the erase size |
| StrFindings.EraseAsWrittenInRange | include/lil/Str.hpp:141-150 | inside the content, `erase` as written reads past the array exactly when size plus erase size exceeds it, and otherwise leaves the intended content |
| StrFindings.OverReadExample | tests/Str.test.cpp:199-201 | `Str<11>("0123456789").erase(1, 99)` as written reads past the array |
| StrFindings.ErasePastEndExample | include/lil/Str.hpp:143-146 | `Str<10>("ab").erase(5, 1)` as written wraps both `size_t` differences |
| StrFindings.FillPastEndExample | include/lil/Str.hpp:83-98 | on `Str<10>("ab")` with any bytes after its terminator, `insert(5, 2, 'x')` as written gives the content "ab", NUL, then the never-written byte at position 3, with the fills outside the content; `insert(3, 2, 'x')` gives "ab", NUL, 'x' |
| StrFindings.FillClampedCorrect | include/lil/Str.hpp:83-100 | with the index clamped to the size, the fill insertion leaves exactly `InsertedFill` for every index |
| StrScenarios.Observe | tests/Str.test.cpp:42 | reading `c_str()` back up to its terminator gives the content when that has no NUL |
| StrScenarios.FillStep | tests/Str.test.cpp:80-81 | one fill insertion, then `c_str()`, gives the expected content |
| StrScenarios.CStrStep | tests/Str.test.cpp:138-139 | one C-string insertion, then `c_str()`, gives the expected content |
| StrScenarios.EraseStep | tests/Str.test.cpp:181-182 | one erase by index, then `c_str()`, gives the expected content |
| StrScenarios.EraseRangeStep | tests/Str.test.cpp:208-209 | one erase by iterator range, then `c_str()`, gives the expected content |
| StrScenarios.ErasePosStep | tests/Str.test.cpp:223-224 | one erase by iterator position, then `c_str()`, gives the expected content |
| StrScenarios.CEndPosition | tests/Str.test.cpp:11-17 | `cend()` to `cbegin()` of `Str<5>` "abcd" is -4, as for the std::string |
| StrScenarios.SizeAfterPushes | tests/Str.test.cpp:19-36 | an empty `Str<5>` has size 0, and 4 after four pushes |
| StrScenarios.InputLengths | tests/Str.test.cpp:38-49 | `len` of "input" with the bounds the constructors use |
| StrScenarios.Construction | tests/Str.test.cpp:38-70 | all five constructions give "in" |
| StrScenarios.ConstructFromInput | tests/Str.test.cpp:38-49 | `Str<3>` from std::string and from C string "input" give "in" |
| StrScenarios.ConstructFromShorter | tests/Str.test.cpp:51-56 | `Str<5>` from `Str<3>` "in" gives "in" |
| StrScenarios.ConstructFromLonger | tests/Str.test.cpp:58-63 | `Str<3>` from `Str<6>` "input" gives "in" |
| StrScenarios.ConstructFromSame | tests/Str.test.cpp:65-70 | `Str<3>` from `Str<3>` "in" gives "in" |
| StrScenarios.FittingInsertions | tests/Str.test.cpp:72-104 | the fitting fill insertions' contents, on values |
| StrScenarios.InsertFittingCharacters | tests/Str.test.cpp:72-104 | "58", "158", "100058", "10005008", "100050080", "100050080" |
| StrScenarios.OverflowingInsertions | tests/Str.test.cpp:106-132 | the overflowing fill insertions' contents, on values |
| StrScenarios.InsertOverflowingCharacters | tests/Str.test.cpp:106-132 | "1234", "0123", "0000", "0111", "0111" |
| StrScenarios.CStringLengths | tests/Str.test.cpp:134-158 | `len` of each inserted C string, bounded by `MAX_CHARS` |
| StrScenarios.NinesLength | tests/Str.test.cpp:153-154 | `len` of the 23 nines stops at the bound 9 |
| StrScenarios.CStringInsertions | tests/Str.test.cpp:134-158 | the C-string insertions' contents, on values |
| StrScenarios.NinesInsertion | tests/Str.test.cpp:153-154 | inserting the nines at 1 keeps "_" and eight nines |
| StrScenarios.InsertCStrings | tests/Str.test.cpp:134-158 | "12345", "1234567", "1234__567", "1234__567", "___1234__", "_99999999", "_99999999" |
| StrScenarios.InsertFittingCStrings | tests/Str.test.cpp:136-148 | the four insertions that fit |
| StrScenarios.InsertTruncatedCStrings | tests/Str.test.cpp:150-157 | the three insertions into a full string, truncated |
| StrScenarios.InsertStringClass | tests/Str.test.cpp:160-166 | inserting "two " into "frog" gives "two frog" |
| StrScenarios.DigitsLength | tests/Str.test.cpp:179 | `len` of "0123456789" in a `Str<11>` |
| StrScenarios.Erasures | tests/Str.test.cpp:177-228 | the erasures' contents, on values |
| StrScenarios.EraseByIndex | tests/Str.test.cpp:177-202 | "0123456789", "01456789", "56789", "567", "56", "", "0" |
| StrScenarios.EraseByIterator | tests/Str.test.cpp:204-228 | "0123456789", "01456789", "56789", "567", "56", "5", "" |
| StrScenarios.EraseRanges | tests/Str.test.cpp:206-221 | the five range erasures |
| StrScenarios.ErasePositions | tests/Str.test.cpp:223-227 | the two position erasures |
| StrScenarios.Builder | tests/Str.test.cpp:230-237 | "abc" % "defg" has size 7 and capacity 7 (the commented-out test expects 8) |

## Left out

- I/O and the gtest framework: the test scenarios are client methods, and `std::string` operands are given as their bytes and size.
- Memory beyond the array: reading or writing past it is detected as an outcome (`OutOfBounds`) in the as-written models, not modelled as corruption.
- Undefined-behaviour regimes are excluded by preconditions:
  - `push_back` when full;
  - `pop_back` when empty;
  - `SIZE > 128`, and `size_t` wrap-around of `index + count`.
- `Strings.Str.InsertFill`: requires `index + count >= 1`, because the source's unsigned loop test never fails for `insert(0, 0, c)`.
- `Strings.Str.InsertFill`: requires the index to be inside the content, the string to be full, or the count to be 0. For `index > size()` on a string that is not full, the source sets the length to `min(size() + count, MAX_CHARS)` but writes the fill from `index` on. The content then takes in the old terminator and any bytes up to `index`, never written or stale, and only those fills that land below the new length. That case is modelled on values in `StrFindings.FillPastEndExample`.
- `Strings.InsertFillInPlace`: has the same two requirements as `Strings.Str.InsertFill`, for the same reasons.
- `Strings.ShiftRight`: requires `index + count >= 1`, because its unsigned loop test never fails otherwise.
- `Strings.InsertPtrInPlace`: admits only the regimes of `PtrInsertSafe`, as `Strings.Str.InsertPtr` does, for the reason below.
- `Strings.Str.InsertCStr`: admits only the regimes of `PtrInsertSafe`, because it is `insert(index, str, len(str, MAX_CHARS))`.
- `Strings.Str.InsertStr`: admits only the regimes of `PtrInsertSafe`, because it is `insert(index, other.data(), other.size())`.
- `Strings.Str.InsertPtr`: admits only the regimes of `PtrInsertSafe`, where the move size as written is the intended one (`StrSpec.MoveSizeAgreesWhenSafe`). Its contract states the intended outcome `PtrInsertFixed`. The other regimes are modelled on values in `StrFindings`.
- `Strings.Str.Erase`: requires `index <= size()`, because the source's `size() - index` underflows past the end.
- `Strings.EraseInPlace`: requires `index <= size()`, as `Strings.Str.Erase` does. It moves `size() - index - erase_size` bytes, where the source moves `size() - index`, as the next line explains.
- `Strings.Str.Erase`: its `memmove` moves `size() - index - erase_size` bytes, where the source moves `size() - index`. The extra bytes the source moves land at or after the new terminator, or read past the array. `StrFindings.EraseAsWrittenInRange` proves that the source's longer move leaves the same content when it stays inside the array. The bytes after the terminator are not the same.
- Return values: `insert`, `append`, `erase` and `+=` return `*this` for chaining; the methods return nothing.
- The defaulted `sz` of `Str(const char*, size_t)` is passed explicitly.
- The mutable overloads of `data()`, `operator[]`, `at`, `front`, `back` and `begin`/`end`: the model reads the storage and does not hand out writable references.
- `constexpr` and compile-time evaluation, `AtCompileTime`, and pointer identity of iterators: iterators are indices.
- The zero initialisation `_data{}` of the literal constructor: `cpy` writes every byte, so the initial bytes do not matter.
- `BitsToInt` and `BitsToInt_t`: compile-time type selection with no run-time behaviour.
- `Bit_Count_v` is only used for `uint64_t`, as `BitCount(8)`. The 32-bit `clz` overload is `Clz` at width 32.
- `StrSpec.AvailableRead`: takes `char` as signed. On a target where `char` is unsigned, a marker byte of 128 or more reads as itself. No string the class admits has such a marker, and the findings hold for every marker byte below 128.
- `Interval<T>` for floating-point `T`, and overflow of `min + max` in `mid()`: the model is over unbounded `int`.
- `lil/Err.hpp` declares `ToString` without defining it, so there is no behaviour to model; `lil/Assert.hpp` wraps a foreign `AssertFail`. Neither is part of this model.
- Concurrency: the library is single-threaded.

## Findings

| source | as written | input that shows it | evidently intended | confidence | as-written member | corrected member |
|---|---|---|---|---|---|---|
| include/lil/Str.hpp:112-118 | `move_size = size() - insertion_point`, less `insertion_size` when the two exceed `MAX_CHARS` | `Str<10>("12345678").insert(1, "abc")` leaves "1abc2345" with `size() == 9`; `Str<10>("123456789").insert(5, "ab")` writes `_data[10]`; `Str<10>("12345678\n").insert(8, "a")` moves the newline onto the marker, after which `size()` wraps and the string becomes empty; `Str<10>("1234").insert(0, "abcdef")` wraps | move `min(size() - insertion_point, MAX_CHARS - insertion_point - insertion_size)` bytes | high, not executed | StrFindings.StaleTerminatorExample, StrFindings.OutOfBoundsExample, StrFindings.MarkerMisreadExample, StrFindings.MarkerOverwriteExactly, StrFindings.WrapExample | StrSpec.PtrInsertFixedCorrect |
| include/lil/Str.hpp:145-146 | `erase_size = minimum(count, size() - index)`, and `memmove` moves `size() - index` bytes | `Str<11>("0123456789").erase(1, 99)` reads up to position 19 of an 11-byte array; `Str<10>("ab").erase(5, 1)` wraps both differences | `erase_size = minimum(count, move_size)` and a move of `move_size - erase_size` bytes | high, not executed | StrFindings.OverReadExample, StrFindings.ErasePastEndExample, StrFindings.EraseAsWrittenInRange | StrSpec.EraseFixedCorrect |
| include/lil/Str.hpp:83-98 | the fill loop writes from `index` unclamped, while the length becomes `min(size() + count, MAX_CHARS)` | `Str<10>("ab").insert(5, 2, 'x')` gives length 4 with content "ab", NUL and the never-written byte at position 3 | ambiguous: either clamp `index` to `size()` as the pointer overload does (modelled here), or leave the string unchanged, as the test comment at tests/Str.test.cpp:128 puts it; the two agree on a full string, the only case the tests cover | medium, not executed | StrFindings.FillPastEndExample | StrFindings.FillClampedCorrect |
