# inplace_string in Dafny

A model of `basic_inplace_string<N, CharT, Traits>` (inplace_string.h), a
fixed-capacity string that keeps everything in one `std::array` of N + 1
units with no length field. Slots `[0, size)` hold the contents, slot `size`
holds the terminator, and slot N holds the remaining capacity `N - size`.
The model also covers its predecessor `cxx::detail::basic_small_string<N>`
(small_string.h), an array of N units beside an explicit size field.

Modules:

- `Common` (common.dfy): the two exception kinds (`OutOfRange` for
  `std::out_of_range`, `LengthError` for `std::length_error`), the
  `Result`/`Outcome` wrappers that stand for "returns or throws", and
  `std::size_t` arithmetic modulo 2^64 (`npos` is 2^64 - 1).
- `CharTraits` (char_traits.dfy): the traits policy. Units are naturals
  ordered as the unsigned counterpart of CharT. The pure functions `Compare`,
  `Find`, `Assigned`, `Copied` and `Moved` specify the array methods
  `AssignUnits`, `CopyUnits` and `MoveUnits`. `MoveUnits` is overlap-safe.
  `LexLess` is the lexicographic order and `LexCompare` the three-way compare
  proved to decide it.
- `Detail` (detail.dfy): `detail::search_substring`, the naive search behind
  `find`.
- `InplaceStrings` (inplace_string.dfy): the class `InplaceString` over an
  `array<nat>` of length N + 1. `Valid()` is the storage encoding, and
  `Size()` is `N - data[N]` as in the source. Every mutator is proved against
  `Spliced(s, pos, count, ins) == s[..pos] + ins + s[pos + count..]`,
  `Erased` or `Resized`, and round-trip lemmas relate those functions.
  Throwing constructors are static methods returning `Result<InplaceString>`.
  Mutators return `Outcome` and leave the buffer unchanged when they fail.
- `SmallStrings` (small_string.dfy): the class `SmallString` with its bounded
  constructors and `init`, `at`, the `string_view` conversion and the size
  queries.
- `UnitCases` (unit_cases.dfy): expectations of unit_tests.cpp restated on
  the specification functions, and the find expectations derived from the contracts of the
  `FromUnits` constructor and the `Find` method.

A pointer-and-length argument is modelled as the sequence of units it
designates. An iterator range is modelled as the sequence of its elements.
The template parameter N is the field `n`. `unitMax` is the largest value of
the unsigned counterpart of CharT. The static assertion `N < unitMax`
(inplace_string.h:88) is a requirement of every constructor and part of
`Valid()`.

Where the code departs from the standard string behaviour it imitates, the
model follows the code. An oversized constructor source throws
`std::out_of_range`, not `std::length_error` (inplace_string.h:331-332,
374-375, small_string.h:36-37, 100-101). compare breaks a tie by
`count1 - pos1` against `count2` (inplace_string.h:759); the model proves the
lexicographic ordering and records the written expression under Findings.
insert has no capacity check (inplace_string.h:495-500, 515-520); the model's
`Insert` adds one, and the code as written is recorded under Findings.

## Model

| member | source | states |
|---|---|---|
| CharTraits.Compare | inplace_string.h:756 | the traits compare of `count` units is 0 exactly when the two `count`-unit prefixes are equal; its sign is the promise of `traits_type::compare`, and the values {-1, 0, 1} are this model's choice of traits |
| CharTraits.CompareDecidesAtFirstDifference | inplace_string.h:755-758 | the traits compare is negative (positive) exactly when some position below `count` is the first difference and the left (right) unit there is smaller |
| CharTraits.LexCompare | inplace_string.h:753-760 | comparing the common prefix and then breaking a tie by length gives 0 iff the sequences are equal, a negative value iff the left is lexicographically smaller (a proper prefix or smaller at the first difference), and a positive value iff it is larger |
| CharTraits.LexLessTransitive | inplace_string.h:1051-1077 | the order behind `operator<` and the operators derived from it is transitive |
| CharTraits.Find | inplace_string.h:980 | the traits find returns nothing iff the unit is absent, otherwise a position holding it with no earlier occurrence |
| CharTraits.AssignUnits | inplace_string.h:633 | `traits::assign(p, count, c)` sets exactly the `count` slots from `at` to `c` and leaves every other slot as it was |
| CharTraits.CopyUnits | inplace_string.h:377 | `traits::copy` places the source units in order at `at` and leaves every other slot as it was |
| CharTraits.MoveUnits | inplace_string.h:598 | `traits::move` gives the destination the source range as it was before the call, even when the ranges overlap, and leaves every other slot as it was |
| Detail.SearchSubstring | inplace_string.h:1082-1104 | the search returns the lowest position at or after `first` where the needle occurs, and nothing only when it occurs at no such position |
| Detail.SearchAsWrittenMatchesPastEnd | inplace_string.h:1093-1097 | as written, the search reports the needle "a\0" at position 1 of "ba" although it does not occur there, because the compare reads the terminator past the end |
| InplaceStrings.InplaceString.Size | inplace_string.h:146 | `size()` is at most N and, in a valid string, the slot at the size holds the terminator |
| InplaceStrings.InplaceString.Remaining | inplace_string.h:308-311 | the remaining count plus the size is exactly N |
| InplaceStrings.InplaceString.Empty | inplace_string.h:144 | `empty()` (remaining count equal to N) holds exactly when the size is 0 |
| InplaceStrings.InplaceString.SetSize | inplace_string.h:302-306 | `set_size(sz)` with `sz <= N` stores `N - sz` in slot N, where it fits in a unit, and changes no other slot |
| InplaceStrings.InplaceString.constructor | inplace_string.h:316-321 | the default constructor yields an empty valid string with the terminator in slot 0 |
| InplaceStrings.InplaceString.WithFill | inplace_string.h:324-338 | the fill constructor throws out_of_range iff `count > N`; otherwise the contents are `count` copies of `ch` |
| InplaceStrings.InplaceString.FromUnits | inplace_string.h:365-381 | the pointer-and-length constructor throws out_of_range iff `count > N`; otherwise the contents are the source units in order |
| InplaceStrings.InplaceString.FromSuffix | inplace_string.h:347-350 | `(other, pos)` throws out_of_range iff the std::size_t difference `other.size() - pos` exceeds N, which includes every pos past the end short of the last N values below 2^64; otherwise it holds the units of other from pos on |
| InplaceStrings.InplaceString.FromSlice | inplace_string.h:359-362 | `(other, pos, count)` throws out_of_range iff `min(other.size() - pos, count)` with the std::size_t difference exceeds N, so a pos past the end throws whenever count exceeds N; otherwise it holds that many units of other from pos |
| InplaceStrings.InplaceString.FromInputRange | inplace_string.h:429-448 | the single-pass iterator constructor holds the elements in order and throws out_of_range iff there are more than N |
| InplaceStrings.InplaceString.FromForwardRangeAsWritten | inplace_string.h:459-461 | as written, the multi-pass iterator constructor throws iff there are at least N elements, so an exactly fitting range is refused |
| InplaceStrings.InplaceString.FromForwardRange | inplace_string.h:452-469 | the multi-pass iterator constructor with the intended bound holds the elements in order and throws out_of_range iff there are more than N |
| InplaceStrings.InplaceString.At | inplace_string.h:471-479 | `at(i)` throws out_of_range iff `i >= size()`, otherwise yields the i-th unit of the contents |
| InplaceStrings.InplaceString.CopyTo | inplace_string.h:250-260 | `copy` throws out_of_range iff `pos > size()`; otherwise it writes `min(size - pos, count)` units from pos to the front of dest, returns that count and leaves the rest of dest alone |
| InplaceStrings.InplaceString.Substr | inplace_string.h:205-209 | `substr(pos, count)` throws out_of_range iff count (or, for npos, the std::size_t difference `size() - pos`) exceeds N; otherwise it is a new string holding the count units at pos, or every unit from pos on when count is npos |
| InplaceStrings.InplaceString.AppendFill | inplace_string.h:627-638 | `append(count, ch)` throws length_error iff the remaining capacity is below count and then changes nothing; otherwise the contents become the old contents followed by count copies of ch |
| InplaceStrings.InplaceString.Append | inplace_string.h:656-668 | `append(str, count)` throws length_error iff the remaining capacity is below count and then changes nothing; otherwise the contents become the old contents followed by the units of str |
| InplaceStrings.InplaceString.PushBack | inplace_string.h:179 | `push_back` throws length_error iff the string is full; otherwise it adds the unit at the end |
| InplaceStrings.InplaceString.Erase | inplace_string.h:588-605 | `erase(index, count)` throws out_of_range iff `index > size()` and then changes nothing; otherwise it removes `min(size - index, count)` units at index and keeps the rest in order |
| InplaceStrings.InplaceString.PopBack | inplace_string.h:180 | `pop_back` drops the last unit. On an empty string `cend() - 1` forms a pointer before the array, which is undefined behaviour in C++; the model takes what a flat address space gives, an index that wraps to npos, so erase throws out_of_range and changes nothing |
| InplaceStrings.InplaceString.Insert | inplace_string.h:513-522 | the intended `insert(index, str, count)`: out_of_range iff `index > size()`, otherwise length_error iff the result would exceed N, and on success the units of str appear at index with the old tail after them |
| InplaceStrings.InplaceString.InsertFill | inplace_string.h:491-502 | the intended `insert(index, count, ch)`: the same errors as Insert, and on success count copies of ch appear at index with the old tail after them |
| InplaceStrings.InplaceString.Replace | inplace_string.h:850-867 | `replace(pos1, count1, str, count2)` throws length_error iff the growth `count2 - count1` exceeds the remaining capacity and then changes nothing; otherwise the contents are the old prefix up to pos1, then str, then the old units after `pos1 + count1` |
| InplaceStrings.InplaceString.ReplaceFill | inplace_string.h:890-905 | the fill replace has the same error condition, and on success count2 copies of ch replace the count1 units at pos1 |
| InplaceStrings.InplaceString.Resize | inplace_string.h:267-279 | `resize(new_size, ch)` throws length_error iff `new_size > N` and then changes nothing; otherwise the contents are the old ones truncated or padded with ch to exactly new_size |
| InplaceStrings.InplaceString.AssignFrom | inplace_string.h:284-285 | the copy assignment `swap` and `clear` use copies all N + 1 slots, so afterwards the buffer equals the source buffer slot for slot |
| InplaceStrings.InplaceString.Swap | inplace_string.h:281-286 | `swap` exchanges the contents of the two strings, and both stay valid |
| InplaceStrings.InplaceString.Clear | inplace_string.h:154 | `clear` leaves a valid empty string with the terminator in slot 0 |
| InplaceStrings.InplaceString.Compare | inplace_string.h:752-760 | the intended canonical `compare(pos1, count1, str, count2)` is 0 iff the compared units equal str, negative iff they are lexicographically smaller, and positive iff they are larger |
| InplaceStrings.InplaceString.Equals | inplace_string.h:1007-1012 | `operator==`, across capacities, holds exactly when the two contents are equal |
| InplaceStrings.InplaceString.Less | inplace_string.h:1051-1056 | `operator<` holds exactly when the left contents are lexicographically smaller than the right |
| InplaceStrings.InplaceString.Find | inplace_string.h:958-967 | `find(str, pos, count)` is npos when `pos >= size()` or the needle is empty; otherwise it is the lowest position at or after pos where the needle occurs, or npos when it occurs nowhere from pos on |
| InplaceStrings.InplaceString.FindUnit | inplace_string.h:976-982 | `find(ch, pos)` is the first position at or after pos holding ch, and npos exactly when ch does not occur from pos on |
| InplaceStrings.ResizedShape | inplace_string.h:267-279 | resize keeps the common prefix, sets every grown slot to ch and makes the size exactly new_size |
| InplaceStrings.ResizeRoundTrip | inplace_string.h:267-279 | growing with resize and shrinking back to the old size restores the contents |
| InplaceStrings.EraseUndoesAppend | inplace_string.h:590-605 | erasing the `|x|` units at the old size after appending x restores the contents |
| InplaceStrings.EraseUndoesInsert | inplace_string.h:513-522 | erasing the `|x|` units at index after inserting x there restores the contents |
| InplaceStrings.ReplaceUndone | inplace_string.h:852-867 | replacing the replacement with the units it displaced restores the contents |
| InplaceStrings.MovedErases | inplace_string.h:598-603 | erase's move of the units after the erased ones down to index leaves exactly the erased contents below the new size |
| InplaceStrings.CopiedSplices | inplace_string.h:859-866 | replace's move of the tail from `pos1 + count1` to `pos1 + count2`, followed by the copy of str, leaves exactly the spliced contents below the new size |
| InplaceStrings.AssignedSplices | inplace_string.h:898-903 | the fill replace's move and assign leave exactly the contents with count2 copies of ch spliced in below the new size |
| InplaceStrings.EraseUnits | inplace_string.h:598 | erase's `traits_type::move` on the buffer leaves exactly the contents with the cut units removed below the new size and does not touch slot N |
| InplaceStrings.SpliceUnits | inplace_string.h:859-866 | replace's move of the tail followed by the unit-by-unit copy of str leaves exactly the spliced contents in the buffer below the new size and does not touch slot N |
| InplaceStrings.SpliceFill | inplace_string.h:898-903 | the fill replace's move followed by `traits_type::assign` of count2 copies of ch leaves exactly those copies spliced into the buffer and does not touch slot N |
| InplaceStrings.AppendSetSizeAsWrittenOverflows | inplace_string.h:661-666 | as written, `append(str, count)` that fills the string exactly clears slot N with the terminator, so `set_size` receives `N + count`; below capacity it receives the right size |
| InplaceStrings.ReplaceRangeAsWrittenRejectsShrink | inplace_string.h:834-837 | as written, the range replace's std::size_t `new_bytes` makes every shrinking replace throw length_error, while a growing one throws exactly when the growth exceeds the remaining room |
| InplaceStrings.InsertAsWrittenLosesTail | inplace_string.h:513-522 | as written, inserting "x" at 0 into "abc" with N = 4 yields "xac\0", not "xabc" |
| InplaceStrings.CompareAsWrittenAtStart | inplace_string.h:753-759 | as written, compare from position 0 is the lexicographic three-way compare, so the whole-string compare and `operator<` are right |
| InplaceStrings.CompareAsWrittenMisordersSubrange | inplace_string.h:759 | as written, `compare(1, 2, "bc", 2)` on "abc" returns -1 although the compared units equal "bc" |
| InplaceStrings.SizeAsWrittenMisreadsLargeRemaining | inplace_string.h:146 | with a signed 8-bit CharT, `size()` is right while the remaining count is below 128, and otherwise exceeds N by 256; an empty string of capacity 200 reports size 256 |
| SmallStrings.SmallString.constructor | small_string.h:30-32 | the default constructor yields size 0, so the string is empty |
| SmallStrings.SmallString.MaxSize | small_string.h:93 | `max_size()` is the capacity N |
| SmallStrings.SmallString.Capacity | small_string.h:94 | `capacity()` equals `max_size()` |
| SmallStrings.SmallString.View | small_string.h:88 | the `string_view` conversion exposes exactly `_size` units starting at `_data[0]`, never more than the capacity |
| SmallStrings.SmallString.Size | small_string.h:92 | `size()` is never above `max_size()` |
| SmallStrings.SmallString.Empty | small_string.h:90 | `empty()` holds exactly when the view has no units |
| SmallStrings.SmallString.At | small_string.h:72-73 | `at(i)` throws out_of_range iff `i >= N`, bounding against the capacity and not the size, and yields slot i, which is the i-th unit of the view when `i < size()` |
| SmallStrings.SmallString.Back | small_string.h:78-81 | the intended `back()` on a non-empty string is the last unit of the view |
| SmallStrings.SmallString.Init | small_string.h:98-105 | `init(str, count)` throws out_of_range iff `count > N` and then changes nothing; otherwise the view is the first count units of str in order |
| SmallStrings.SmallString.InitRange | small_string.h:107-116 | `init(first, last)` throws out_of_range iff the distance exceeds N and then changes nothing; otherwise the view is the elements in order |
| SmallStrings.WithFill | small_string.h:34-41 | the fill constructor throws out_of_range iff `count > N`; otherwise the size is count and every unit of the view is ch |
| SmallStrings.FromUnits | small_string.h:56-64 | the pointer constructor throws out_of_range iff `count > N`; otherwise the view is the first count source units |
| SmallStrings.FromSuffix | small_string.h:44-48 | `(other, pos)` throws out_of_range iff the std::size_t difference `other.size() - pos` exceeds N, which includes every pos past the end short of the last N values below 2^64; otherwise it holds the units of other from pos on |
| SmallStrings.FromSlice | small_string.h:50-54 | `(other, pos, count)` throws out_of_range iff `count > N`, whatever pos is; otherwise it holds exactly count units from pos, unclamped |
| SmallStrings.FromRange | small_string.h:66-70 | the iterator constructor holds the elements in order and throws out_of_range iff there are more than N |
| SmallStrings.BackIndexAsWrittenMissesView | small_string.h:80-81 | the index written in `back()`, `_size`, is never a unit of the view and is past the array when the string is full |
| SmallStrings.StoredSize | small_string.h:120 | the `char` field holds a value in [-128, 128) |
| SmallStrings.StoredSizeRoundTrip | small_string.h:120 | sizes below 128 read back unchanged through the `char` field |
| SmallStrings.StoredSizeWrapsAt128 | small_string.h:104-120 | as written, a size of 128 reads back as 2^64 - 128 |
| UnitCases.FindInFoobar | unit_tests.cpp:680-686 | a string built by the pointer-and-length constructor from "foobar" finds "bar" at 3 and returns npos for "fooz", derived from the contracts of `FromUnits` and `Find` |
| UnitCases.FindBarInFoobar | unit_tests.cpp:676-682 | "bar" occurs in "foobar" at 3 and at no earlier position, so `find("bar")` is 3 |
| UnitCases.FoozNotInFoobar | unit_tests.cpp:686-687 | "fooz" occurs nowhere in "foobar", so `find("fooz")` is npos |
| UnitCases.ReplaceBasicChain | unit_tests.cpp:533-576 | the ten splices of the replace_basic test take "fooFOO" through "foobar", "FOObar", "FOOBARFOO", "FOOBUZ", "foobarBUZ", "FOOBUZ", "foo", "foobarbuzbaz" and "FOOBARfoobarbuzbaz" back to "foobarbuzbaz" |
| UnitCases.ResizeChain | unit_tests.cpp:514-531 | resizing "foo" to 6 with 'z' gives "foozzz" and resizing to 2 gives "fo" |
| UnitCases.CompareCases | unit_tests.cpp:385-404 | "123456" is below "123456789" and "123466" and above "123356" |

## Left out

- `detail::throw_helper`'s abort mode (inplace_string.h:18-27) is not modelled; errors are `Result`/`Outcome` values.
- Stream output `operator<<` and `std::hash` are left out because they are thin wrappers over the standard library.
- The C-string overloads that take their length from `traits::length` are left out. So are the `std::string`, view and initializer-list forwarding overloads, the iterator-position `erase` overloads and the SFINAE view templates. They only forward their arguments to the canonical forms that are modelled.
- The iterator-position `insert` overloads (inplace_string.h:540-570) do not compile once instantiated, so they are not modelled. Those at 540-552 return the integer `pos - begin()` as an `iterator`. The one at 565-570 calls `insert(pos, ilist.begin(), ilist.size())`, which matches no overload, and returns the `const_iterator` pos as an `iterator`.
- The iterator-range `append` (inplace_string.h:679-697) has its own distance check and copy loop, but it increments the `const pointer p`, so it does not compile once instantiated; it is not modelled.
- `insert(index, str)` calls a nonexistent `_insert` (inplace_string.h:508), so it is not modelled.
- The iterator-range `insert` calls itself without end (inplace_string.h:558-561), so it is not modelled.
- The view-slice constructor (inplace_string.h:407-414) builds a discarded temporary and leaves the object uninitialised, so it is not modelled.
- `compare(pos1, count1, str, pos2, count2)` passes `count2 - pos2` (inplace_string.h:735-738) and the `compare` template returns a reference built from an `int` (inplace_string.h:776-781); neither is modelled.
- The `insert` view template (inplace_string.h:580-586) uses `index_str` only for the npos count `view.size() - index_str`. It inserts from `view.data()` rather than `view.data() + index_str`, so it is not modelled.
- The iterator-range `replace` (inplace_string.h:826-848) is modelled only by its length check, `ReplaceRangeRejectsAsWritten`, recorded under Findings. Its move and copy are those of the canonical replace, and `set_size(size() + new_bytes)` wraps back to the right size.
- The sanity-check prefill of the buffer with 'a' (inplace_string.h:326-329) is a debug build option and is not modelled.
- Aliasing is not modelled: a `str` argument is a value snapshot, so a pointer into the string's own buffer is not captured.
- Units are unbounded naturals. Only the remaining count in slot N is kept below `unitMax`, and narrowing of characters to CharT is not modelled.
- InplaceStrings.InplaceString.Replace: requires `pos1 + count1 <= size()`; the source checks neither, and positions past the size are undefined behaviour there.
- InplaceStrings.InplaceString.ReplaceFill: requires `pos1 + count1 <= size()` for the same reason.
- InplaceStrings.InplaceString.Compare: requires `pos1 + count1 <= size()`. The source never clamps count1 (inplace_string.h:753-759): it compares `min(count1, count2)` units and breaks the tie on the unclamped count1, so with `pos1 + count2 <= size() < pos1 + count1` it reads only live units yet answers by count1 ("abc".compare(0, npos, "abc", 3) returns 1 where std::string gives 0), and with `pos1 + min(count1, count2) > size()` it reads past the size. Neither case is modelled.
- InplaceStrings.InplaceString.Substr: requires `pos + count <= size()` when count is not npos and fits in N, because the source then copies whatever lies in the buffer past the size; for npos it requires that a pos past the size wraps `size() - pos` above N, since the last N values below 2^64 would make the source read before its buffer.
- InplaceStrings.InplaceString.FindUnit: requires `pos <= size()`; the source computes `size() - pos` unchecked.
- InplaceStrings.InplaceString.FromSuffix: requires that a pos past the end wraps `other.size() - pos` above N; a pos among the last N values below 2^64 wraps to a count that fits, and the source then reads outside other.
- InplaceStrings.InplaceString.FromSlice: requires that a pos past the end gives a clamped count above N, for the same reason.
- InplaceStrings.InplaceString.CopyTo: requires dest to have room for the copied units, which the source cannot check.
- InplaceStrings.InplaceString.Clear: the model only rewrites slot 0 and slot N. The source assigns a default-constructed string, whose other slots are indeterminate.
- InplaceStrings.InplaceString.FromInputRange: the extra element written into slot N before the throw is not observable, because the object is never constructed.
- SmallStrings.FromSuffix: requires that a pos past the end wraps `other.size() - pos` above N, as in the inplace string.
- SmallStrings.FromSlice: requires that the count units exist when `count <= N`, because the source copies them unclamped.
- SmallStrings.SmallString.Init: requires the count units to exist when `count <= N`, because `std::copy` reads them.
- SmallStrings.FromRange: `std::distance` followed by `std::copy` would consume a single-pass range twice; the model takes the elements as a sequence.
- small_string's `front`, `operator[]`, `data` and `c_str` are not modelled. `front` and `operator[]` have the same `return assert(...); _data[i];` shape as `back` (small_string.h:75-81), which returns the void `assert` expression and does not compile once instantiated. `c_str` returns the array without any terminator.
- unit_tests.cpp tests a richer `small_string` than small_string.h, and several of its expectations disagree with that header: `at(6)` throwing (unit_tests.cpp:135) against the bound N at small_string.h:72, `capacity() == 32` (unit_tests.cpp:331-338) against small_string.h:94, and clamping of `(str, 3, npos)` (unit_tests.cpp:33) against small_string.h:50-54. The model follows the header.

## Findings

| source | as written | input that shows it | evidently intended | confidence | as-written member | corrected member |
|---|---|---|---|---|---|---|
| inplace_string.h:491-522 | `insert` moves `count` units from index instead of the tail, writes no terminator and checks no capacity | "abc" with N = 4, `insert(0, "x")` gives "xac\0" | move the tail `[index, size)`, throw out_of_range for `index > size()` and length_error past N, re-terminate | high, not executed | InplaceStrings.InsertAsWrittenLosesTail | InplaceStrings.InplaceString.Insert |
| inplace_string.h:460 | the multi-pass iterator constructor throws when `count >= N` | a range of exactly N elements | throw only when `count > N`, as the other constructors do | high, not executed | InplaceStrings.InplaceString.FromForwardRangeAsWritten | InplaceStrings.InplaceString.FromForwardRange |
| inplace_string.h:759 | compare breaks a tie by `count1 - pos1` against count2 | "abc", `compare(1, 2, "bc", 2)` returns -1 | break the tie by count1 against count2 | high, not executed | InplaceStrings.CompareAsWrittenMisordersSubrange | InplaceStrings.InplaceString.Compare |
| inplace_string.h:1093-1097 | after `Traits::find` moves the cursor, the compare of the whole needle runs without rechecking the remaining length | "ba" with N = 3, `find("a\0", 0, 2)` returns 1 | recheck the remaining length before comparing | high, not executed | Detail.SearchAsWrittenMatchesPastEnd | Detail.SearchSubstring |
| inplace_string.h:664-666 | `append(str, count)` writes the terminator at `sz + count`, then calls `set_size(size() + count)` | an empty string with N = 3, `append("abc", 3)` passes 6 to `set_size` | `set_size(sz + count)`, as `append(count, ch)` does | high, not executed | InplaceStrings.AppendSetSizeAsWrittenOverflows | InplaceStrings.InplaceString.Append |
| inplace_string.h:834-837 | `difference_type` is `std::size_t` (line 74), so `new_bytes = count2 - count1` wraps for a shrinking replace and `new_bytes > 0 && get_remaining_size() < size_type(new_bytes)` throws length_error | "abc" with N = 4, replacing the first two units by the one-unit range "x" throws length_error | a signed difference, as the canonical replace at line 853 uses | high, not executed | InplaceStrings.ReplaceRangeAsWrittenRejectsShrink | InplaceStrings.InplaceString.Replace |
| inplace_string.h:146 | slot N is written through the unsigned type but `size()` reads it as CharT, and the static assertion at line 88 bounds N by the unsigned maximum | an empty `inplace_string<200>` with signed `char` reports size 256 | read slot N as the unsigned type, or bound N by the signed maximum | medium (signed `char` platforms only), not executed | InplaceStrings.SizeAsWrittenMisreadsLargeRemaining | InplaceStrings.InplaceString.Size |
| small_string.h:80-81 | `back()` is `return assert(!empty()); _data[_size];`: it returns the void `assert` expression, which does not compile once `back()` is instantiated, and the index in the dead statement after it is `_size`, one past the last unit | "foobar": the index written names the slot after 'r', where unit_tests.cpp:161 expects 'r'; when the string is full it is past the array | `return assert(!empty()), _data[_size - 1];` | high, not executed | SmallStrings.BackIndexAsWrittenMissesView | SmallStrings.SmallString.Back |
| small_string.h:120 | the size is stored in a `char` | N = 200 and a fill of 128 units with signed `char`: size() returns 2^64 - 128 | a `std::size_t` size field | medium (signed `char` platforms), not executed | SmallStrings.StoredSizeWrapsAt128 | SmallStrings.SmallString.Size |
