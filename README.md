# StringView: a borrowed byte view that owns its bytes once edited

This project models `StringView` from `src/StringView.h`, a header-only C++ class. A `StringView` is a
pointer and a size over bytes that some other object owns. It can be sliced, compared and searched
without copying anything. It can also be edited. An edit that keeps the length writes straight
into the bytes it views, even when it only borrows them. An edit that changes the length, and any
`substitute`, builds a new buffer that the view owns from then on.

The model is in three files:

- `bytes.dfy` (module `Bytes`): bytes as unsigned values 0..255, the C library routines the class
  calls (`memchr`, `memcmp`, `strlen`), and the reference definitions its operations are specified
  against. `Splice` is prefix + replacement + suffix. `LastIndexBefore` is the backward search.
- `string_view.dfy` (module `StringViews`): the class `StringView`. Its fields are a backing array
  `buf`, an offset `off`, a size `size` and a flag `owned`. The C++ `mData` is `buf` at `off`.
  `owned` means `mData` points into the view's own `mOwned`. `Valid()` says that
  `off + size <= buf.Length`, and that an owned view covers its whole array from offset 0, as
  `mData = mOwned.data(); mSize = mOwned.size()` leave it. `Content()` is `buf[off..off + size]`, read from the array every time,
  so a write through one view is visible to every view over the same array. Constructors and
  `slice` copy no bytes. The equal-length `replace` modifies `buf` in place. The other
  `replace` path and `substitute` allocate a fresh array and set `owned`.
- `scenarios.dfy` (module `Scenarios`): callers that use only the contracts. They show the
  worked examples and that a child slice writes through to its parent. They also show that a
  reallocating edit or a `substitute` leaves the caller's bytes alone.

`size_t` is 64 bits. The not-found result `~0` is `NotFound == 2^64 - 1`. A C string
(`const char*`) is the sequence of its characters before the terminator, so it holds no NUL. A
`std::string` argument is an array holding exactly its bytes. The terminator that `std::string`
keeps after its last byte is not part of that array.

## Model

| member | source | states |
|---|---|---|
| Bytes.MemChr | src/StringView.h:72-87 | memchr: the result is the first position holding the byte, and there is none exactly when the byte does not occur |
| Bytes.MemEq | src/StringView.h:50-53 | memcmp(a, b, n) == 0 holds exactly when the first n bytes of a and b are equal |
| Bytes.Strlen | src/StringView.h:25-27 | strlen: the position of the first NUL at or after the start, with no NUL before it |
| Bytes.StrlenUnique | src/StringView.h:151-153 | a NUL that ends a NUL-free run is the one strlen (and string(mData)) stops at |
| Bytes.Splice | src/StringView.h:125-142 | the replace result has length size - (end - begin) + replSize |
| Bytes.SpliceUndo | src/StringView.h:109-143 | replacing the inserted bytes by the removed ones restores the original content |
| Bytes.SpliceInPlace | src/StringView.h:117-123 | a length-keeping replace changes exactly the bytes in [begin, end) and keeps all others in place |
| Bytes.SpliceParts | src/StringView.h:128-138 | the result of replace is made of the old prefix, the replacement and the old suffix, in that order |
| Bytes.OverwriteStep | src/StringView.h:120 | copying one more byte of the replacement extends the copied part by that byte and changes nothing else |
| Bytes.MemCpy | src/StringView.h:118-121 | memcpy of the replacement at a position: the array becomes the length-keeping splice of its old bytes |
| Bytes.SpliceWithinWindow | src/StringView.h:118-121 | writing through the backing array edits the view's window exactly as splicing the view's content |
| Bytes.LastIndexBefore | src/StringView.h:89-96 | the highest position below from holding the byte, with none between it and from; none exactly when the byte is absent below from |
| Bytes.LastIndexBeforeUnique | src/StringView.h:89-96 | a position holding the byte with no occurrence between it and from is the one the backward search returns |
| StringViews.ReverseFindSignedChar | src/StringView.h:89-96 | reverseFind with the byte read as a signed char: anything it reports is below from and holds the byte |
| StringViews.SignedCharMissesHighBytes | src/StringView.h:91 | with signed char, reverseFind of a byte 0x80 or above never finds anything |
| StringViews.SignedCharAgreesBelow128 | src/StringView.h:89-96 | for bytes below 0x80 the signed comparison gives exactly the intended backward search |
| StringViews.SignedCharCounterexample | src/StringView.h:89-96 | over the one byte 0xE9, the intended search finds position 0 and the signed scan finds nothing |
| StringViews.StringView.FromCString | src/StringView.h:25-27 | borrows the C string that starts at any position of an array: size is its strlen, content is the bytes from that position up to the NUL, mode is borrowed |
| StringViews.StringView.FromString | src/StringView.h:29-31 | borrows all bytes of the string without copying, in borrowed mode |
| StringViews.StringView.Span | src/StringView.h:20-22 | borrows size bytes from the given position, in borrowed mode |
| StringViews.StringView.Slice | src/StringView.h:36-40 | for start <= end <= size: a new borrowed view over the same array at off + start, size end - start, content content[start..end]; the parent is unchanged |
| StringViews.StringView.Size | src/StringView.h:44 | size() is the length of the content |
| StringViews.StringView.At | src/StringView.h:46-48 | operator[] for i < size gives content[i] |
| StringViews.StringView.Equals | src/StringView.h:50-53 | == holds exactly when the two contents are equal, wherever they are stored |
| StringViews.StringView.NotEquals | src/StringView.h:54-56 | != holds exactly when the two contents differ |
| StringViews.StringView.EqualsCString | src/StringView.h:58-67 | the lock-step walk accepts exactly when the C string's characters are the content |
| StringViews.StringView.NotEqualsCString | src/StringView.h:68-70 | != against a C string holds exactly when its characters differ from the content |
| StringViews.StringView.FindWithOffset | src/StringView.h:72-79 | returns true exactly when the byte occurs; then the offset is its first position, otherwise the offset is left as it was |
| StringViews.StringView.Find | src/StringView.h:81-87 | returns the lowest position holding the byte, and NotFound exactly when the byte does not occur |
| StringViews.FindOverloadsAgree | src/StringView.h:72-87 | both find overloads report the same hit or miss, at the same position |
| StringViews.StringView.ReverseFind | src/StringView.h:89-96 | for from <= size: the highest position below from holding the byte; NotFound exactly when it is absent below from, so from == 0 always misses |
| StringViews.ReverseFindIsLastIndexBefore | src/StringView.h:89-96 | any result meeting reverseFind's contract equals the reference backward search, with NotFound for none |
| StringViews.StringView.SubStrEquals | src/StringView.h:97-107 | for begin <= end <= size: true exactly when content[begin..end] is the C string, so false whenever the lengths differ |
| StringViews.StringView.Replace | src/StringView.h:109-143 | content becomes prefix + replacement + suffix and size changes by replSize - (end - begin); ownership is never lost; on equal length, states the whole backing array after the in-place write of [off + begin, off + end) and keeps array, offset and mode; other lengths give a fresh owned array holding exactly the new content and leave the old one untouched |
| StringViews.StringView.OverwriteInPlace | src/StringView.h:117-123 | only the backing array changes: it becomes the old array with the replacement written at off + begin, and the content is the splice of the old content |
| StringViews.StringView.Reassemble | src/StringView.h:125-142 | a fresh array in owned mode at offset 0, exactly as long as the new size, holding prefix + replacement + suffix |
| StringViews.StringView.Substitute | src/StringView.h:145-149 | the content is the argument's bytes, and the fresh array the view owns holds exactly them, so later writes to the argument are not seen |
| StringViews.StringView.StartsWithAsWritten | src/StringView.h:151-153 | StartsWith as written: the prefix test runs on the bytes up to the first NUL at or after the view's start, and a hit means those bytes are in the array |
| StringViews.StringView.StartsWith | src/StringView.h:151-153 | corrected StartsWith: true exactly when the prefix fits in the view and equals its first bytes |
| StringViews.StartsWithAgreesOnTerminatedView | src/StringView.h:151-153 | on a NUL-free view followed by a NUL, the as-written and the corrected StartsWith agree |
| StringViews.StartsWithReadsPastView | src/StringView.h:151-153 | a two-byte view "ab" over "abc" + NUL: as written it starts with "abc", corrected it does not |
| StringViews.StringView.ToString | src/StringView.h:155-157 | a fresh array holding exactly the content |
| Scenarios.SearchBanana | src/StringView.h:81-96 | over "banana", find('a') is 1, reverseFind('a', 6) is 5 and find('z') is NotFound |
| Scenarios.CompareWithCString | src/StringView.h:58-67 | a view of the C string "ab" equals "ab" and does not equal "a" |
| Scenarios.ChildReplaceIsSeenByParent | src/StringView.h:115-123 | an equal-length replace through a slice changes the caller's array and the parent's content |
| Scenarios.GrowingReplaceLeavesSourceAlone | src/StringView.h:125-142 | a growing replace leaves the borrowed array as it was and the view owns a different array |
| Scenarios.SubstituteIsIndependentCopy | src/StringView.h:145-149 | after substitute, writing into the argument does not change the view |
| Scenarios.ToStringRoundTrip | src/StringView.h:29-31 | a view over toString's result equals the original view |

## Left out

- `operator<<` (src/StringView.h:161) is stream output, and only its declaration is in the header.
- `data()` (src/StringView.h:42) returns the raw pointer. The model exposes `buf` and `off` instead.
- Lifetimes are not modelled. A view that outlives the memory it borrows is not modelled. Nor is a
  child slice of an owned view after its parent's `mOwned` is swapped out, freed or reassigned.
  The model keeps every array alive, so these dangling reads do not arise in it.
- The implicit copy of a `StringView` is not modelled. After such a copy, `mData` still points
  into the original's `mOwned`.
- Raw pointer validity becomes preconditions. `At` requires `i < size`, while `operator[]` does no
  bounds check. `ReverseFind` requires `from <= size`, while the loop reads `mData[from - 1]`
  unchecked.
- StringViews.StringView.Replace: the replacement is passed by value. When `replaceWith` points
  into the view's own bytes, the overlapping `memcpy` of the C++ code is undefined. An in-place
  write into a string literal is undefined behaviour too. Neither is modelled.
- StringViews.StringView.Replace: requires the new size to fit a `size_t` and omits the
  `std::length_error` that `reserve` (src/StringView.h:126) throws when the new size exceeds
  `max_size()`. When the `size_t` sum wraps around, the throw comes from the appends at
  src/StringView.h:129-137 instead. Neither throw is modelled.
- `std::string` capacity is not modelled: `reserve`, and the reuse of `mOwned`'s storage by
  `mOwned = buf`. Each reallocating edit gets a fresh array.
- `memcmp` is modelled only as equal or not. The class only ever tests its result against zero.
- `strlen` scanning is modelled through `memchr` for the NUL. The constructor from a C string
  requires a NUL inside the array. `subStrEquals` and `operator==(const char*)` take the C string's
  characters as a NUL-free sequence.
- `slice` of an owned view gives a borrowed view, because the private constructor
  (src/StringView.h:20-22) leaves `mOwned` empty. The model does the same.
- StringViews.StringView.StartsWithAsWritten: the as-written `StartsWith` is modelled only over
  arrays that hold a NUL at or after the view's start: views of C strings and their slices. It is
  not modelled on `FromString` views or on owned views whose bytes hold no NUL. There C++ stops at
  the terminator `std::string` keeps after its bytes, and the model's arrays leave that terminator
  out. The corrected `StartsWith` covers every view; see "## Findings".

## Findings

| source | as written | input that shows it | evidently intended | confidence | as-written member | corrected member |
|---|---|---|---|---|---|---|
| src/StringView.h:91 | `mData[from - i] == c` compares a plain `char` with an `unsigned char` promoted to `int`; where `char` is signed, a stored byte of 0x80 or above reads as a negative value and never equals `c` | a view over the single byte 0xE9: `reverseFind(0xE9, 1)` returns `~0`, while `find(0xE9)` returns 0 | compare bytes as unsigned values, as `memchr` does in `find` | not executed; holds only where plain `char` is signed | StringViews.ReverseFindSignedChar | StringViews.StringView.ReverseFind |
| src/StringView.h:152 | `string(mData)` reads up to the first NUL, not `mSize` bytes | `slice(0, 2)` of a view over "abc": `StartsWith("abc")` returns true although the view is "ab"; on a view with an embedded NUL the test stops early | test the prefix against the view's own `mSize` bytes, since the class is a view on a span of memory (src/StringView.h:11) | not executed | StringViews.StringView.StartsWithAsWritten | StringViews.StringView.StartsWith |
