# Document byte-to-text core, modelled in Dafny

This project models the front end of the `yul` text-document library:

- how a raw byte buffer is classified as `utf8`, `euckr` or `unknown` (`detectEncoding`, `checkBOM`);
- how an EUC-KR/CP949 buffer is converted to UTF-8 (`convertEucKrToUtf8`);
- how `Document::make(std::span<std::byte>)` turns the bytes into the stored text;
- the `Position` and `Range` value types.

Modules:

- `TextEncoding` (`encoding.dfy`) covers `encoding.h` and the classifier in `encoding.cpp`. Bytes are `bv8`, so the lead and continuation masks read exactly as in the C++. `Detect` is the reference definition. The method `DetectEncoding` is the C++ while loop: the index `i` and the flags `isValidUtf8`, `hasUtf8Korean` and `hasEucKrPattern` are its locals. It is proved to return `Detect(data)`.
- `Utf8Layout` (`utf8_layout.dfy`) holds the bit layout from section 3 of RFC 3629, applied to every code point below 0x110000, surrogates included (that section forbids encoding them; the classifier accepts them). It proves that every text encoded with that layout passes the classifier's test. The classifier checks bit layout only, not the full syntax of section 4 of RFC 3629. So the predicate it decides is called `Utf8Shaped`, never "valid UTF-8".
- `Conversion` (`conversion.dfy`) covers the conversion. The operating system's code-page service is the parameter `tryConvert`, of type `Transcoder`. It maps a code page, a mode and the input to UTF-8 bytes, and an empty result means failure. The model fixes the rest: the order of attempts, that the first non-empty result wins, and the ASCII-or-`?` fallback.
- `Documents` (`document.dfy`) covers `make(span)`. It is a total function from bytes to a `Document` holding the text.
- `Positions` (`position.dfy`) and `Ranges` (`range.dfy`) cover the value types. The two assignment operators change an object in place, so they are methods of the class `Ranges.RangeObject`.

The model follows the code in places that are easy to misread:

- A buffer that starts with the byte order mark is classified `utf8` without further scanning. The stored text after the mark is therefore not guaranteed to be UTF-8 shaped (`Documents.MakeUtf8Shape`).
- The UTF-8 test is a layout test only. Overlong leads, encoded surrogates and leads 0xF5–0xF7 pass it (`TextEncoding.LayoutNotFullSyntax`).
- Ranges that merely touch compare `unordered`. Of two separated ranges, the later one compares `less`.
- `document.cpp` writes `Encoding::UTF8`, `Encoding::EUC_KR` and class `Document`. These names do not match `encoding.h` and `document.h`. The model uses the enumerators of `encoding.h` (`Utf8`, `EucKr`, `Unknown`).
- The code has no conversion table or Hangul arithmetic of its own; conversion is entirely the `tryConvert` service.

`size_t` is taken to be 64 bits wide (`Positions.SIZE_MAX`).

## Model

| member | source | states |
|---|---|---|
| `TextEncoding.CheckBOM` | code/document/encoding.h:17-25 | holds iff the buffer has at least 3 bytes and its first three are EF BB BF; false on every shorter buffer, including the empty one |
| `TextEncoding.BomPrefixKept` | code/document/encoding.h:20-24 | only the first three bytes matter: appending bytes to a buffer with the mark keeps the mark |
| `TextEncoding.ScanEnd` | code/document/encoding.cpp:38-92 | the layout scan stops inside `[i, size]`; if it stops before the end, no complete lead/continuation sequence starts there (that it is the first such place is `ScanEndPrefix`) |
| `TextEncoding.ScanEndPrefix` | code/document/encoding.cpp:38-92 | the scan stops at the first failure and reads nothing past it: cutting the buffer anywhere at or after the stop leaves the scan's result unchanged |
| `TextEncoding.ShapedUpToFailure` | code/document/encoding.cpp:38-92 | the bytes before the first layout failure split into complete sequences |
| `TextEncoding.DetectEncoding` | code/document/encoding.cpp:13-123 | the one-pass loop returns exactly `Detect`: unknown for empty input; utf8 on the mark or when the whole buffer is UTF-8 shaped; otherwise euckr iff a KS X 1001 or CP949 pair starts at or after the first layout failure, else unknown. Its invariants tie `isValidUtf8` to the reference scan (while it is true the index is on the scan's path; once false the index is past the first failure) and `hasEucKrPattern` to the pairs seen since that failure. Dafny's own bounds and termination checks show every lookahead is in bounds and the loop ends |
| `TextEncoding.DetectAscii` | code/document/encoding.cpp:31-35 | a buffer of bytes ≤ 0x7F is utf8 when non-empty (unknown when empty) |
| `TextEncoding.DetectBom` | code/document/encoding.cpp:18-19 | any buffer beginning with the mark is utf8, whatever follows |
| `TextEncoding.LayoutNotFullSyntax` | code/document/encoding.cpp:41-87 | overlong C0 80, surrogate ED A0 80 and F5 80 80 80 are all classified utf8 |
| `TextEncoding.Utf8BeatsPairs` | code/document/encoding.cpp:115-120 | utf8 takes precedence: ED 95 9C holds a CP949 pair yet is utf8 |
| `TextEncoding.PairBeforeFailureIgnored` | code/document/encoding.cpp:95-108 | a pair inside the well-shaped prefix does not count: ED 95 9C 80 is unknown |
| `TextEncoding.TruncatedTailTestedForPairs` | code/document/encoding.cpp:54-61 | a sequence truncated at the end is tested as a pair: 41 EA B0 is euckr |
| `TextEncoding.HangulPairDetected` | code/document/encoding.cpp:101-108 | the EUC-KR bytes B0 A1 are classified euckr |
| `Utf8Layout.EncodedCodePointShaped` | code/document/encoding.cpp:38-92 | the RFC 3629 bit-layout encoding of any code point, surrogates included, is one complete sequence for the classifier |
| `Utf8Layout.ShapedConcat` | code/document/encoding.cpp:26-112 | the concatenation of two UTF-8 shaped buffers is UTF-8 shaped |
| `Utf8Layout.EncodedTextShaped` | code/document/encoding.cpp:38-92 | every text encoded with the RFC 3629 bit layout (surrogates included) is UTF-8 shaped |
| `Utf8Layout.DetectEncodedText` | code/document/encoding.cpp:115-116 | every non-empty text encoded with the RFC 3629 bit layout is classified utf8 |
| `Utf8Layout.EncodedTextBom` | code/document/encoding.h:20-24 | an encoded text starts with the mark iff its first code point is U+FEFF |
| `Conversion.Fallback` | code/document/encoding.cpp:177-186 | the fallback has the input's length; byte k is input byte k if below 0x80, else `?` |
| `Conversion.FallbackIsAscii` | code/document/encoding.cpp:180-184 | every fallback byte is ASCII, each non-ASCII byte becomes `?`, and ASCII input is returned unchanged |
| `Conversion.FirstNonEmpty` | code/document/encoding.cpp:163-174 | a found result is non-empty; nothing is found iff every attempt returned empty |
| `Conversion.FirstNonEmptyAt` | code/document/encoding.cpp:163-174 | if attempt k is non-empty and all earlier ones are empty, attempt k's output is the result |
| `Conversion.ConvertNeverEmpty` | code/document/encoding.cpp:129-130 | the output is empty iff the input is: conversion never fails |
| `Conversion.ConvertAttemptOrder` | code/document/encoding.cpp:161-186 | for non-empty input the result is the output of the first non-empty attempt in the order (51949 strict), (949 strict), (51949 lenient), (949 lenient), or the fallback when all four are empty |
| `Conversion.UnmappableInputFallsBack` | code/document/encoding.cpp:176-186 | input that no attempt can map converts to the ASCII-or-`?` fallback |
| `Conversion.ConvertEucKrToUtf8` | code/document/encoding.cpp:127-186 | the two code-page loops with early return and the `push_back` loop compute exactly `Convert` |
| `Documents.Make` | code/document/document.cpp:27-62 | for every buffer a document is produced; outside euckr, the input is the stored text with at most a leading mark in front; for euckr the text is the conversion's output |
| `Documents.MakeEmpty` | code/document/document.cpp:52-58 | empty input is detected unknown and gives empty text |
| `Documents.MakeTextEmptyIff` | code/document/document.cpp:34-58 | the text is empty iff the input is empty or is the mark alone |
| `Documents.MakeUnknownVerbatim` | code/document/document.cpp:52-58 | unknown input is stored verbatim |
| `Documents.MakeAsciiUnchanged` | code/document/document.cpp:34-45 | ASCII input is stored unchanged |
| `Documents.MakeEncodedText` | code/document/document.cpp:34-45 | for any text encoded with the RFC 3629 bit layout, the stored text is that encoding minus a leading U+FEFF: the mark is stripped, nothing else changes |
| `Documents.MakeUtf8Shape` | code/document/document.cpp:37-45 | mark-less utf8 text is UTF-8 shaped; behind a mark it need not be (EF BB BF FF stores FF) |
| `Positions.Compare` | code/document/position.h:14 | the comparison is lexicographic: less/greater agree with the packed key line·2^64+character, and equal iff both fields are equal |
| `Positions.CompareTotal` | code/document/position.h:14 | the order is total and strict: exactly one of `<`, `==`, `>` holds, and `a < b` iff `b > a` |
| `Positions.LtTransitive` | code/document/position.h:14 | `<` is transitive |
| `Positions.LeTransitive` | code/document/position.h:14 | `<=` is transitive |
| `Positions.DefaultIsGreatest` | code/document/position.h:11-12 | the default (max_line, max_character) position is the greatest |
| `Positions.DeclaredChecks` | code/document/position.h:18-20 | (5,1) > (4,1), (5,1) < (5,2), (5,2) == (5,2) |
| `Ranges.Make` | code/document/range.h:20-24 | after construction begin ≤ end, and the endpoints are the two arguments |
| `Ranges.FromCoordinates` | code/document/range.h:26-29 | the same for the four-coordinate constructor |
| `Ranges.MakeSymmetric` | code/document/range.h:20-24 | constructing from swapped arguments gives the same range; ordered arguments are kept as given |
| `Ranges.ResetIsSentinel` | code/document/range.h:42 | `Range{{},{}}` has both endpoints at the max sentinel and contains no position |
| `Ranges.Equals` | code/document/range.h:46-49 | `==` holds iff the ranges are identical |
| `Ranges.Compare` | code/document/range.h:51-60 | for constructed ranges: equivalent iff identical; unordered iff distinct and overlapping or touching |
| `Ranges.CompareConverse` | code/document/range.h:53-56 | `a <=> b` is less iff `b <=> a` is greater; equivalent and unordered are symmetric |
| `Ranges.LessSeparates` | code/document/range.h:53-54 | if `a <=> b` is less, every position of `b` precedes every position of `a` |
| `Ranges.LessTransitive` | code/document/range.h:53-54 | less is transitive |
| `Ranges.CompareExamples` | code/document/range.h:51-60 | the later range compares less; [0,5) vs [3,8) and [0,5) vs [5,8) are unordered; reversed construction normalises; `Range{5,2,5,5} == Range{5,2,5,5}` |
| `Ranges.In` | code/document/range.h:62-65 | `in(pos, inc)` iff pos lies in the interval [begin, end), or [begin, end] when `inc` |
| `Ranges.EmptyRangeHoldsNothing` | code/document/range.h:62-65 | an empty range contains nothing when `inc` is false, and only its one position when true |
| `Ranges.Contains` | code/document/range.h:67-70 | when both endpoints of `other` are in, every position of `other` is in |
| `Ranges.Intersect` | code/document/range.h:72-75 | if exactly one endpoint of `other` is in, `r` does not contain `other` and the two are not separated (`other` may still contain `r`) |
| `Ranges.IntersectExamples` | code/document/range.h:72-75 | `intersect` is not symmetric ([0,5)/[5,8)); a nested range does not intersect; [0,5) intersects [0,10) although [0,10) contains it |
| `Ranges.MoveAssignAsWritten` | code/document/range.h:38-44 | the move operator as written, unfolded to a bounded call depth: each call copies `source` and re-enters itself on `source` with the temporary `Range{{},{}}`; if it ever returned, `target` would hold `source`'s old value and `source` the reset range; None when the depth runs out |
| `Ranges.MoveAssignAsWrittenNeverReturns` | code/document/range.h:38-44 | the move operator as written needs more nested calls than any bound allows |
| `Ranges.RangeObject.constructor` | code/document/range.h:20-24 | a new object holds the normalised range |
| `Ranges.RangeObject.CopyAssign` | code/document/range.h:31-36 | this takes other's endpoints |
| `Ranges.RangeObject.MoveAssign` | code/document/range.h:38-44 | this takes other's old endpoints (unless both are one object) and other becomes `Range{{},{}}` |

## Findings

| source | as written | input that shows it | evidently intended | confidence | as-written member | corrected member |
|---|---|---|---|---|---|---|
| code/document/range.h:42 | `other = Range{ {}, {} };` assigns a temporary, which is an rvalue. So it calls the move `operator=` again, on `other`. That call again assigns a new temporary, and so on without end | any move assignment, e.g. `a = std::move(b)`, or any assignment from a temporary, e.g. `a = Range{1, 0, 2, 0}` | copy `other` into `this`, then reset `other` to `Range{{},{}}` by plain copy assignment | high; not executed | `Ranges.MoveAssignAsWritten`, `Ranges.MoveAssignAsWrittenNeverReturns` | `Ranges.RangeObject.MoveAssign` |

## Left out

- `Document::make(fs::path)` (code/document/document.cpp:9-25) is left out: it checks that the file exists, opens it and reads it, which is filesystem I/O.
- The internals of `tryConvert` (code/document/encoding.cpp:135-158) are left out. They call Windows code-page tables. Here they are the parameter `tryConvert`, which may return anything.
- The `TextDocument` query API (`build`, `positionAt`, `offsetAt`, `getText`, `getLine`, `lineLength`, code/document/document.h:24-53) is left out. Only declarations exist, so the line index has no body to model.
- The console printer in code/example/main.cpp is not part of this model.
- `unique_ptr` ownership and the `path_` provenance field are left out. They are not behaviour.
- `hasUtf8Korean` is set in `DetectEncoding` but never read. The method's postcondition `e == Detect(data)` does not mention it, so it cannot affect the result.
- Ranges.MoveAssignAsWritten does not model the stack overflow itself. It models the unbounded nesting, as a bound on call depth that is never enough. It does not model aliasing.
- Ranges.Compare characterises `equivalent` and `unordered` only for normalised ranges. Every constructor and assignment produces a normalised range.
