# KeyString in Dafny

A model of `KeyString` from `src/lib.rs`: a 64-byte buffer that holds UTF-8
text left-justified and padded with zero bytes, used as a fixed-size key.
The model covers its constructors (`new`, `default`, the truncating
`From<&str>`, the validating `TryFrom<&[u8]>`), the accessors `len`,
`as_bytes`/`as_str` and `raw`, the in-place `push`, the derived equality, the
ordering (`cmp`, `partial_cmp`), and the free function `bytes_to_str` that
recovers text from a zero-padded byte slice.

Layout:

- `utf8.dfy`, module `Utf8`: bytes, the UTF-8 well-formedness predicate
  `ValidUtf8` following the byte-sequence syntax of section 4 of RFC 3629,
  and `FromUtf8`, the model of the standard library's `str::from_utf8`
  (success, or the length of the longest valid prefix).
- `ordering.dfy`, module `Ordering`: the bytewise lexicographic order on byte
  strings that `str::cmp` implements.
- `keystring.dfy`, module `KeyStrings`: `class KeyString` with its 64-byte
  `inner` array; the functions on `seq<byte>` that give each operation its
  meaning (`FirstZero`, `PadTo64`, `PushEffect`, `StripZeros`, ...); the
  methods that copy, scan and write the buffer, proved against those
  functions; lemmas about them; and the findings below.
- `results.dfy`, module `Results`: `Result` and `Option`.

`&str` arguments carry the precondition `ValidUtf8(s)`, the guarantee of the
Rust type. The derived `==` is `RawEq` over all 64 bytes, while `Cmp` orders
the logical slices; the two are kept apart.

Three parts of the crate aim at behaviour the code does not deliver.
- The trimming loop in `from` (src/lib.rs:36-42) looks for a character
  boundary. The comment in `as_str` (src/lib.rs:123) and the panic message of
  `Display` (src/lib.rs:16) both hold that a key is always valid UTF-8. Yet the
  loop never clears the bytes it cuts off.
- `push` is meant to append after the text, but it writes after the last
  zero byte.
- `cmp` orders the logical text, but the derived `==` compares all 64 bytes. The model follows the code (`From`, `Push`, `RawEq`) and states
the intended behaviour separately (`FromTrimmed`, `PushAtLen`, `LogicalEq`);
see "## Findings".

## Model

| member | source | states |
|---|---|---|
| `Utf8.FromUtf8` | src/lib.rs:61-66 | `from_utf8` succeeds exactly on valid UTF-8 and then returns its input; on failure it reports `ValidUpTo` of the input, a valid prefix shorter than the input |
| `Utf8.FromUtf8ErrorMaximal` | src/lib.rs:61-66 | the length a failing `from_utf8` reports is the longest valid prefix: every valid prefix is at most that long |
| `Utf8.ValidUpToMaximal` | src/lib.rs:36-42 | the reported valid length is the longest valid prefix: no longer prefix is valid |
| `Utf8.ValidSplitAtZero` | src/lib.rs:61-63 | a zero byte is always a character boundary, so zero padding never splits a character |
| `Ordering.LexCompare` | src/lib.rs:72-76 | `str` comparison answers `Equal` exactly on equal byte strings |
| `Ordering.LexCompareLess` | src/lib.rs:72-76 | `Less` exactly when the left side is a proper prefix or is smaller at the first differing byte |
| `Ordering.LexCompareAntisymmetric` | src/lib.rs:72-82 | swapping the operands reverses the answer |
| `Ordering.LexCompareTransitive` | src/lib.rs:72-82 | `Less` is transitive |
| `Ordering.LexCompareProperPrefix` | src/lib.rs:72-76 | a text sorts before each of its proper extensions |
| `KeyStrings.FirstZero` | src/lib.rs:92-101 | the count of bytes before the first zero byte: every earlier byte is non-zero and the byte at that index, if any, is zero |
| `KeyStrings.LenIsCapacityIffNoZero` | src/lib.rs:92-101 | the length is at most 64, and is 64 exactly when the buffer holds no zero byte |
| `KeyStrings.PadTo64` | src/lib.rs:31-34 | the copied buffer holds byte `i` of the input for `i < min(len, 64)` and zero everywhere else |
| `KeyStrings.CopyPadded` | src/lib.rs:31-34 | a fresh 64-byte buffer equal to `PadTo64(s)`, with `min` the number of bytes copied, `min(len, 64)`; `try_from` builds its buffer the same way at lines 56-59 |
| `KeyStrings.TrimToCharBoundary` | src/lib.rs:36-42 | the trimming loop stops at the longest valid prefix of the copied bytes (0 at worst) and does not write the buffer |
| `KeyStrings.KeyString.New` | src/lib.rs:86-90 | all 64 bytes are zero |
| `KeyStrings.KeyString.Of` | src/lib.rs:44-46 | the key holds exactly the given 64-byte buffer, without copying it |
| `KeyStrings.KeyString.Default` | src/lib.rs:21-25 | all 64 bytes are zero; the logical content is empty and well-formed |
| `KeyStrings.KeyString.From` | src/lib.rs:28-48 | the buffer is the first `min(len, 64)` bytes of the text followed by zeros; the trimming loop leaves it unchanged |
| `KeyStrings.FromLogicalContent` | src/lib.rs:31-34 | the logical content of `from(s)` is `s` cut at 64 bytes and up to its first zero byte |
| `KeyStrings.FromKeepsShortText` | src/lib.rs:31-34 | text of at most 64 bytes without a zero byte comes back whole from `as_bytes` |
| `KeyStrings.FromAbcBeforeAbd` | src/lib.rs:72-76 | keys built from "abc" and "abd" compare `Less` |
| `KeyStrings.KeyString.TryFrom` | src/lib.rs:55-67 | succeeds exactly when the zero-padded 64-byte buffer is valid UTF-8, with that buffer and a well-formed logical content; otherwise returns the `from_utf8` error |
| `KeyStrings.LogicalOfValid` | src/lib.rs:61-63 | a buffer that passed the whole-buffer check has valid logical content |
| `KeyStrings.TryFromAcceptsValidText` | src/lib.rs:55-67 | on at most 64 bytes, `try_from` succeeds exactly when those bytes are valid UTF-8 |
| `KeyStrings.PaddingKeepsValid` | src/lib.rs:56-61 | zero padding appended to valid text leaves the 64-byte buffer valid, so `try_from` accepts it |
| `KeyStrings.PaddedValidMeansTextValid` | src/lib.rs:56-61 | if the padded buffer is valid UTF-8, the text before the padding is valid too (a zero byte is always a character boundary) |
| `KeyStrings.TryFromIgnoresTail` | src/lib.rs:58-59 | bytes past the 64th do not influence the buffer |
| `KeyStrings.FromAgreesWithTryFrom` | src/lib.rs:31-34 | a text and its zero-padded raw form build the same buffer |
| `KeyStrings.TryFromRawRoundTrip` | src/lib.rs:131-133 | `try_from(k.raw())` rebuilds exactly the same 64 bytes, and succeeds when they are valid |
| `KeyStrings.KeyString.Len` | src/lib.rs:92-101 | the counting loop returns the index of the first zero byte, or 64 |
| `KeyStrings.KeyString.AsBytes` | src/lib.rs:122-129 | the logical slice: a prefix of the buffer with no zero byte, followed in the buffer by a zero byte unless it is 64 bytes long |
| `KeyStrings.KeyString.Raw` | src/lib.rs:131-133 | all 64 bytes of the buffer, padding included, starting with the logical slice |
| `KeyStrings.KeyString.RawRoundTrip` | src/lib.rs:131-133 | `try_from(k.raw())` succeeds exactly when the whole buffer of `k` is valid UTF-8, and then gives a key raw-equal to `k` that compares `Equal` with it |
| `KeyStrings.KeyString.RawEq` | src/lib.rs:3 | the derived equality holds exactly when all 64 bytes agree |
| `KeyStrings.KeyString.Cmp` | src/lib.rs:72-76 | `Equal` exactly when the logical slices are equal, `Less` exactly when lexicographically smaller |
| `KeyStrings.KeyString.PartialCmp` | src/lib.rs:78-82 | always `Some`, holding the answer of `cmp` |
| `KeyStrings.RawEqAndCmp` | src/lib.rs:3 | raw equality implies `cmp` is `Equal`; the converse holds on padded buffers |
| `KeyStrings.KeyString.EndIndex` | src/lib.rs:109-114 | the scan returns one past the index of the last zero byte, 0 when there is none |
| `KeyStrings.LastZeroEnd` | src/lib.rs:109-114 | the value the scan computes: the byte before it, if any, is zero, and no zero byte follows it |
| `KeyStrings.KeyString.WriteFrom` | src/lib.rs:116-118 | the write loop copies the text from the start index and stops exactly when an index would pass byte 63 |
| `KeyStrings.PushEffect` | src/lib.rs:103-118 | `push` as written keeps a 64-byte buffer, never changes a byte before one past the last zero byte, and overruns exactly when it passes the capacity check but that start plus the text length exceeds 64 |
| `KeyStrings.KeyString.Push` | src/lib.rs:103-120 | the new buffer and the out-of-bounds stop are those of `PushEffect`; the logical content never changes |
| `KeyStrings.PushNoChange` | src/lib.rs:103-107 | `push("")` and a `push` over the capacity leave the buffer unchanged and complete normally |
| `KeyStrings.PushWritesAfterLastZero` | src/lib.rs:109-118 | when in bounds, `push` writes the text from one past the last zero byte and changes nothing else |
| `KeyStrings.PushKeepsLogical` | src/lib.rs:109-118 | `push` as written never changes the logical content |
| `KeyStrings.StripZeros` | src/lib.rs:157-188 | inputs of at most one byte give empty text; a successful result has no zero byte and is valid UTF-8 |
| `KeyStrings.LeadingZeros` | src/lib.rs:158-168 | the first loop's `start`: every byte before it is zero and the byte at it, if any, is not |
| `KeyStrings.StripZerosSpan` | src/lib.rs:178-187 | past the guards, the result is `from_utf8` of the bytes from `start` up to the first zero byte after it, or to the end |
| `KeyStrings.FirstZeroOfSuffix` | src/lib.rs:178-185 | the second loop's `stop`: the first zero byte of the input from `start` on sits exactly where the non-zero run ends |
| `KeyStrings.BytesToStr` | src/lib.rs:157-188 | the two scanning loops compute `StripZeros` |
| `KeyStrings.StripZerosOfPaddingOnly` | src/lib.rs:170-176 | an input whose only non-zero byte, if any, is the last one gives empty text |
| `KeyStrings.StripZerosKey` | src/lib.rs:157-188 | `b"\0\0key\0\0\0"` gives "key" |
| `KeyStrings.DisplayRendersLogical` | src/lib.rs:14-18 | on a padded buffer, `Display` decodes exactly the logical slice, and succeeds when it is valid |
| `KeyStrings.CutExampleValid` | src/lib.rs:28-29 | the 65-byte text of the first finding is valid UTF-8 |
| `KeyStrings.FromCutsCharacter` | src/lib.rs:36-46 | `from` on that text leaves a cut character in the logical content, which is not valid UTF-8, and `Display` fails on it |
| `KeyStrings.TrimmedPadValid` | src/lib.rs:36-46 | the intended `from` buffer is valid UTF-8 as a whole |
| `KeyStrings.TrimmedPadWellFormed` | src/lib.rs:36-46 | the intended `from` gives well-formed logical content that is a prefix of the text, and equals `from` on text of at most 64 bytes |
| `KeyStrings.TrimmedPadMaximal` | src/lib.rs:36-42 | the intended `from` keeps the longest valid prefix of the first 64 bytes |
| `KeyStrings.FromTrimmedKeepsAscii` | src/lib.rs:36-46 | the intended `from` cuts the finding's text right before the "é" |
| `KeyStrings.KeyString.FromTrimmed` | src/lib.rs:36-46 | builds the intended buffer and keeps the logical content well-formed |
| `KeyStrings.PushOverrunsPaddedBuffer` | src/lib.rs:109-117 | on a buffer ending in a zero byte, every non-empty `push` that passes the capacity check runs past the buffer without writing |
| `KeyStrings.PushAtLenAppends` | src/lib.rs:103-118 | the intended append adds the logical content of the text to that of a padded buffer, keeps padding and well-formedness, and fills the buffer exactly at 64 bytes |
| `KeyStrings.KeyString.PushAtLen` | src/lib.rs:103-118 | writes the text from the first zero byte when it fits, appending it to the logical content and keeping it well-formed |
| `KeyStrings.EqDisagreesWithCmp` | src/lib.rs:3 | two buffers `try_from` accepts differ in raw bytes while `cmp` calls them `Equal` |
| `KeyStrings.LogicalOfTwoByteText` | src/lib.rs:55-67 | `try_from` of `a`, zero, ASCII byte is accepted and its logical content is `a` |
| `KeyStrings.KeyString.LogicalEq` | src/lib.rs:70-76 | equality on logical slices agrees with `cmp` and is implied by raw equality |

## Left out

- `to_i32`, `to_f32`, `to_i32_checked`, `to_f32_checked` (src/lib.rs:136-151): thin wrappers over the standard library's integer and 32-bit floating-point parsers.
- `Debug` and the formatter plumbing of `Display` (src/lib.rs:8-19): only what `Display` decodes is modelled (`DisplayRendersLogical`); its `expect` panic is the `Err` case of `StripZeros`.
- The derived `Hash` (src/lib.rs:3): hashing machinery.
- `as_str` (src/lib.rs:122-125): it is `AsBytes`; the unchecked UTF-8 cast has no counterpart.
- `add` and its test (src/lib.rs:192-205): a template placeholder.
- Copy semantics: `KeyString` is `Copy` in Rust; here it is a class, so two variables can share one buffer. Aliasing between keys is not modelled.
- FromUtf8: the error carries `valid_up_to` only; `error_len` is not modelled.
- Panics are modelled only where they decide behaviour: the out-of-bounds write of `push` is the `outOfBounds` result of `Push`, with the writes before it kept.

## Findings

| source | as written | input that shows it | evidently intended | confidence | as-written member | corrected member |
|---|---|---|---|---|---|---|
| src/lib.rs:36-46 | the trimming loop only shrinks the local `min`; the copied bytes past it stay in `inner` | 63 bytes `a` followed by "é" (65 bytes): byte 63 keeps the lead byte `0xC3`, `as_bytes` is not UTF-8 and `Display` panics | clear `inner[min..]`, so the logical content is the longest valid prefix that fits, as the UTF-8 invariant stated at src/lib.rs:16 and src/lib.rs:123 requires | high; not executed | `KeyStrings.FromCutsCharacter` | `KeyStrings.KeyString.FromTrimmed` |
| src/lib.rs:109-117 | `end_index` is one past the last zero byte, which is 64 on any buffer ending in padding | "abc" followed by 61 zero bytes, `push("d")`: `len()` is 3, `end_index` is 64, `inner[64]` is out of bounds | write from `len()`, the first zero byte | high; not executed | `KeyStrings.PushOverrunsPaddedBuffer` | `KeyStrings.KeyString.PushAtLen` |
| src/lib.rs:3 | the derived `==` compares all 64 bytes, while `cmp` compares the logical slices; `Ord` requires the two to agree | `try_from(b"a\0b")` and `try_from(b"a\0c")`: `==` is false, `cmp` is `Equal` | equality on the logical slice | medium; not executed | `KeyStrings.EqDisagreesWithCmp` | `KeyStrings.KeyString.LogicalEq` |
