# tr byte-rewriting engine, modelled in Dafny

This project models the transformation engine of `dark-enstein/tr`
(`pkg/r/r.go`), a `tr`-style byte rewriter. The engine is the struct `R`.
Its methods rewrite `RawBytes`, `From`, `To` and `DestString` in place. Its
single entry point `Churn` picks exactly one of these operations:

- delete, of a literal substring or of a POSIX class;
- squeeze;
- single-byte replace, where one byte becomes the whole `To`;
- range translate, such as `a-c` to `x-z`, after range and class resolution;
- literal substring replace.

The project has six modules, one per file:

- `Bytes` (`bytes.dfy`): the byte type, ASCII literals, occurrence counts, the
  `Result` type and `ByteSliceEqual`.
- `Ranges` (`ranges.dfy`):
  - the shape tests on an operand;
  - the POSIX bracket table;
  - `valRegexRange`;
  - the class step of `ResolveRegexArg`;
  - `resolveRange`, written as a method whose loop is proved against the
    function `Resolved`.
- `Translate` (`translate.dfy`): the functions that specify the three
  translate modes (`ReplaceByte`, `Subst`, and `Transliterate` built from
  `Chain`), with their laws.
- `Deletion` (`deletion.dfy`): the functions that specify the two delete
  paths (`Keep`, and `DeleteAt`/`DeleteLiteral`), with their laws.
- `Engine` (`engine.dfy`):
  - the class `R`, whose fields are the struct's fields;
  - a method for every operation, with the source's loops, each proved to
    leave `Snapshot()` equal to an outcome function of the old snapshot;
  - the dispatch laws of `Churn`.
- `Examples` (`examples.dfy`): concrete runs, including a row of the test
  table in `pkg/r/r_test.go`.

Modelling choices:

- A byte is an `int` in 0..255.
- A Go panic, such as an index out of range, becomes a precondition of the
  method that would panic. So does a loop that never ends.
- `resolveRange` expands each code point with Go's `[]byte(string(rune(v)))`.
  For a value from 0x80 up that gives the two-byte UTF-8 encoding, and the
  model keeps that encoding. The ASCII laws carry an ASCII hypothesis.
- The goroutine per byte in `RangeMutate` becomes an ordinary loop over the
  indices.

Places where the code does not do what a reader of its comments, or of a
`tr`-style description, would expect, modelled as the code does it:

- Literal delete uses a strict `len(DelString) < len(RawBytes[i:])` (r.go:363).
  So a match that ends at the last byte is never removed. Deleting `ab` from
  `ababab` gives `ab`, not the empty string (`Examples.DeleteKeepsFinalMatch`).
- After a removal the cursor advances by the length of the empty
  package-level `DelString` (r.go:26, 368), so it stays put. The bytes that
  slide under it are examined next (`Examples.DeleteRescansAfterRemoval`).
- RangeMutate's inner `j` loop keeps comparing after a rewrite, so mappings
  chain. `a-c` onto `b-d` sends `abc` to `ddd` (`Examples.RangeChaining`).
  The mapping is positional only when the target range starts at or below the
  search range, or lies wholly above it (`Translate.AsciiRangeMapping`).
- `resolveRange` joins its two format checks with `&&` (r.go:267):
  - it rejects only a token that is not three bytes long and has no hyphen in
    second place;
  - it never looks at the middle byte of a three-byte token.
- `valRegexRange` accepts a hyphen in any position.
- When range resolution or the length check fails, `DestString` keeps
  whatever it held before. It is not cleared.
- Squeeze stores nothing, so an enabled squeeze flag leaves every field but
  the initial copy of `RawString` as it was.
- The code has no check that rejects conflicting delete and squeeze flags.
  `Action` holds a single value, and Churn checks for delete first.
- An unknown class in `Delete`'s class path is not an error. `From` keeps its
  value and is handed to `resolveRange`, which needs it to be indexable.

## Model

| member | source | states |
|---|---|---|
| Bytes.ByteSliceEqual | pkg/r/r.go:297-307 | the verdict is true exactly when the two slices are equal |
| Ranges.ResolveRange | pkg/r/r.go:265-280 | the loop computes `Resolved`: a token is rejected exactly when it is not three bytes long and its second byte is not `-`; otherwise the result is the encodings of b[0]..b[2] (b[0] alone when b[2] <= b[0]); a three-byte token always resolves |
| Ranges.Span | pkg/r/r.go:271-278 | the expansion is never empty and starts with the encoding of the first code point |
| Ranges.SpanCovers | pkg/r/r.go:271-278 | every code point of lo..hi contributes at least one byte |
| Ranges.SpanAscending | pkg/r/r.go:271-278 | over ASCII the expansion is exactly the ascending bytes lo..hi, hi - lo + 1 of them |
| Ranges.ResolveToken | pkg/r/r.go:265-280 | a three-byte ASCII token resolves, to b[0]..b[2] ascending of length b[2] - b[0] + 1 when b[2] >= b[0], and to [b[0]] when b[2] < b[0] |
| Ranges.ValidRangeResolves | pkg/r/r.go:285-293 | a token that passes valRegexRange resolves without error, and to at least two bytes |
| Ranges.ShapeNeedsColon | pkg/r/r.go:82-83 | a class-shaped operand contains a colon, so the `Contains(b, ":")` test in front of the split test never decides the outcome |
| Ranges.CountColons | pkg/r/r.go:22-25 | both table keys have exactly two colons, so they are class-shaped |
| Ranges.PosixClassesResolve | pkg/r/r.go:22-25 | the table entries resolve to the 26 upper-case and the 26 lower-case letters, in order |
| Translate.ReplaceBytePiecewise | pkg/r/r.go:105-115 | single-byte replace works byte by byte: the image of a concatenation is the concatenation of the images, so inserted bytes are never rescanned and other bytes keep their order |
| Translate.ReplaceByteLength | pkg/r/r.go:105-115 | the output length is the input length plus count(From[0]) times (len(To) - 1) |
| Translate.ReplaceByteAbsent | pkg/r/r.go:105-115 | an input without From[0] is unchanged |
| Translate.ReplaceByteSingle | pkg/r/r.go:105-115 | with a one-byte To, length is kept, each From[0] becomes To[0] and every other byte stays; replacing a byte by itself is the identity |
| Translate.SubstLength | pkg/r/r.go:119-136 | the output length is the input length plus the number of leftmost non-overlapping matches times (len(To) - len(From)) |
| Translate.MatchesIffOccurs | pkg/r/r.go:119-136 | the scan finds no match exactly when From occurs nowhere in the input |
| Translate.SubstAbsent | pkg/r/r.go:119-136 | an input with no occurrence of From is unchanged |
| Translate.SubstIdentity | pkg/r/r.go:119-136 | replacing From by itself is the identity |
| Translate.ChainSkip | pkg/r/r.go:245-257 | positions of From that do not hold the current value leave it alone |
| Translate.ChainOutside | pkg/r/r.go:245-257 | a byte not in From is unchanged |
| Translate.ChainIdentity | pkg/r/r.go:245-257 | mapping a range onto itself leaves every byte unchanged |
| Translate.ChainPositional | pkg/r/r.go:245-257 | when From has no repeats and no To[a] equals a later From[b], From[j] becomes To[j] |
| Translate.TransliterateLaws | pkg/r/r.go:243-259 | the mapping keeps the length, keeps every byte outside From, and is the identity when From = To |
| Translate.AsciiRangeMapping | pkg/r/r.go:243-259 | for equal-length ASCII ranges whose target starts at or below the search range, or lies wholly above it, lo + j becomes lo2 + j and all other bytes stay |
| Deletion.KeepOrder | pkg/r/r.go:380-397 | DeleteOne keeps, in increasing order, exactly the positions whose byte is not in the range |
| Deletion.KeepCounts | pkg/r/r.go:380-397 | no member byte survives, and every other byte value survives as often as it occurred |
| Deletion.KeepLength | pkg/r/r.go:380-397 | the output length is the input length minus the number of member bytes |
| Deletion.DeleteLength | pkg/r/r.go:361-372 | the literal path removes some number k of whole copies: the output length is the input length minus k times len(DelString) |
| Deletion.DeleteKeepsLast | pkg/r/r.go:361-372 | the last input byte is never removed, so it also ends the output |
| Deletion.DeleteNoMatch | pkg/r/r.go:361-372 | with no removable match from the cursor on, nothing changes |
| Deletion.DeleteShrinks | pkg/r/r.go:361-372 | with a removable match from the cursor on, the output is strictly shorter |
| Deletion.DeleteThreeCopies | pkg/r/r.go:361-372 | of three back-to-back copies of the delete string, the literal path removes the first two and keeps the last, which ends at the last byte |
| Deletion.DeleteRescan | pkg/r/r.go:361-372 | two copies of the delete string in front of a non-empty tail no longer than it are both removed: after a removal the cursor stays put |
| Deletion.DeleteUnchangedIff | pkg/r/r.go:361-372 | the literal path leaves the input unchanged exactly when the delete string occurs nowhere except, possibly, as a match ending at the last byte |
| Engine.TableEntriesIndexable | pkg/r/r.go:22-25 | every table entry is range-shaped and can be handed to resolveRange |
| Engine.ClassLetters | pkg/r/r.go:22-25 | a byte is in the resolved entry of a class exactly when it is one of that class's 26 letters |
| Engine.ChurnRangeRoute | pkg/r/r.go:81-91 | for a range- or class-shaped From: an unknown class is rejected; on rejection RawBytes and DestString are as Churn found them; on acceptance ReplaceRange is always reached, both operands resolve to at least two bytes, and the text is translated exactly when the resolved lengths agree |
| Engine.ChurnIdentity | pkg/r/r.go:81-97 | From = To leaves the text unchanged in single-byte, substring and accepted range mode |
| Engine.ChurnDeleteOnly | pkg/r/r.go:71-75 | an enabled delete flag runs Delete alone: To is untouched and DestString is the new RawBytes; a known class removes exactly its letters and keeps every other byte as often as it occurred; a literal delete string gives the literal path's result |
| Engine.R.constructor | pkg/r/r.go:30-46 | the fields hold the values main.go supplies, and DestString starts empty |
| Engine.R.Churn | pkg/r/r.go:62-98 | the new state is `ChurnOutcome`: RawBytes is filled from RawString when empty; then exactly one of delete, squeeze (no change), range translate (through ResolveRegexArg), substring replace and single-byte replace runs, chosen by the flag and by the shape of From |
| Engine.R.Replace | pkg/r/r.go:105-115 | the in-place splice loop leaves RawBytes and DestString equal to the byte-by-byte replacement `ReplaceByte` of the old RawBytes |
| Engine.R.ReplaceSlice | pkg/r/r.go:119-136 | the buffer loop leaves RawBytes and DestString equal to the leftmost non-overlapping substitution `Subst` of the old RawBytes |
| Engine.R.ReplaceRange | pkg/r/r.go:139-165 | From and To become their resolved bytes, or the empty sequence on a resolution error, which ends the call; DestString is set only when RangeMutate accepts |
| Engine.R.RangeMutate | pkg/r/r.go:211-261 | returns 1 and changes nothing when either range has one position or their lengths differ; otherwise returns 0 and runs every byte through the continuing j loop (`Chain`) |
| Engine.R.ResolveRegexArg | pkg/r/r.go:312-343 | returns 0 exactly when every class-shaped operand is a table key and both looked-up operands pass valRegexRange; a class-shaped operand becomes its table entry, or the empty sequence when unknown |
| Engine.R.Delete | pkg/r/r.go:347-376 | a class-shaped delete string sets From to its table entry when known and runs DeleteRange; any other is spliced out in place by the literal loop; DestString becomes RawBytes |
| Engine.R.DeleteRange | pkg/r/r.go:168-181 | From becomes its resolved bytes and DeleteOne runs; on a resolution error From becomes empty and RawBytes is unchanged |
| Engine.R.DeleteOne | pkg/r/r.go:380-397 | RawBytes becomes `Keep`: the bytes that match no byte of From, in order |
| Examples.ReplaceTableBytes | pkg/r/r_test.go:20 | every 'i' of "kiViviPig" becomes 'W', giving "kWVWvWPWg" |
| Examples.ReplaceTableRow | pkg/r/r_test.go:20 | the same row run through Churn with From "i" and To "W" yields DestString "kWVWvWPWg" |
| Examples.LowerRangesAccepted | pkg/r/r.go:312-343 | `a-c` and `x-z` are accepted, and are not classes |
| Examples.RangeTranslationBytes | pkg/r/r.go:243-259 | the mapping of a..c onto x..z sends "abc123" to "xyz123" |
| Examples.RangeTranslation | pkg/r/r.go:62-98 | Churn with `a-c` onto `x-z` turns "abc123" into "xyz123" |
| Examples.OverlappingRangesAccepted | pkg/r/r.go:312-343 | `a-c` and `b-d` are accepted, and are not classes |
| Examples.RangeChainingBytes | pkg/r/r.go:245-257 | the continuing j loop sends all of "abc" to "ddd" for a..c onto b..d |
| Examples.RangeChaining | pkg/r/r.go:62-98 | Churn with `a-c` onto `b-d` turns "abc" into "ddd" |
| Examples.ResolveIgnoresMiddle | pkg/r/r.go:267 | "a+c" resolves to "abc", and "ab" is rejected |
| Examples.HyphenAnywhere | pkg/r/r.go:285-293 | "-az" passes valRegexRange; "z-a" and "abc" do not |
| Examples.DeleteKeepsFinalMatchBytes | pkg/r/r.go:361-372 | the literal path turns "ababab" minus "ab" into "ab" |
| Examples.DeleteKeepsFinalMatch | pkg/r/r.go:71-75 | Churn with delete flag "ab" turns "ababab" into "ab" |
| Examples.DeleteRescansAfterRemoval | pkg/r/r.go:368 | the cursor stays put after a removal: "ababx" minus "ab" is "x" |
| Examples.DeleteLastByteStays | pkg/r/r.go:363 | "ab" minus "b" is "ab": the only match ends at the last byte |
| Examples.DeleteUpperClass | pkg/r/r.go:347-360 | Churn with delete flag `[:upper:]` turns "aBc" into "ac" |

## Left out

- I/O and command-line handling (main.go) are not part of this model. The fields of `R` and the `Flags` record, including `FlagEnabled` and `Action`, are inputs.
- Engine.R.RangeMutate: the source starts one goroutine per byte, writes under a mutex, and does not wait before ReplaceRange copies RawBytes into DestString (r.go:158-163, 243-259). The model runs the per-byte body to completion for every index, in order. It does not capture a DestString taken while goroutines are still running.
- Engine.R.RangeMutate: the `j > len(To)` branch (r.go:247-250) is left out. It cannot be taken, because j < len(From) = len(To) there.
- `legacyRangeMutate` (r.go:188-206) is left out: its only call is commented out.
- `context` and cancel plumbing (r.go:63-64, 140-141, 158-160, 169-170, 240) are left out: they do not affect the bytes.
- All `log` and `fmt` output is left out (for example r.go:66, 313-316, 374). The one place where a log line constrains the input is `Engine.MutateLoggable`: the length-mismatch message of RangeMutate indexes the first byte of both ranges.
- Engine.R.Churn: Squeeze and endRepeated (r.go:401-434) are not modelled. Squeeze builds a local buffer and never stores it, so a squeeze that returns changes no field of `R`, and that is all `ChurnOutcome` records. Squeeze can also loop forever or index out of range, and the model does not capture that.
- Engine.R.Replace: Go's `append(r.To, ...)` (r.go:108) may write into the spare capacity of `To`'s backing array. Slices are values in this model, so that aliasing is not captured.
- Go panics on an index out of range, and the two loops that never end, are preconditions and are not modelled as behaviour:
  - `Ranges.Indexable` covers the indexing of resolveRange.
  - `Engine.R.Replace` requires a non-empty From on non-empty input.
  - `Engine.R.ReplaceSlice` requires a non-empty From, without which it loops forever.
  - `Engine.DeleteReady` requires that an unknown delete class leaves an indexable From, and that an empty literal delete string meets only empty input, without which the loop never ends.
- `Result` errors do not carry the source's message text.
