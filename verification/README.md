# DNS question reader, modelled in Dafny

This project models the question-section reader of the `dnsparse` crate
(`dnsparse/src/question.rs`). The reader has four parts:

- the scanner `read_question` / `read_label` / `read_query_class_and_kind`. It steps a
  cursor over one question record, which is an encoded name followed by a 2-byte type
  and a 2-byte class. It does not follow compression pointers.
- the views `Question` and `QuestionName`. They are a buffer plus offsets.
- the name traversals `Display::fmt` and `PartialEq<&str>::eq`. They walk the label
  chain and follow compression pointers (section 4.1.4 of RFC 1035).
- the iterator `Questions::next`. It yields `question_count` views back to back.

Modules, one per part of the source:

- `Wrappers`: `Option` and `Result`.
- `Wire`: the descriptor byte (`is_pointer`, `mask_len`), the 14-bit pointer offset,
  big-endian `u16` fields and ASCII case folding.
- `Scanner`: `read_label`, `read_query_class_and_kind` and `read_question`, as functions.
  `read_question`'s loop is also written as a method with a mutable cursor.
- `Record`: an encoder for well-formed question records. The scanner is checked against
  it in both directions. The scanner accepts exactly the encodings of well-formed records
  and stops exactly at their end.
- `Names`: the label chain a name resolves to (`Labels`). It holds `Display` as written
  (`RenderAsWritten`), `Display` with the separator fixed (`Render`) and `eq` (`EqFrom`, `Eq`).
- `QuestionViews`: `Question::{name, kind, class, as_bytes}`, `Questions::next`, and
  running the iterator to its end (`Collect`).

Modelling choices:

- Bytes are integers in `0..256` and `u16` values are integers in `0..65536`.
- Rust's `&mut usize` cursor becomes a returned offset.
- The source indexes the buffer unchecked while traversing a name and follows pointers
  without bound. The model has two explicit errors instead:
  - `OutOfBounds` stands for a read past the buffer. The source panics there.
  - `JumpLimit` stands for running out of `fuel`, the number of pointer jumps a traversal
    may make. On a pointer cycle the source never stops (`SelfPointerNeverResolves`).
- The `assert!` in `Questions::next` aborts the program when the scan fails. The model
  makes this an explicit `Abort` outcome of a step.

## Model

| member | source | states |
|---|---|---|
| Wire.DescriptorClassification | dnsparse/src/question.rs:33-39 | the tag is `len >> 6` and the length is `len & 0x3F`; a byte is a pointer exactly when it is 0xC0 or more |
| Wire.MaskLen | dnsparse/src/question.rs:37-39 | a label length read from a descriptor is at most 63, whatever the tag bits |
| Wire.Target | dnsparse/src/question.rs:51 | a pointer target is below 0x4000 |
| Wire.TargetIsLow14Bits | dnsparse/src/question.rs:51 | the target `(mask_len(hi) << 8) + lo` equals the big-endian value of `hi lo` with its top two bits cleared, which for a pointer byte `hi` is that value minus 0xC000 |
| Wire.BigEndian16 | dnsparse/src/question.rs:127 | `u16::from_be_bytes` puts the first byte in the high half and the second in the low half |
| Wire.BigEndianRoundTrip | dnsparse/src/question.rs:127 | reading back the two big-endian bytes of a 16-bit value gives the value |
| Wire.ToLower | dnsparse/src/question.rs:106 | ASCII lower-casing changes only `A`..`Z`, each into its lower-case letter |
| Wire.DotFoldsOnlyFromDot | dnsparse/src/question.rs:95-101 | no byte other than `.` matches `.` ignoring case, so the separator must be written literally |
| Scanner.ReadLabel | dnsparse/src/question.rs:160-179 | fails exactly when the cursor is past the end, or on a pointer without two more bytes after the cursor; a pointer ends the name and steps 2 bytes; any other byte steps over `1 + len & 0x3F` bytes and ends the name iff that length is 0 |
| Record.ReadTailIffFields | dnsparse/src/question.rs:182-189 | `read_query_class_and_kind` succeeds exactly when a 2-byte type field and a 2-byte class field are encoded at the cursor, and then steps over exactly those two fields |
| Scanner.ReadQuestion | dnsparse/src/question.rs:149-157 | on success, the record is at least the terminal byte plus the 4-byte tail long and ends inside the buffer |
| Scanner.ScanQuestion | dnsparse/src/question.rs:149-157 | the cursor loop succeeds exactly when `ReadQuestion` does, and stops at the same offset |
| Scanner.ReadLabelExact | dnsparse/src/question.rs:164-170 | with the bound `i + 2 <= len`, a pointer is rejected only when its second byte is missing |
| Scanner.PointerBoundUnobservable | dnsparse/src/question.rs:164-170 | `read_question` gives the same result with the source's bound `i + 2 < len` as with the exact bound |
| Scanner.PointerAtBufferEndRejected | dnsparse/src/question.rs:165 | a pointer whose two bytes end the buffer is rejected by `read_label`, though both bytes are present |
| Record.ScanEncodedName | dnsparse/src/question.rs:149-179 | encoded name followed by a 4-byte tail: the scanner steps over exactly the name and the tail |
| Record.ScanRecordAt | dnsparse/src/question.rs:149-189 | round trip, encoder then scanner: a well-formed record is scanned to exactly its end |
| Record.ScanEncodedRecord | dnsparse/src/question.rs:149-189 | the same, with arbitrary bytes before and after the record |
| Record.ScannedNameIsEncoding | dnsparse/src/question.rs:149-179 | round trip, scanner then encoder: what the scanner steps over is a well-formed encoded name followed by the tail |
| Record.ScannedRecordIsEncoding | dnsparse/src/question.rs:149-189 | the bytes the scanner steps over are the encoding of a well-formed record |
| Record.ScanSucceedsIffRecord | dnsparse/src/question.rs:149-189 | the scanner succeeds at an offset exactly when a well-formed record is encoded there |
| Record.ReservedTagReadAsLength | dnsparse/src/question.rs:171-174 | the reserved tag `01` is not rejected: descriptor 0x41 introduces a 1-byte label |
| Names.EntryAt | dnsparse/src/question.rs:46-57 | a byte that is neither a pointer nor the zero length introduces a label of 1 to 63 bytes |
| Names.Labels | dnsparse/src/question.rs:41-72 | every label of a resolved chain has 1 to 63 bytes |
| Names.RenderFromMatchesLabels | dnsparse/src/question.rs:41-72 | the corrected rendering is the resolved labels joined by dots, and fails exactly as resolution fails |
| Names.RenderMatchesLabels | dnsparse/src/question.rs:41-72 | the corrected `Display` (`Render`) of a name succeeds iff the name resolves, and then prints its labels joined by single dots |
| Names.EqFromMatchesJoin | dnsparse/src/question.rs:74-116 | for a resolvable name, `eq` from any string offset answers whether the rest of the string is the (dotted) label text ignoring ASCII case |
| Names.EqTrueResolves | dnsparse/src/question.rs:74-116 | `eq` answers `true` only for a name that resolves |
| Names.EqIffDottedForm | dnsparse/src/question.rs:74-116 | `eq` is true exactly when the name resolves and the string is its labels joined by single dots, no trailing dot, ignoring ASCII case; for a resolvable name `eq` never fails |
| Names.EqOwnRendering | dnsparse/src/question.rs:41-116 | a resolvable name compares equal, under `eq`, to the text of its corrected `Display` (`Render`) |
| Names.LabelsFuelMonotone | dnsparse/src/question.rs:50-53 | allowing more jumps never changes a resolved chain |
| Names.SelfPointerNeverResolves | dnsparse/src/question.rs:50-53 | a pointer to its own offset never resolves with any jump budget, in resolution, `Display` and `eq` |
| Names.ResolveEncodedName | dnsparse/src/question.rs:41-72 | round trip, encoder then resolver: a pointer-free encoded name resolves to its label texts without jumps |
| Names.ResolveThroughPointer | dnsparse/src/question.rs:50-53 | following a pointer continues the same chain: the labels before it, then the chain at its target |
| Names.PointerRendersAsInlined | dnsparse/src/question.rs:41-72 | under the corrected `Display` (`Render`), a name ending in a pointer renders, with one more jump, exactly as the fully inlined name |
| Names.AsWrittenAwayFromStart | dnsparse/src/question.rs:59-61 | from any offset whose chain never reaches a label at the name's start, `Display` as written prints a dot before every label |
| Names.ResolvedNeverReturns | dnsparse/src/question.rs:45-70 | the chain of a resolvable name that starts with a label never comes back to that label |
| Names.AsWrittenFailsAsLabels | dnsparse/src/question.rs:41-72 | `Display` as written fails exactly when the name does not resolve, with the same error |
| Names.AsWrittenDisplay | dnsparse/src/question.rs:41-72 | `Display` as written prints the resolved labels joined by single dots, except that a name starting with a pointer gets a `.` before its first label too; it fails exactly as resolution fails |
| Names.AsWrittenMatchesCorrected | dnsparse/src/question.rs:41-72 | for a name that does not start with a pointer, `Display` as written and the corrected `Display` give the same result |
| Names.AsWrittenPointerTail | dnsparse/src/question.rs:41-72 | as written, labels followed by a pointer to an encoded name print as the dotted form of all the labels in order (`www` + pointer to `example.com` prints `www.example.com`) |
| Names.LeadingDotAfterPointer | dnsparse/src/question.rs:59-61 | as written, a name that starts with a pointer to a resolvable, non-empty chain prints a leading `.`; the corrected `Display` does not |
| Names.LeadingDotExample | dnsparse/src/question.rs:59-61 | as written, `com` reached through a pointer prints as `.com`, although `eq` accepts `com` |
| QuestionViews.Kind | dnsparse/src/question.rs:124-128 | the type code is the big-endian value of the first two of the last four record bytes |
| QuestionViews.Class | dnsparse/src/question.rs:130-134 | the class code is the big-endian value of the last two record bytes |
| QuestionViews.AsBytes | dnsparse/src/question.rs:136-138 | the record bytes are `end - start` long, which is at least 5 |
| QuestionViews.AsBytesSelfContained | dnsparse/src/question.rs:136-138 | the bytes of a view are one whole record on their own |
| QuestionViews.ViewOfEncodedRecord | dnsparse/src/question.rs:119-138 | a view over an encoded record gives back the record's bytes, type and class |
| QuestionViews.NameOfEncodedRecord | dnsparse/src/question.rs:120-122 | the name of a view over a pointer-free record resolves to the record's labels |
| QuestionViews.Next | dnsparse/src/question.rs:194-208 | when the count is reached: `None`, nothing changes. It aborts exactly when the scan fails. Otherwise it yields the view that starts at the cursor, then bumps the count and moves the cursor to the view's end |
| QuestionViews.Collect | dnsparse/src/question.rs:191-208 | running the iterator to its end yields exactly the remaining number of questions |
| QuestionViews.CollectTiles | dnsparse/src/question.rs:194-208 | the yielded views lie back to back from the cursor, with no gap or overlap |
| QuestionViews.CollectEncodedFrom | dnsparse/src/question.rs:191-208 | records encoded back to back give one view per record, in order, each giving back the record's bytes, type and class |
| QuestionViews.CollectEncoded | dnsparse/src/question.rs:191-208 | the same for a question section after arbitrary header bytes |

## Left out

- `Question`'s `fmt::Debug` (lines 15-23) is left out. It only formats the three accessors.
- `str::from_utf8_unchecked` and `fmt::Formatter` output are left out. `Display` produces the bytes it would print, and a formatter error is not modelled.
- `QueryKind::from` and `QueryClass::from` are not part of this model. `Kind` and `Class` return the raw 16-bit code.
- The field `QuestionName.end` (line 121) is dropped. No traversal reads it.
- esp32-hal/src/lib.rs is not part of this model. The DNS header and the transport are also left out.
- The tail width 4 stands for `size_of::<QueryClass>() + size_of::<QueryKind>()`. This assumes both are 2-byte codes.
- Names.Labels: pointer following is bounded by `fuel`. `JumpLimit` stands where the source would loop forever. A traversal that needs more jumps than its fuel is reported as `JumpLimit`, not run.
- Names.EqFrom: a buffer read past the end is the error `OutOfBounds`, not a panic. The order of the checks is kept: the string is checked before the label bytes are read.
- QuestionViews.Next: the `assert!` failure is the outcome `Abort`, not a process abort. A structured truncation error is not modelled, because the source has none.
- QuestionViews.Name has no contract. It only pairs the buffer with the start offset.
- `Display` is modelled twice: as written (`RenderAsWritten`, characterized in full by `AsWrittenDisplay`) and corrected (`Render`). The corrected one is what `EqOwnRendering` and `PointerRendersAsInlined` speak about.

## Findings

| source | as written | input that shows it | evidently intended | confidence | as-written member | corrected member |
|---|---|---|---|---|---|---|
| dnsparse/src/question.rs:59-61 | the separator `.` is printed whenever the cursor is not at the name's start offset, so after an initial pointer jump the first label also gets one | buffer `03 63 6F 6D 00 C0 00`, name at offset 5 (a pointer to `com` at offset 0): prints `.com` | a separator before every label but the first, printing `com` (the form `eq` accepts) | high, not executed | Names.LeadingDotAfterPointer | Names.RenderMatchesLabels |
