# NFC item tags: reader decision and writer loop

A Dafny model of the two pieces of logic in the br-table NFC firmware that sit
on top of the NFC tag library:

- **Reader** (`readItemFromTag`, `src/main.cpp`): walks the records of a tag's
  NDEF message in wire order. It keeps only Text records (type exactly `'T'`).
  It decodes each one per section 3.2.1 of the NFC Forum Text Record Type
  Definition: bits 5..0 of the status byte give the language-code length, and
  the text starts after that code. The first text that starts with `"ITEM:"`
  is printed. Otherwise the reader prints `NO_ITEM_DATA`, or `NO_NDEF_MESSAGE`
  when the tag has no NDEF message. With no tag present it prints nothing.
- **Writer** (`loop`, `src/nfc_writer.cpp`): a state of a pending selection
  (`selectedItem`, -1 for none) and a pending format request (`formatMode`).
  A serial byte updates it: `'9'` shows the menu, `'8'` requests a format, and
  `'0'`..`'4'` select a row of the five-entry item table. On a pass with a tag
  present, the pending format or write is carried out and then cleared.

Modules: `Options` (Some/None), `Bytes` (the byte type and the byte-to-char
coercion), `ItemFormat` (the `"ITEM:"` prefix), `TextRecord` (one record's text), `Reader` (the record scan and the
printed line), `Writer` (item table and loop), and `EndToEnd` (what the writer
writes is what the reader reads).

Inputs from hardware are parameters of the model:
- `tagPresent`, `hasNdefMessage` and the record list are parameters.
- The serial byte is an `Option<byte>`; `None` means no byte was waiting.
- The success of `format`/`write` is a boolean.

Records are `Record(recordType, payload)`. A `None` payload stands for the
library's null payload pointer. The payload length is the sequence length, so
the source's `payloadLength <= 0` test becomes "empty". A byte is its unsigned
value 0..255; the status-byte mask `& 0x3F` is computed as the remainder
modulo 64, which `TextRecord.MaskIsRemainder` shows is the same on octets.

Neither loop detects a tag's arrival: `src/main.cpp:87-90` re-reads every
1000 ms, and `src/nfc_writer.cpp:136,158` act on each `tagPresent()` answer.
The model takes presence as a per-pass input.

Encoding is the library call `NdefMessage::addTextRecord`
(`src/nfc_writer.cpp:52`). `TextRecord.EncodeText` follows the Text Record
Type Definition as an assumption, with language `"en"`; the round-trip lemmas
(`TextRecord.DecodeEncode`, `EndToEnd.*`) rest on it.

## Model

| member | source | states |
|---|---|---|
| Bytes.ToChars | src/main.cpp:50-53 | the decoded string has one character per payload byte, with the same code; no charset check |
| Bytes.ToCharsInjective | src/main.cpp:52 | the byte-to-char passthrough loses nothing: different byte strings never give the same text |
| TextRecord.MaskIsRemainder | src/main.cpp:44 | masking an octet with `0x3F` gives its remainder modulo 64, the form in which the model computes the language length |
| TextRecord.LangLength | src/main.cpp:44 | the language length from `status & 0x3F` is at most 63 and differs from the status byte by a multiple of 64 |
| TextRecord.LangLengthIgnoresFlags | src/main.cpp:44 | changing bits 7 and 6 of the status byte (UTF-16 flag, reserved bit) leaves the language length unchanged |
| TextRecord.TextStart | src/main.cpp:45 | the text offset is between 1 and 64 |
| TextRecord.RecordText | src/main.cpp:34-53 | a record yields text iff its type is exactly `'T'`, its payload exists and is non-empty, and `1 + langLength < payloadLength`; the text is non-empty, has length `payloadLength - 1 - langLength`, and holds the payload bytes from the text start on, in order |
| TextRecord.CopyText | src/main.cpp:50-53 | the copy loop reads only indices in `textStart .. payloadLength` and yields the payload's tail verbatim |
| TextRecord.ReadRecordText | src/main.cpp:34-53 | the per-record checks in source order (type, null or empty payload, language length, bounds, copy) give exactly `RecordText` |
| TextRecord.EncodeText | src/nfc_writer.cpp:51-52 | the record built for writing has type `'T'` and a payload of status byte, language code and text (Text Record Type Definition layout; an assumption about the library) |
| TextRecord.DecodeEncode | src/nfc_writer.cpp:51-52 | decoding an encoded non-empty byte string gives it back, for any language code up to 63 bytes |
| TextRecord.EmptyTextIsSkipped | src/main.cpp:46-48 | an encoded empty text is skipped on decode, because its text start equals the payload length |
| Reader.Scan | src/main.cpp:30-62 | the scan never reports a missing message; a reported text has the `"ITEM:"` prefix; it reports no item iff no record is an item record |
| Reader.Decode | src/main.cpp:26-66 | `NO_NDEF_MESSAGE` iff the tag has no NDEF message; `NO_ITEM_DATA` iff it has one and no record is an item record; any item has the `"ITEM:"` prefix |
| Reader.ScanFindsFirst | src/main.cpp:30-59 | when record `i` is the first item record, the result is exactly its text |
| Reader.ScanResultIsFirst | src/main.cpp:56-59 | a reported item always comes from the first item record in wire order |
| Reader.LaterRecordsIgnored | src/main.cpp:56-59 | replacing every record after the first item record does not change the result, so no later record is inspected |
| Reader.SkippedRecordTransparent | src/main.cpp:34-47 | inserting a non-item record anywhere (non-Text, malformed, or text without the prefix) does not change the result, so it never hides a later item |
| Reader.ShortPayloadSkipped | src/main.cpp:44-48 | a Text record with `langLength + 1 >= payloadLength` is skipped and the scan continues with the next record |
| Reader.LineInjective | src/main.cpp:57-66 | the printed line determines the outcome: an item line, `NO_ITEM_DATA` and `NO_NDEF_MESSAGE` never coincide |
| Reader.ReadItemFromTag | src/main.cpp:21-69 | with no tag nothing is printed and no beep plays; otherwise exactly one line, the one for `Decode`, and the beep plays iff it is an item |
| Writer.ItemTableWellFormed | src/nfc_writer.cpp:14-28 | the table has 5 rows; every row's data has the `"ITEM:"` prefix and more after it, fits in bytes, and differs from every other row's |
| Writer.SignedChar | src/nfc_writer.cpp:107 | the serial byte stored in a signed `char` lies in -128..127 and is congruent to the byte modulo 256 |
| Writer.SelectionIsDigit | src/nfc_writer.cpp:122-123 | `input - '0'` is in `0 .. 4` iff the byte is one of `'0'`..`'4'`; bytes that wrap negative never select |
| Writer.StepInput | src/nfc_writer.cpp:106-132 | `'8'` and `'9'` end the pass early and nothing else does; `'8'` gives the state (-1, format); a digit selects its item and clears format mode; `'9'` and every other byte leave the state unchanged; range and mutual exclusion are preserved |
| Writer.StepTag | src/nfc_writer.cpp:134-179 | a format happens iff format mode is set and a tag is present; a write happens iff a selection is pending, format mode is clear and a tag is present, and it writes that row's data; afterwards the flag or selection is cleared; with no action the state is unchanged and nothing sounds; after an action the tone reports the transport result |
| Writer.Loop | src/nfc_writer.cpp:104-182 | one pass preserves the invariant; `'9'` and `'8'` passes take no action; with no serial byte, or with any byte other than `'8'`/`'9'`, the pass is exactly the serial step followed by the tag step, so a pending format or write is carried out when a tag is present; a digit with a tag present writes that item on the same pass; a format needs a request from an earlier pass; no action without a tag |
| Writer.OutcomeOnlyAffectsSignal | src/nfc_writer.cpp:139-174 | the next state and the action do not depend on whether the format or write succeeded |
| Writer.RunTicks | src/nfc_writer.cpp:101-182 | over any sequence of passes the invariant holds, there is one action per pass, and passes without a tag take no action |
| Writer.ReachableStatesValid | src/nfc_writer.cpp:101-102 | from the power-up state (-1, false) every reachable state has `-1 <= selectedItem <= 4` and never both a format request and a selection |
| Writer.IdleTicksDoNothing | src/nfc_writer.cpp:157-179 | with nothing pending and no serial input, no pass takes any action and the state stays idle |
| Writer.FormatRequestFormatsOnce | src/nfc_writer.cpp:114-151 | `'8'` then a tag, from any valid state (even one with a selection): exactly one format, no write, and idle afterwards |
| Writer.SelectionWritesOnce | src/nfc_writer.cpp:122-174 | a digit typed with a tag present writes that row's data once, on the same pass; then nothing more happens and the state is idle |
| Writer.RunAppend | src/nfc_writer.cpp:104-182 | running two stretches of passes in turn is the same as running their concatenation: final state of the second, actions of both in order |
| Writer.TaglessTicksKeepState | src/nfc_writer.cpp:135-158 | passes with no serial input and no tag take no action and leave any pending request in place |
| Writer.SelectThenTagWrites | src/nfc_writer.cpp:122-174 | a digit typed with no tag, any number of idle passes, then a tag: only the last pass acts, it writes the selected row, and the state ends idle |
| EndToEnd.TableReadsBack | src/nfc_writer.cpp:14-20 | every table row, written as a Text record, is read back by the reader as that row's item |
| EndToEnd.WrittenItemReadsBack | src/nfc_writer.cpp:161 | whatever the writer loop writes is read back unchanged |
| EndToEnd.ItemFoundBehindSkippedRecords | src/main.cpp:30-59 | an item record behind any number of skipped records, with anything after it, is the one reported |

## Left out

- Serial I/O text, `printMenu`, the status lines, and the `delay` calls: output and timing with no state effect. The tones are kept only as the `Signal` of a pass.
- `setup()` and the MFRC522 / `NfcAdapter` calls (`tagPresent`, `read`, `hasNdefMessage`, `getNdefMessage`, `write`, `format`). Their answers are inputs to the model.
- `NdefMessage::addTextRecord`: a library call whose layout is not in the source. `TextRecord.EncodeText` follows the Text Record Type Definition instead, as an assumption.
- Presence edge detection and UID de-duplication: not present in the code. Both loops act on the raw presence level each pass.
- Arduino `String` handling of a zero byte appended at `src/main.cpp:52`, and of `startsWith` on such strings: decoding is modelled as raw byte passthrough.
- The reader's `loop()` (`src/main.cpp:87-90`): it only calls `readItemFromTag` once per second.
- Bytes.ToChars: models `(char)payload[j]` as the code point equal to the byte value (0..255), not as a signed `char`; only the printed bytes matter, and those are the same.
