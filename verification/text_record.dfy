/** One NDEF record as the tag library hands it to the reader, and the
    decoding of a Text record's payload (NFC Forum Text Record Type
    Definition, section 3.2.1: status byte, language code, text). */
module TextRecord {
  import opened Options
  import opened Bytes

  /** An NDEF record: its type field and its payload. `None` stands for the
      library returning a null payload pointer; the payload length is the
      length of the sequence. */
  datatype Record = Record(recordType: seq<byte>, payload: Option<seq<byte>>)

  /** The well-known type name of a Text record, the single byte 'T'. */
  const TextType: byte := 0x54

  /** The record type is exactly the one byte 'T'. */
  predicate IsTextType(recordType: seq<byte>)
  {
    |recordType| == 1 && recordType[0] == TextType
  }

  /** Masking an octet with 0x3F keeps bits 5..0, which is its remainder
      modulo 64; the model computes the mask on byte values this way. */
  lemma MaskIsRemainder(b: bv8)
    ensures (b & 0x3F) as int == b as int % 64
  {
  }

  /** Bits 5..0 of the status byte, `status & 0x3F` (see `MaskIsRemainder`):
      the length of the language code. Bit 7 (UTF-16 flag) and bit 6
      (reserved) do not take part. */
  function LangLength(status: byte): (n: nat)
    ensures n <= 63
    ensures (status - n) % 64 == 0
  {
    status % 64
  }

  /** Setting or clearing the UTF-16 flag (bit 7) and the reserved bit (bit 6)
      does not change the language length. */
  lemma LangLengthIgnoresFlags(status: byte, flags: nat)
    requires flags < 4
    ensures LangLength(status % 64 + 64 * flags) == LangLength(status)
  {
  }

  /** Offset of the first text byte: past the status byte and the language code. */
  function TextStart(status: byte): (n: nat)
    ensures 1 <= n <= 64
  {
    1 + LangLength(status)
  }

  /** A payload that is non-empty and whose text region holds at least one byte. */
  predicate HasTextRegion(payload: seq<byte>)
  {
    |payload| > 0 && TextStart(payload[0]) < |payload|
  }

  /** The text a record carries, or `None` when the record is skipped: not a
      Text record, no payload, empty payload, or a language code that reaches
      the end of the payload. */
  function RecordText(rec: Record): (t: Option<string>)
    ensures t.Some? <==>
      IsTextType(rec.recordType) && rec.payload.Some? && HasTextRegion(rec.payload.value)
    ensures t.Some? ==>
      var p := rec.payload.value;
      && 1 <= |t.value| == |p| - 1 - LangLength(p[0])
      && forall k :: 0 <= k < |t.value| ==> t.value[k] as int == p[TextStart(p[0]) + k] as int
  {
    if !IsTextType(rec.recordType) then None
    else match rec.payload
      case None => None
      case Some(p) =>
        if |p| <= 0 then None
        else
          var start := TextStart(p[0]);
          if start >= |p| then None
          else Some(ToChars(p[start..]))
  }

  /** The byte-copy loop of the reader: every index it reads lies in
      `textStart .. |payload|`, and the copy is the payload's tail verbatim. */
  method CopyText(payload: seq<byte>, textStart: nat) returns (text: string)
    requires textStart <= |payload|
    ensures text == ToChars(payload[textStart..])
  {
    text := "";
    var j := textStart;
    while j < |payload|
      invariant textStart <= j <= |payload|
      invariant |text| == j - textStart
      invariant forall k :: 0 <= k < |text| ==> text[k] as int == payload[textStart + k] as int
    {
      text := text + [(payload[j] as int) as char];
      j := j + 1;
    }
    assert |text| == |payload[textStart..]|;
  }

  /** The record decoder written as the reader's statements run: check the
      type, the payload pointer and length, the language length, then copy. */
  method ReadRecordText(rec: Record) returns (t: Option<string>)
    ensures t == RecordText(rec)
  {
    if !(|rec.recordType| == 1 && rec.recordType[0] == TextType) {
      return None;
    }
    if rec.payload.None? || |rec.payload.value| <= 0 {
      return None;
    }
    var payload := rec.payload.value;
    var langLength := payload[0] % 64;  // payload[0] & 0x3F
    var textStart := 1 + langLength;
    if textStart >= |payload| {
      return None;
    }
    var text := CopyText(payload, textStart);
    return Some(text);
  }

  /** Language code used for outbound records ("en"). */
  const DefaultLang: seq<byte> := [0x65, 0x6E]

  /** A Text record laid out per section 3.2.1 of the Text Record Type
      Definition: status byte (UTF-8, language length), language code, text. */
  function EncodeText(text: string, lang: seq<byte>): (rec: Record)
    requires IsByteString(text)
    requires |lang| <= 63
    ensures IsTextType(rec.recordType)
    ensures rec.payload.Some? && |rec.payload.value| == 1 + |lang| + |text|
  {
    Record([TextType], Some([|lang| as byte] + lang + ToBytes(text)))
  }

  /** Decoding an encoded non-empty text gives the text back, whatever the
      language code. */
  lemma DecodeEncode(text: string, lang: seq<byte>)
    requires IsByteString(text) && |text| >= 1
    requires |lang| <= 63
    ensures RecordText(EncodeText(text, lang)) == Some(text)
  {
    var p := [|lang| as byte] + lang + ToBytes(text);
    assert LangLength(p[0]) == |lang|;
    assert p[1 + |lang|..] == ToBytes(text);
    CharsOfBytes(text);
  }

  /** The empty text cannot be carried: its record is skipped on decode. */
  lemma EmptyTextIsSkipped(lang: seq<byte>)
    requires |lang| <= 63
    ensures RecordText(EncodeText("", lang)) == None
  {
  }
}
