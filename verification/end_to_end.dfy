/** The writer and the reader together: what the writer puts on a tag, laid
    out as a Text record, is what the reader reports for that tag. */
module EndToEnd {
  import opened TextRecord
  import Reader
  import Writer
  import ItemFormat

  /** Every row of the item table, written as the only record of a message,
      reads back as that row's item string. */
  lemma TableReadsBack(i: nat)
    requires i < |Writer.Items|
    ensures Reader.Decode(true, [EncodeText(Writer.Items[i].data, DefaultLang)]) ==
      Reader.Item(Writer.Items[i].data)
  {
    Writer.ItemTableWellFormed();
    var d := Writer.Items[i].data;
    DecodeEncode(d, DefaultLang);
    assert Reader.FirstItemAt([EncodeText(d, DefaultLang)], 0);
    Reader.ScanFindsFirst([EncodeText(d, DefaultLang)], 0);
  }

  /** Whatever pass of the writer loop performs a write, the string it
      writes reads back unchanged. */
  lemma WrittenItemReadsBack(s: Writer.State, t: Writer.Tick)
    requires Writer.InRange(s)
    requires Writer.Loop(s, t).action.Write?
    ensures Reader.Decode(true, [EncodeText(Writer.Loop(s, t).action.data, DefaultLang)]) ==
      Reader.Item(Writer.Loop(s, t).action.data)
  {
    var i :| 0 <= i < |Writer.Items| && Writer.Loop(s, t).action.data == Writer.Items[i].data;
    TableReadsBack(i);
  }

  /** A written record may share the tag with any number of records the
      reader skips ahead of it and anything at all after it; the item is
      still what the reader reports. */
  lemma ItemFoundBehindSkippedRecords(pre: seq<Record>, text: string, post: seq<Record>)
    requires forall j :: 0 <= j < |pre| ==> !Reader.IsItemRecord(pre[j])
    requires Bytes.IsByteString(text) && ItemFormat.HasItemPrefix(text)
    ensures Reader.Decode(true, pre + [EncodeText(text, DefaultLang)] + post) == Reader.Item(text)
  {
    var records := pre + [EncodeText(text, DefaultLang)] + post;
    DecodeEncode(text, DefaultLang);
    assert records[|pre|] == EncodeText(text, DefaultLang);
    assert Reader.FirstItemAt(records, |pre|) by {
      forall j | 0 <= j < |pre|
        ensures !Reader.IsItemRecord(records[j])
      {
        assert records[j] == pre[j];
      }
    }
    Reader.ScanFindsFirst(records, |pre|);
  }
}
