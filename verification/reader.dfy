/** The reader's decision for one tag: scan the NDEF message's records in
    wire order and report the first Text record whose text starts with
    "ITEM:", or one of the two diagnostic tokens. */
module Reader {
  import opened Options
  import opened Bytes
  import opened TextRecord
  import opened ItemFormat

  /** What one read of a tag reports. */
  datatype Result = Item(text: string) | NoItemData | NoNdefMessage

  /** A record that ends the scan: a decodable Text record carrying an item. */
  predicate IsItemRecord(rec: Record)
  {
    var t := RecordText(rec);
    t.Some? && HasItemPrefix(t.value)
  }

  /** Record `i` is the first item record of the message. */
  predicate FirstItemAt(records: seq<Record>, i: nat)
  {
    && i < |records|
    && IsItemRecord(records[i])
    && forall j :: 0 <= j < i ==> !IsItemRecord(records[j])
  }

  /** The record loop over a message that is present. */
  function Scan(records: seq<Record>): (r: Result)
    ensures !r.NoNdefMessage?
    ensures r.Item? ==> HasItemPrefix(r.text) && |r.text| >= 1
    ensures r.NoItemData? <==> forall i :: 0 <= i < |records| ==> !IsItemRecord(records[i])
    decreases |records|
  {
    if |records| == 0 then NoItemData
    else
      var t := RecordText(records[0]);
      if t.Some? && HasItemPrefix(t.value) then Item(t.value)
      else
        var rest := Scan(records[1..]);
        assert forall i :: 1 <= i < |records| ==> records[i] == records[1..][i - 1];
        rest
  }

  /** The outcome of reading a tag whose NDEF presence is `hasNdef`. */
  function Decode(hasNdef: bool, records: seq<Record>): (r: Result)
    ensures r.NoNdefMessage? <==> !hasNdef
    ensures r.NoItemData? <==> hasNdef && forall i :: 0 <= i < |records| ==> !IsItemRecord(records[i])
    ensures r.Item? ==> HasItemPrefix(r.text)
  {
    if !hasNdef then NoNdefMessage else Scan(records)
  }

  /** The scan returns exactly the text of the first item record. */
  lemma {:induction false} ScanFindsFirst(records: seq<Record>, i: nat)
    requires FirstItemAt(records, i)
    ensures Scan(records) == Item(RecordText(records[i]).value)
    decreases i
  {
    if i > 0 {
      assert !IsItemRecord(records[0]);
      var rest := records[1..];
      assert FirstItemAt(rest, i - 1) by {
        forall j | 0 <= j < i - 1
          ensures !IsItemRecord(rest[j])
        {
          assert rest[j] == records[j + 1];
        }
      }
      ScanFindsFirst(rest, i - 1);
    }
  }

  /** A found item always comes from the first item record. */
  lemma {:induction false} ScanResultIsFirst(records: seq<Record>)
    requires Scan(records).Item?
    ensures exists i: nat :: FirstItemAt(records, i) && Scan(records).text == RecordText(records[i]).value
    decreases |records|
  {
    var t := RecordText(records[0]);
    if t.Some? && HasItemPrefix(t.value) {
      assert FirstItemAt(records, 0);
    } else {
      var rest := records[1..];
      ScanResultIsFirst(rest);
      var i: nat :| FirstItemAt(rest, i) && Scan(rest).text == RecordText(rest[i]).value;
      assert rest[i] == records[i + 1];
      assert FirstItemAt(records, i + 1) by {
        forall j | 0 <= j < i + 1
          ensures !IsItemRecord(records[j])
        {
          if j > 0 {
            assert records[j] == rest[j - 1];
          }
        }
      }
    }
  }

  /** No record after the first item record is inspected: replacing
      everything after it leaves the outcome unchanged. */
  lemma LaterRecordsIgnored(records: seq<Record>, i: nat, tail: seq<Record>)
    requires FirstItemAt(records, i)
    ensures Scan(records[..i + 1] + tail) == Scan(records)
  {
    var changed := records[..i + 1] + tail;
    assert changed[i] == records[i];
    assert FirstItemAt(changed, i) by {
      forall j | 0 <= j < i
        ensures !IsItemRecord(changed[j])
      {
        assert changed[j] == records[j];
      }
    }
    ScanFindsFirst(changed, i);
    ScanFindsFirst(records, i);
  }

  /** A record that is not an item record (a non-Text record, a malformed
      Text record, or text without the prefix) can be inserted anywhere
      without changing the outcome: it never hides a later item. */
  lemma {:induction false} SkippedRecordTransparent(pre: seq<Record>, rec: Record, post: seq<Record>)
    requires !IsItemRecord(rec)
    ensures Scan(pre + [rec] + post) == Scan(pre + post)
    decreases |pre|
  {
    if |pre| == 0 {
      assert pre + [rec] + post == [rec] + post;
      assert ([rec] + post)[1..] == post;
      assert pre + post == post;
    } else {
      var a := pre + [rec] + post;
      var b := pre + post;
      assert a[0] == pre[0] && b[0] == pre[0];
      assert a[1..] == pre[1..] + [rec] + post;
      assert b[1..] == pre[1..] + post;
      SkippedRecordTransparent(pre[1..], rec, post);
    }
  }

  /** A Text record whose payload cannot hold any text is skipped, whatever
      the rest of the message holds. */
  lemma ShortPayloadSkipped(payload: seq<byte>, post: seq<Record>)
    requires |payload| > 0 && LangLength(payload[0]) + 1 >= |payload|
    ensures Scan([Record([TextType], Some(payload))] + post) == Scan(post)
  {
  }

  /** The diagnostic token printed when the message holds no item. */
  const NoItemDataToken: string := "NO_ITEM_DATA"

  /** The diagnostic token printed when the tag holds no NDEF message. */
  const NoNdefMessageToken: string := "NO_NDEF_MESSAGE"

  /** The serial line printed for a result. */
  function Line(r: Result): string
  {
    match r
    case Item(t) => t
    case NoItemData => NoItemDataToken
    case NoNdefMessage => NoNdefMessageToken
  }

  /** The serial channel is unambiguous: a line names exactly one outcome,
      because an item line starts with "ITEM:" and neither token does. */
  lemma LineInjective(a: Result, b: Result)
    requires a.Item? ==> HasItemPrefix(a.text)
    requires b.Item? ==> HasItemPrefix(b.text)
    requires Line(a) == Line(b)
    ensures a == b
  {
    assert NoItemDataToken[0] == 'N' && NoNdefMessageToken[0] == 'N';
    assert |NoItemDataToken| != |NoNdefMessageToken|;
    assert a.Item? ==> Line(a)[0] == 'I';
    assert b.Item? ==> Line(b)[0] == 'I';
  }

  /** One call of the reader routine, written as its statements run. With no
      tag nothing is printed; otherwise one line, and the success beep plays
      exactly when that line is an item. */
  method ReadItemFromTag(tagPresent: bool, hasNdef: bool, records: seq<Record>)
    returns (lines: seq<string>, beep: bool)
    ensures !tagPresent ==> lines == [] && !beep
    ensures tagPresent ==> lines == [Line(Decode(hasNdef, records))]
    ensures beep <==> tagPresent && Decode(hasNdef, records).Item?
  {
    lines, beep := [], false;
    if !tagPresent {
      return;
    }
    if !hasNdef {
      lines := [NoNdefMessageToken];
      return;
    }
    var i := 0;
    while i < |records|
      invariant 0 <= i <= |records|
      invariant forall j :: 0 <= j < i ==> !IsItemRecord(records[j])
    {
      var t := ReadRecordText(records[i]);
      if t.Some? && HasItemPrefix(t.value) {
        assert FirstItemAt(records, i);
        ScanFindsFirst(records, i);
        lines, beep := [t.value], true;
        return;
      }
      i := i + 1;
    }
    lines := [NoItemDataToken];
  }
}
