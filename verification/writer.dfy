/** The writer firmware's loop: a serial command updates the pending
    request, and on a tick with a tag on the reader the pending format or
    write is carried out and cleared. */
module Writer {
  import opened Options
  import opened Bytes
  import ItemFormat

  /** One row of the item table: the string written to the tag and the
      name shown to the operator. The row index is the serial command. */
  datatype ItemEntry = ItemEntry(data: string, name: string)

  /** The fixed item table, in command order '0' .. '4'. */
  const Items: seq<ItemEntry> := [
    ItemEntry("ITEM:CIG", "Cigarette"),
    ItemEntry("ITEM:BEER", "Beer"),
    ItemEntry("ITEM:SAW", "Saw"),
    ItemEntry("ITEM:CUFF", "Handcuffs"),
    ItemEntry("ITEM:MAG", "MagnifyingGlass")
  ]

  /** The bound the selection check compares against. */
  const ItemCount: int := 5

  /** The table has one row per selectable index, every payload carries the
      item prefix and fits in bytes, and no two rows write the same string. */
  lemma ItemTableWellFormed()
    ensures |Items| == ItemCount
    ensures forall i :: 0 <= i < |Items| ==> ItemFormat.HasItemPrefix(Items[i].data)
    ensures forall i :: 0 <= i < |Items| ==> IsByteString(Items[i].data) && |Items[i].data| > |ItemFormat.ItemPrefix|
    ensures forall i, j :: 0 <= i < j < |Items| ==> Items[i].data != Items[j].data
  {
  }

  /** The loop's state: the pending selection (-1 for none) and the pending
      format request. */
  datatype State = State(selectedItem: int, formatMode: bool)

  /** The state at power-up: nothing pending. */
  const Init: State := State(-1, false)

  /** The selection indexes the item table or is -1. */
  predicate InRange(s: State)
  {
    -1 <= s.selectedItem < |Items|
  }

  /** The loop invariant: the selection is in range and a format request and
      a pending write are never both outstanding. */
  predicate Valid(s: State)
  {
    InRange(s) && !(s.formatMode && s.selectedItem >= 0)
  }

  /** Serial command bytes. */
  const MenuKey: byte := 0x39    // '9'
  const FormatKey: byte := 0x38  // '8'
  const DigitZero: byte := 0x30  // '0'

  /** The byte read from the serial port stored in a `char`, which is signed
      on the target: values from 128 up wrap to negative numbers. */
  function SignedChar(b: byte): (c: int)
    ensures -128 <= c < 128
    ensures c % 256 == b as int
  {
    if b as int < 128 then b as int else b as int - 256
  }

  /** `input - '0'`, computed on the signed character. */
  function ItemIndex(b: byte): int
  {
    SignedChar(b) - DigitZero as int
  }

  /** A byte selects an item exactly when it is one of the digits '0' .. '4';
      the bytes that wrap to negative characters never do. */
  lemma SelectionIsDigit(b: byte)
    ensures 0 <= ItemIndex(b) < ItemCount <==> DigitZero <= b <= DigitZero + 4
  {
  }

  /** Result of handling one serial byte: the new state, and whether the
      loop returns before looking for a tag. */
  datatype InputStep = InputStep(state: State, earlyReturn: bool)

  /** Handling one serial byte. */
  function StepInput(s: State, c: byte): (r: InputStep)
    ensures r.earlyReturn <==> c == MenuKey || c == FormatKey
    ensures c == FormatKey ==> r.state == State(-1, true)
    ensures DigitZero <= c <= DigitZero + 4 ==> r.state == State(c as int - DigitZero as int, false)
    ensures !(c == FormatKey || DigitZero <= c <= DigitZero + 4) ==> r.state == s
    ensures InRange(s) ==> InRange(r.state)
    ensures Valid(s) ==> Valid(r.state)
  {
    if c == MenuKey then InputStep(s, true)
    else if c == FormatKey then InputStep(s.(formatMode := true, selectedItem := -1), true)
    else
      var itemIndex := ItemIndex(c);
      if 0 <= itemIndex < ItemCount then InputStep(s.(selectedItem := itemIndex, formatMode := false), false)
      else InputStep(s, false)
  }

  /** What the loop asks of the tag transport on one tick. */
  datatype Action = NoAction | Format | Write(data: string)

  /** The tone sequence played after a transport operation. */
  datatype Signal = Silent | SuccessTone | ErrorTone

  /** Result of the tag half of one tick. */
  datatype TagStep = TagStep(state: State, action: Action, signal: Signal)

  /** The tone that reports a transport operation's outcome. */
  function ToneFor(ok: bool): Signal
  {
    if ok then SuccessTone else ErrorTone
  }

  /** The tag half of one tick. `tagPresent` is what the transport reports
      for the tag on the reader; `transportOk` is what the format or write
      operation returns. */
  function StepTag(s: State, tagPresent: bool, transportOk: bool): (r: TagStep)
    requires s.selectedItem < |Items|
    ensures r.action.Format? <==> s.formatMode && tagPresent
    ensures r.action.Write? <==> !s.formatMode && s.selectedItem >= 0 && tagPresent
    ensures r.action.Write? ==> r.action.data == Items[s.selectedItem].data
    ensures r.action.Format? ==> r.state == s.(formatMode := false)
    ensures r.action.Write? ==> r.state == s.(selectedItem := -1)
    ensures r.action.NoAction? ==> r.state == s && r.signal == Silent
    ensures !r.action.NoAction? ==> (r.signal == SuccessTone <==> transportOk) && r.signal != Silent
    ensures InRange(s) ==> InRange(r.state)
    ensures Valid(s) ==> Valid(r.state)
    ensures Valid(s) && !r.action.NoAction? ==> r.state == Init
  {
    if s.formatMode then
      if tagPresent then TagStep(s.(formatMode := false), Format, ToneFor(transportOk))
      else TagStep(s, NoAction, Silent)
    else if s.selectedItem >= 0 then
      if tagPresent then TagStep(s.(selectedItem := -1), Write(Items[s.selectedItem].data), ToneFor(transportOk))
      else TagStep(s, NoAction, Silent)
    else TagStep(s, NoAction, Silent)
  }

  /** The inputs of one pass of the loop: the serial byte if one is waiting,
      the transport's tag-present answer, and the outcome of the format or
      write it would perform. */
  datatype Tick = Tick(input: Option<byte>, tagPresent: bool, transportOk: bool)

  /** One pass of the loop. */
  function Loop(s: State, t: Tick): (r: TagStep)
    requires InRange(s)
    ensures InRange(r.state)
    ensures Valid(s) ==> Valid(r.state)
    ensures t.input == Some(MenuKey) ==> r == TagStep(s, NoAction, Silent)
    ensures t.input == Some(FormatKey) ==> r == TagStep(State(-1, true), NoAction, Silent)
    ensures t.input.Some? && DigitZero <= t.input.value <= DigitZero + 4 && t.tagPresent ==>
      r.action == Write(Items[t.input.value as int - DigitZero as int].data) && r.state == Init
    ensures r.action.Format? ==> s.formatMode && t.tagPresent
    ensures r.action.Write? ==> t.tagPresent && exists i :: 0 <= i < |Items| && r.action.data == Items[i].data
    ensures !t.tagPresent ==> r.action.NoAction?
    ensures t.input.None? ==> r == StepTag(s, t.tagPresent, t.transportOk)
    ensures t.input.Some? && !StepInput(s, t.input.value).earlyReturn ==>
      r == StepTag(StepInput(s, t.input.value).state, t.tagPresent, t.transportOk)
  {
    match t.input
    case None => StepTag(s, t.tagPresent, t.transportOk)
    case Some(c) =>
      var i := StepInput(s, c);
      if i.earlyReturn then TagStep(i.state, NoAction, Silent)
      else StepTag(i.state, t.tagPresent, t.transportOk)
  }

  /** The outcome of the transport operation decides only the tone: the
      state and the action are the same whether it succeeds or fails. */
  lemma OutcomeOnlyAffectsSignal(s: State, t: Tick)
    requires InRange(s)
    ensures Loop(s, t).state == Loop(s, t.(transportOk := !t.transportOk)).state
    ensures Loop(s, t).action == Loop(s, t.(transportOk := !t.transportOk)).action
  {
  }

  /** Final state and the actions taken, tick by tick. */
  datatype Run = Run(state: State, actions: seq<Action>)

  /** A sequence of loop passes from state `s`. */
  function RunTicks(s: State, ticks: seq<Tick>): (r: Run)
    requires InRange(s)
    ensures InRange(r.state)
    ensures Valid(s) ==> Valid(r.state)
    ensures |r.actions| == |ticks|
    ensures forall k :: 0 <= k < |ticks| && !ticks[k].tagPresent ==> r.actions[k] == NoAction
    decreases |ticks|
  {
    if |ticks| == 0 then Run(s, [])
    else
      var step := Loop(s, ticks[0]);
      var rest := RunTicks(step.state, ticks[1..]);
      assert forall k :: 1 <= k < |ticks| ==> ticks[k] == ticks[1..][k - 1];
      Run(rest.state, [step.action] + rest.actions)
  }

  /** Every state reachable from power-up satisfies the loop invariant, so
      the table is only indexed in bounds and the two requests exclude each other. */
  lemma ReachableStatesValid(ticks: seq<Tick>)
    ensures Valid(RunTicks(Init, ticks).state)
  {
  }

  /** With nothing pending and no serial input, the loop does nothing, tag or no tag. */
  lemma {:induction false} IdleTicksDoNothing(ticks: seq<Tick>)
    requires forall k :: 0 <= k < |ticks| ==> ticks[k].input.None?
    ensures RunTicks(Init, ticks) == Run(Init, seq(|ticks|, _ => NoAction))
    decreases |ticks|
  {
    if |ticks| > 0 {
      var rest := ticks[1..];
      assert forall k :: 0 <= k < |rest| ==> rest[k] == ticks[k + 1];
      IdleTicksDoNothing(rest);
      assert [NoAction] + seq(|rest|, _ => NoAction) == seq(|ticks|, _ => NoAction);
    }
  }

  /** Command '8' followed by a tag: whatever was selected before, the tag
      is formatted exactly once and nothing is written, on this or any later
      tick without new input. */
  lemma FormatRequestFormatsOnce(s: State, request: Tick, rest: seq<Tick>)
    requires Valid(s)
    requires request.input == Some(FormatKey)
    requires |rest| >= 1 && rest[0].tagPresent
    requires forall k :: 0 <= k < |rest| ==> rest[k].input.None?
    ensures RunTicks(s, [request] + rest).actions == [NoAction, Format] + seq(|rest| - 1, _ => NoAction)
    ensures RunTicks(s, [request] + rest).state == Init
  {
    var ticks := [request] + rest;
    assert ticks[0] == request && ticks[1..] == rest;
    var pending := State(-1, true);
    assert Loop(pending, rest[0]) == TagStep(Init, Format, ToneFor(rest[0].transportOk));
    assert rest[1..] == ticks[2..];
    IdleTicksDoNothing(rest[1..]);
    assert RunTicks(pending, rest).state == RunTicks(Init, rest[1..]).state;
  }

  /** A digit typed with a tag already on the reader: the selection is
      written on the same pass, then the loop is idle again. */
  lemma SelectionWritesOnce(s: State, select: Tick, rest: seq<Tick>)
    requires InRange(s)
    requires select.input.Some? && DigitZero <= select.input.value <= DigitZero + 4
    requires select.tagPresent
    requires forall k :: 0 <= k < |rest| ==> rest[k].input.None?
    ensures RunTicks(s, [select] + rest).actions ==
      [Write(Items[select.input.value as int - DigitZero as int].data)] + seq(|rest|, _ => NoAction)
    ensures RunTicks(s, [select] + rest).state == Init
  {
    var ticks := [select] + rest;
    assert ticks[0] == select && ticks[1..] == rest;
    IdleTicksDoNothing(rest);
  }

  /** Running two stretches of passes one after the other is running their
      concatenation. */
  lemma {:induction false} RunAppend(s: State, a: seq<Tick>, b: seq<Tick>)
    requires InRange(s)
    ensures RunTicks(s, a + b) ==
      var first := RunTicks(s, a);
      var second := RunTicks(first.state, b);
      Run(second.state, first.actions + second.actions)
    decreases |a|
  {
    if |a| > 0 {
      var step := Loop(s, a[0]);
      assert (a + b)[0] == a[0];
      assert (a + b)[1..] == a[1..] + b;
      RunAppend(step.state, a[1..], b);
    } else {
      assert a + b == b;
    }
  }

  /** Passes with no serial input and no tag change nothing, whatever is pending. */
  lemma {:induction false} TaglessTicksKeepState(s: State, ticks: seq<Tick>)
    requires InRange(s)
    requires forall k :: 0 <= k < |ticks| ==> ticks[k].input.None? && !ticks[k].tagPresent
    ensures RunTicks(s, ticks) == Run(s, seq(|ticks|, _ => NoAction))
    decreases |ticks|
  {
    if |ticks| > 0 {
      var rest := ticks[1..];
      assert forall k :: 0 <= k < |rest| ==> rest[k] == ticks[k + 1];
      TaglessTicksKeepState(s, rest);
      assert [NoAction] + seq(|rest|, _ => NoAction) == seq(|ticks|, _ => NoAction);
    }
  }

  /** The usual way of writing a tag: a digit typed with no tag on the
      reader, any number of passes without input or tag, then a pass with a
      tag. Only that last pass acts, it writes the selected row, and the
      loop is idle afterwards. */
  lemma SelectThenTagWrites(s: State, select: Tick, wait: seq<Tick>, tag: Tick)
    requires InRange(s)
    requires select.input.Some? && DigitZero <= select.input.value <= DigitZero + 4
    requires !select.tagPresent
    requires forall k :: 0 <= k < |wait| ==> wait[k].input.None? && !wait[k].tagPresent
    requires tag.input.None? && tag.tagPresent
    ensures RunTicks(s, [select] + wait + [tag]) ==
      Run(Init, seq(1 + |wait|, _ => NoAction) + [Write(Items[select.input.value as int - DigitZero as int].data)])
  {
    var d := select.input.value as int - DigitZero as int;
    var pending := State(d, false);
    assert Loop(s, select) == TagStep(pending, NoAction, Silent);
    RunAppend(s, [select] + wait, [tag]);
    RunAppend(s, [select], wait);
    assert RunTicks(s, [select]) == Run(pending, [NoAction]);
    TaglessTicksKeepState(pending, wait);
    assert Loop(pending, tag).action == Write(Items[d].data);
    assert RunTicks(pending, [tag]) == Run(Init, [Write(Items[d].data)]);
    assert [NoAction] + seq(|wait|, _ => NoAction) == seq(1 + |wait|, _ => NoAction);
  }
}
