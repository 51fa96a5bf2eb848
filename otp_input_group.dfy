/** The earlier variant of the OTP box group (otp-input-group.js): cells and their
    restore memory are written inline, empty cells read as a space, and there is
    no programmatic setter. */
module InputGroup {
  import opened OtpCells

  class OtpInputGroup {
    /** `inputs[k].value` for each cell k. */
    var vals: seq<string>
    /** `inputs[k].dataset.otpInputRestore`; "" while it is unset. */
    var restore: seq<string>
    /** The cell the group last moved focus to, if any. */
    var focus: Option<nat>
    /** `updateTo.value`; None when no sink is bound. */
    var sink: Option<string>

    ghost predicate Valid()
      reads this
    {
      |restore| == |vals| && (focus.Some? ==> focus.value < |vals|)
    }

    /** Every displayed value and every restore entry is empty or one digit. */
    ghost predicate CellsOk()
      reads this
    {
      AllCells(vals) && AllCells(restore)
    }

    /** The group bound to cells whose displayed values are `initial`, whose restore
        entries are `initialRestore` ("" where none is set; the markup or an earlier
        group may have set some), and to an optional sink showing `sinkValue`; the
        constructor writes none of them. */
    constructor (initial: seq<string>, initialRestore: seq<string>, sinkValue: Option<string>)
      requires |initialRestore| == |initial|
      ensures Valid()
      ensures vals == initial && restore == initialRestore
      ensures focus == None && sink == sinkValue
    {
      vals := initial;
      restore := initialRestore;
      focus := None;
      sink := sinkValue;
    }

    /** `getValue`: the logical value, each empty cell shown as a space. */
    method GetValue() returns (v: string)
      ensures v == Logical(vals, " ")
    {
      v := "";
      var k := 0;
      while k < |vals|
        invariant k <= |vals|
        invariant v == Logical(vals[..k], " ")
      {
        assert vals[..k + 1][..k] == vals[..k];
        if vals[k] == "" {
          v := v + " ";
        } else {
          v := v + vals[k];
        }
        k := k + 1;
      }
      assert vals[..k] == vals;
    }

    /** `updateValue`: a bound sink is set to the logical value. */
    method UpdateValue()
      modifies this
      ensures sink == Mirror(old(sink), Logical(vals, " "))
      ensures vals == old(vals) && restore == old(restore) && focus == old(focus)
    {
      if sink.Some? {
        var v := GetValue();
        sink := Some(v);
      }
    }

    /** The paste branch of the `input` handler: cell i + pos and its restore entry
        receive chars[pos] while that cell exists, then focus goes to the cell after
        the pasted text, or the last cell; the sink is not refreshed. */
    method Distribute(i: nat, chars: string)
      requires Valid() && i < |vals|
      modifies this
      ensures Valid() && |vals| == |old(vals)|
      ensures vals == Pasted(old(vals), i, chars) && restore == Pasted(old(restore), i, chars)
      ensures sink == old(sink) && focus == Some(Min(|vals| - 1, i + |chars|))
    {
      var pos := 0;
      while pos < |chars|
        invariant Valid() && |vals| == |old(vals)|
        invariant 0 <= pos <= |chars| && i + pos <= |vals|
        invariant forall p | 0 <= p < |vals| ::
          vals[p] == if i <= p < i + pos then [chars[p - i]] else old(vals)[p]
        invariant forall p | 0 <= p < |vals| ::
          restore[p] == if i <= p < i + pos then [chars[p - i]] else old(restore)[p]
        invariant sink == old(sink) && focus == old(focus)
      {
        if pos + i >= |vals| {
          break;
        }
        vals := vals[pos + i := [chars[pos]]];
        restore := restore[pos + i := [chars[pos]]];
        pos := pos + 1;
      }
      assert vals == Pasted(old(vals), i, chars);
      assert restore == Pasted(old(restore), i, chars);
      focus := Some(Min(|vals| - 1, i + |chars|));
    }

    /** The Delete branch of the `keydown` handler: every cell from `from` up to the
        last but one takes its right neighbour's value, which also becomes its
        restore entry; the last cell and its restore entry are emptied. */
    method ShiftLeft(from: nat)
      requires Valid() && |vals| > 0
      modifies this
      ensures Valid() && vals == Shifted(old(vals), from)
      ensures |restore| == |vals| && forall p | 0 <= p < |vals| ::
        restore[p] == if from <= p || p == |vals| - 1 then vals[p] else old(restore)[p]
      ensures sink == old(sink) && focus == old(focus)
    {
      var pos := from;
      while pos < |vals| - 1
        invariant Valid() && |vals| == |old(vals)|
        invariant from <= pos && (pos == from || pos <= |vals| - 1)
        invariant forall p | from <= p < pos && p + 1 < |vals| :: vals[p] == old(vals)[p + 1]
        invariant forall p | 0 <= p < |vals| && !(from <= p < pos) :: vals[p] == old(vals)[p]
        invariant forall p | from <= p < pos && p + 1 < |vals| :: restore[p] == vals[p]
        invariant forall p | 0 <= p < |vals| && !(from <= p < pos) :: restore[p] == old(restore)[p]
        invariant sink == old(sink) && focus == old(focus)
      {
        vals := vals[pos := vals[pos + 1]];
        restore := restore[pos := vals[pos]];
        pos := pos + 1;
      }
      vals := vals[|vals| - 1 := ""];
      restore := restore[|restore| - 1 := ""];
      assert vals == Shifted(old(vals), from);
    }

    /** The `input` handler of cell i, run after the cell's displayed text became `raw`. */
    method OnInput(i: nat, raw: string)
      requires Valid() && i < |vals|
      modifies this
      ensures Valid() && |vals| == |old(vals)|
      // not numeric: the cell falls back to its restore entry and the sink is refreshed
      ensures !IsNumeric(raw) ==>
        vals == old(vals)[i := old(restore)[i]] && restore == old(restore)
        && focus == old(focus) && sink == Mirror(old(sink), Logical(vals, " "))
      // one digit: saved, focus to the next cell if there is one, sink refreshed
      ensures IsNumeric(raw) && |raw| == 1 ==>
        vals == old(vals)[i := raw] && restore == old(restore)[i := raw]
        && sink == Mirror(old(sink), Logical(vals, " "))
        && focus == if i + 1 < |vals| then Some(i + 1) else old(focus)
      // emptied: the empty value is saved and the sink refreshed
      ensures raw == "" ==>
        vals == old(vals)[i := ""] && restore == old(restore)[i := ""]
        && focus == old(focus) && sink == Mirror(old(sink), Logical(vals, " "))
      // several digits in the last cell: cut to the first one
      ensures IsNumeric(raw) && |raw| > 1 && i == |vals| - 1 ==>
        vals == old(vals)[i := First(raw)] && restore == old(restore)[i := First(raw)]
        && sink == Mirror(old(sink), Logical(vals, " ")) && focus == old(focus)
      // several digits elsewhere: distributed over cells i, i+1, ..., sink left as it was
      ensures IsNumeric(raw) && |raw| > 1 && i < |vals| - 1 ==>
        vals == Pasted(old(vals), i, raw) && restore == Pasted(old(restore), i, raw)
        && sink == old(sink) && focus == Some(Min(|vals| - 1, i + |raw|))
      ensures old(CellsOk()) ==> CellsOk()
      // rollback is exact when the restore entry was in step with the cell
      ensures !IsNumeric(raw) && old(restore)[i] == old(vals)[i] ==> vals == old(vals)
    {
      vals := vals[i := raw];  // what the browser shows when the event fires
      if !IsNumeric(raw) {
        vals := vals[i := restore[i]];
        UpdateValue();
        return;
      }
      if |raw| == 1 {
        restore := restore[i := vals[i]];
        if i + 1 < |vals| {
          focus := Some(i + 1);
        }
        UpdateValue();
        return;
      }
      if |raw| == 0 {
        restore := restore[i := ""];
        UpdateValue();
        return;
      }
      if i == |vals| - 1 {
        vals := vals[i := First(vals[i])];
        restore := restore[i := vals[i]];
        UpdateValue();
        return;
      }
      Distribute(i, raw);
    }

    /** The `keydown` handler of cell i, with the caret at selStart .. selEnd
        (an unknown caret passed as 0). */
    method OnKeyDown(i: nat, key: Key, selStart: nat, selEnd: nat) returns (effect: KeyEffect)
      requires Valid() && i < |vals|
      modifies this
      ensures Valid() && |vals| == |old(vals)|
      // Backspace in an empty cell other than the first clears the previous cell,
      // leaves its restore entry as it was, focuses it and refreshes the sink
      ensures key == Backspace && old(vals)[i] == "" && i != 0 ==>
        vals == old(vals)[i - 1 := ""] && restore == old(restore)
        && sink == Mirror(old(sink), Logical(vals, " "))
        && focus == Some(i - 1) && effect == NoEffect
      // Delete outside the last cell shifts the cells from i + selStart one to the left
      ensures key == Delete && i != |vals| - 1 ==>
        vals == Shifted(old(vals), i + selStart)
        && (forall p | 0 <= p < |vals| ::
              restore[p] == if i + selStart <= p || p == |vals| - 1 then vals[p] else old(restore)[p])
        && sink == Mirror(old(sink), Logical(vals, " ")) && focus == old(focus)
        && effect == KeyEffect(true, false, Some(selStart))
      // Left with the caret at 0: to the previous cell if any; the sink is refreshed either way
      ensures key == Left && selStart == 0 ==>
        vals == old(vals) && restore == old(restore)
        && sink == Mirror(old(sink), Logical(vals, " "))
        && focus == (if i > 0 then Some(i - 1) else old(focus))
        && effect == (if i > 0 then KeyEffect(true, true, None) else NoEffect)
      // Right with the caret at the end: to the next cell if any; the sink is refreshed either way
      ensures key == Right && selEnd == |old(vals)[i]| ==>
        vals == old(vals) && restore == old(restore)
        && sink == Mirror(old(sink), Logical(vals, " "))
        && focus == (if i + 1 < |vals| then Some(i + 1) else old(focus))
        && effect == (if i + 1 < |vals| then KeyEffect(true, true, None) else NoEffect)
      // in every other case nothing changes
      ensures (!(key == Backspace && old(vals)[i] == "" && i != 0)
        && !(key == Delete && i != |vals| - 1)
        && !(key == Left && selStart == 0)
        && !(key == Right && selEnd == |old(vals)[i]|)) ==>
        vals == old(vals) && restore == old(restore) && sink == old(sink)
        && focus == old(focus) && effect == NoEffect
      ensures old(CellsOk()) ==> CellsOk()
    {
      effect := NoEffect;
      if key == Backspace && vals[i] == "" && i != 0 {
        vals := vals[i - 1 := ""];
        focus := Some(i - 1);
        UpdateValue();
        return;
      }
      if key == Delete && i != |vals| - 1 {
        var s := selStart;
        ShiftLeft(i + s);
        effect := KeyEffect(true, false, Some(s));
        UpdateValue();
        return;
      }
      if key == Left && selStart == 0 {
        if i > 0 {
          focus := Some(i - 1);
          effect := KeyEffect(true, true, None);
        }
        UpdateValue();
        return;
      }
      if key == Right && selEnd == |vals[i]| {
        if i + 1 < |vals| {
          focus := Some(i + 1);
          effect := KeyEffect(true, true, None);
        }
        UpdateValue();
        return;
      }
    }
  }
}
