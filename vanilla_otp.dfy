/** The later variant of the OTP box group (vanilla-otp.js): a configurable empty
    character, every cell write routed through SetInputValue / SaveInputValue, and a
    public SetValue. */
module Vanilla {
  import opened OtpCells

  /** `target` (the cells or their restore memory) after positions `from` up to
      `upto` - 1 have each been written through SetInputValue with their right
      neighbour's value in `src`: a numeric neighbour gives its first character,
      any other is refused and the position keeps its old entry. */
  function CommitRange(target: seq<string>, src: seq<string>, from: nat, upto: nat): (r: seq<string>)
    requires |target| == |src|
  {
    seq(|src|, p requires 0 <= p < |src| =>
      if from <= p < upto && p + 1 < |src| && IsNumeric(src[p + 1]) then First(src[p + 1])
      else target[p])
  }

  /** One more iteration of the Delete loop extends the committed range by one cell. */
  lemma CommitRangeStep(target: seq<string>, src: seq<string>, from: nat, pos: nat)
    requires |target| == |src| && from <= pos && pos + 1 < |src|
    ensures CommitRange(target, src, from, pos + 1) ==
      if IsNumeric(src[pos + 1]) then CommitRange(target, src, from, pos)[pos := First(src[pos + 1])]
      else CommitRange(target, src, from, pos)
  {
  }

  /** An empty range commits nothing. */
  lemma CommitRangeEmpty(target: seq<string>, src: seq<string>, from: nat, upto: nat)
    requires |target| == |src| && upto <= from
    ensures CommitRange(target, src, from, upto) == target
  {
  }

  /** `target` after the whole Delete loop of this variant, from `from` up to the
      last but one cell, followed by the write of "" into the last cell. */
  function ShiftInto(target: seq<string>, src: seq<string>, from: nat): (r: seq<string>)
    requires |target| == |src| && |src| > 0
  {
    CommitRange(target, src, from, |src| - 1)[|src| - 1 := ""]
  }

  /** On a row of accepted cells the committed shift is the plain left shift. */
  lemma ShiftIntoAgrees(cells: seq<string>, from: nat)
    requires AllCells(cells) && |cells| > 0
    ensures ShiftInto(cells, cells, from) == Shifted(cells, from)
  {
    var a, b := ShiftInto(cells, cells, from), Shifted(cells, from);
    forall p | 0 <= p < |cells|
      ensures a[p] == b[p]
    {
      if from <= p < |cells| - 1 {
        assert IsCell(cells[p + 1]);
      }
    }
  }

  class VanillaOtp {
    /** `inputs[k].value` for each cell k. */
    var vals: seq<string>
    /** `inputs[k].dataset.otpInputRestore`; "" while it is unset. */
    var restore: seq<string>
    /** The cell the group last moved focus to, if any. */
    var focus: Option<nat>
    /** `updateTo.value`; None when no sink is bound. */
    var sink: Option<string>
    var emptyChar: string

    ghost predicate Valid()
      reads this
    {
      |restore| == |vals| && (focus.Some? ==> focus.value < |vals|)
    }

    /** Every displayed value and every restore entry is empty or one digit. */
    ghost predicate CellsOk()
      reads this
    {
      AllCells(vals) && AllCells(restore)
    }

    /** Each restore entry is the cell's current value. */
    ghost predicate Synced()
      reads this
    {
      restore == vals
    }

    /** The group bound to cells whose displayed values are `initial`, whose restore
        entries are `initialRestore` ("" where none is set; the markup or an earlier
        group may have set some), and to an optional sink showing `sinkValue`; the
        constructor writes none of them. */
    constructor (initial: seq<string>, initialRestore: seq<string>, sinkValue: Option<string>)
      requires |initialRestore| == |initial|
      ensures Valid()
      ensures vals == initial && restore == initialRestore
      ensures focus == None && sink == sinkValue && emptyChar == " "
    {
      vals := initial;
      restore := initialRestore;
      focus := None;
      sink := sinkValue;
      emptyChar := " ";
    }

    /** `getValue`: the logical value, each empty cell shown as emptyChar. */
    method GetValue() returns (v: string)
      ensures v == Logical(vals, emptyChar)
    {
      v := "";
      var k := 0;
      while k < |vals|
        invariant k <= |vals|
        invariant v == Logical(vals[..k], emptyChar)
      {
        assert vals[..k + 1][..k] == vals[..k];
        v := v + (if vals[k] == "" then emptyChar else vals[k]);
        k := k + 1;
      }
      assert vals[..k] == vals;
    }

    method SetEmptyChar(ch: string)
      modifies this
      ensures emptyChar == ch
      ensures vals == old(vals) && restore == old(restore)
      ensures focus == old(focus) && sink == old(sink)
    {
      emptyChar := ch;
    }

    /** `_updateValue`: a bound sink is set to the logical value. */
    method UpdateValue()
      modifies this
      ensures sink == Mirror(old(sink), Logical(vals, emptyChar))
      ensures vals == old(vals) && restore == old(restore)
      ensures focus == old(focus) && emptyChar == old(emptyChar)
    {
      if sink.Some? {
        var v := GetValue();
        sink := Some(v);
      }
    }

    /** `_saveInputValue(k)`: the restore entry of cell k takes the cell's value;
        an index without a cell changes nothing. */
    method SaveInputValue(k: nat)
      requires Valid()
      modifies this
      ensures Valid() && vals == old(vals) && sink == old(sink)
      ensures restore == if k < |vals| then old(restore)[k := vals[k]] else old(restore)
      ensures focus == old(focus) && emptyChar == old(emptyChar)
    {
      if k >= |vals| {
        return;  // "Index not found."
      }
      restore := restore[k := vals[k]];
    }

    /** `_setInputValue(k, v)`: a numeric v is cut to its first character, shown in
        cell k and saved as its restore entry, and the sink is refreshed; a
        non-numeric v or an index without a cell changes nothing. */
    method SetInputValue(k: nat, v: string)
      requires Valid()
      modifies this
      ensures Valid() && |vals| == |old(vals)|
      ensures if IsNumeric(v) && k < |vals| then
          vals == old(vals)[k := First(v)] && restore == old(restore)[k := First(v)]
          && sink == Mirror(old(sink), Logical(vals, emptyChar))
        else
          vals == old(vals) && restore == old(restore) && sink == old(sink)
      ensures focus == old(focus) && emptyChar == old(emptyChar)
    {
      if !IsNumeric(v) {
        return;  // "Please enter an integer value."
      }
      if k >= |vals| {
        return;  // "Index not found."
      }
      vals := vals[k := First(v)];
      SaveInputValue(k);
      UpdateValue();
    }

    /** `setValue(v)`: a non-numeric v changes nothing; otherwise cell k is set
        through SetInputValue to the k-th character of v, or "" past its end. */
    method SetValue(v: string)
      requires Valid()
      modifies this
      ensures Valid() && |vals| == |old(vals)|
      ensures !IsNumeric(v) ==>
        vals == old(vals) && restore == old(restore) && sink == old(sink)
      ensures IsNumeric(v) ==>
        vals == Pasted(Blank(|vals|), 0, v) && restore == vals
        && sink == if |vals| == 0 then old(sink) else Mirror(old(sink), Logical(vals, emptyChar))
      ensures focus == old(focus) && emptyChar == old(emptyChar)
      ensures CellsOk() == (old(CellsOk()) || IsNumeric(v))
    {
      if !IsNumeric(v) {
        return;  // "Please enter an integer value."
      }
      var k := 0;
      while k < |vals|
        invariant Valid() && |vals| == |old(vals)| && k <= |vals|
        invariant forall p | 0 <= p < |vals| ::
          vals[p] == if p < k then (if p < |v| then [v[p]] else "") else old(vals)[p]
        invariant forall p | 0 <= p < |vals| ::
          restore[p] == if p < k then (if p < |v| then [v[p]] else "") else old(restore)[p]
        invariant sink == if k == 0 then old(sink) else Mirror(old(sink), Logical(vals, emptyChar))
        invariant focus == old(focus) && emptyChar == old(emptyChar)
      {
        var c := if k < |v| then [v[k]] else "";
        assert IsNumeric(c);
        SetInputValue(k, c);
        k := k + 1;
      }
      assert vals == Pasted(Blank(|vals|), 0, v);
      assert restore == vals;
    }

    /** The paste branch of the `input` handler: each character of
        `chars` is written through SetInputValue into cell i + pos while that cell
        exists, then focus goes to the cell after the pasted text, or the last cell. */
    method Distribute(i: nat, chars: string)
      requires Valid() && i < |vals| && IsNumeric(chars) && chars != ""
      modifies this
      ensures Valid() && |vals| == |old(vals)| && emptyChar == old(emptyChar)
      ensures vals == Pasted(old(vals), i, chars) && restore == Pasted(old(restore), i, chars)
      ensures sink == Mirror(old(sink), Logical(vals, emptyChar))
      ensures focus == Some(Min(|vals| - 1, i + |chars|))
    {
      var pos := 0;
      while pos < |chars|
        invariant Valid() && |vals| == |old(vals)|
        invariant 0 <= pos <= |chars| && i + pos <= |vals|
        invariant forall p | 0 <= p < |vals| ::
          vals[p] == if i <= p < i + pos then [chars[p - i]] else old(vals)[p]
        invariant forall p | 0 <= p < |vals| ::
          restore[p] == if i <= p < i + pos then [chars[p - i]] else old(restore)[p]
        invariant sink == if pos == 0 then old(sink) else Mirror(old(sink), Logical(vals, emptyChar))
        invariant focus == old(focus) && emptyChar == old(emptyChar)
      {
        if pos + i >= |vals| {
          break;
        }
        assert IsDigit(chars[pos]);
        SetInputValue(pos + i, [chars[pos]]);
        pos := pos + 1;
      }
      assert pos >= 1;
      assert vals == Pasted(old(vals), i, chars);
      assert restore == Pasted(old(restore), i, chars);
      focus := Some(Min(|vals| - 1, i + |chars|));
    }

    /** The `input` handler of cell i, run after the cell's displayed text became `raw`. */
    method OnInput(i: nat, raw: string)
      requires Valid() && i < |vals|
      modifies this
      ensures Valid() && |vals| == |old(vals)| && emptyChar == old(emptyChar)
      // not numeric: the cell falls back to its restore entry and the sink is refreshed
      ensures !IsNumeric(raw) ==>
        vals == old(vals)[i := old(restore)[i]] && restore == old(restore)
        && focus == old(focus) && sink == Mirror(old(sink), Logical(vals, emptyChar))
      // emptied: the empty value is saved, the sink is left as it was
      ensures raw == "" ==>
        vals == old(vals)[i := ""] && restore == old(restore)[i := ""]
        && focus == old(focus) && sink == old(sink)
      // one digit: saved, sink refreshed, focus to the next cell if there is one
      ensures IsNumeric(raw) && |raw| == 1 ==>
        vals == old(vals)[i := raw] && restore == old(restore)[i := raw]
        && sink == Mirror(old(sink), Logical(vals, emptyChar))
        && focus == if i + 1 < |vals| then Some(i + 1) else old(focus)
      // several digits in the last cell: cut to the first one
      ensures IsNumeric(raw) && |raw| > 1 && i == |vals| - 1 ==>
        vals == old(vals)[i := First(raw)] && restore == old(restore)[i := First(raw)]
        && sink == Mirror(old(sink), Logical(vals, emptyChar)) && focus == old(focus)
      // several digits elsewhere: distributed over cells i, i+1, ...
      ensures IsNumeric(raw) && |raw| > 1 && i < |vals| - 1 ==>
        vals == Pasted(old(vals), i, raw) && restore == Pasted(old(restore), i, raw)
        && sink == Mirror(old(sink), Logical(vals, emptyChar))
        && focus == Some(Min(|vals| - 1, i + |raw|))
      ensures old(CellsOk()) ==> CellsOk()
      ensures old(Synced()) ==> Synced()
      // rollback is exact while the restore memory is in step with the cells
      ensures !IsNumeric(raw) && old(Synced()) ==> vals == old(vals)
    {
      vals := vals[i := raw];  // what the browser shows when the event fires
      if !IsNumeric(raw) {
        vals := vals[i := restore[i]];
        UpdateValue();
        return;
      }
      if |raw| == 0 {
        SaveInputValue(i);
        return;
      }
      if |raw| == 1 {
        assert IsDigit(raw[0]) && IsCell(raw);
        SaveInputValue(i);
        UpdateValue();
        if i + 1 < |vals| {
          focus := Some(i + 1);
        }
        return;
      }
      if i == |vals| - 1 {
        assert IsCell(First(raw));
        SetInputValue(i, raw);
        return;
      }
      Distribute(i, raw);
      if old(CellsOk()) {
        PastedCells(old(vals), i, raw);
        PastedCells(old(restore), i, raw);
      }
    }

    /** The Delete branch of the `keydown` handler: every cell from `from` up to
        the last but one is written through SetInputValue with its right neighbour's
        value, then the last cell is set to "". */
    method ShiftLeft(from: nat)
      requires Valid() && |vals| > 0
      modifies this
      ensures Valid() && |vals| == |old(vals)| && emptyChar == old(emptyChar)
      ensures vals == ShiftInto(old(vals), old(vals), from)
      ensures restore == ShiftInto(old(restore), old(vals), from)
      ensures sink == Mirror(old(sink), Logical(vals, emptyChar)) && focus == old(focus)
    {
      ghost var v0, r0 := vals, restore;
      var pos := from;
      while pos < |vals| - 1
        invariant Valid() && |vals| == |v0| && from <= pos && (pos == from || pos <= |vals| - 1)
        invariant vals == CommitRange(v0, v0, from, pos)
        invariant restore == CommitRange(r0, v0, from, pos)
        invariant sink.Some? == old(sink).Some?
        invariant focus == old(focus) && emptyChar == old(emptyChar)
      {
        assert vals[pos + 1] == v0[pos + 1];
        CommitRangeStep(v0, v0, from, pos);
        CommitRangeStep(r0, v0, from, pos);
        SetInputValue(pos, vals[pos + 1]);
        pos := pos + 1;
      }
      if from >= |vals| - 1 {
        CommitRangeEmpty(v0, v0, from, |vals| - 1);
        CommitRangeEmpty(r0, v0, from, |vals| - 1);
        CommitRangeEmpty(v0, v0, from, pos);
        CommitRangeEmpty(r0, v0, from, pos);
      }
      SetInputValue(|vals| - 1, "");
    }

    /** The `keydown` handler of cell i, with the caret at selStart .. selEnd
        (an unknown caret passed as 0). On Delete the caret is tested again after
        the writes: a write that changes a text input's value moves its caret to the
        end of the new value, so cell i (rewritten only when selStart is 0) has a
        non-zero caret exactly when selStart is not 0 or its value changed to a
        non-empty one, and only then is selStart written back. */
    method OnKeyDown(i: nat, key: Key, selStart: nat, selEnd: nat) returns (effect: KeyEffect)
      requires Valid() && i < |vals|
      modifies this
      ensures Valid() && |vals| == |old(vals)| && emptyChar == old(emptyChar)
      // Backspace in an empty cell other than the first clears the previous cell and focuses it
      ensures key == Backspace && old(vals)[i] == "" && i != 0 ==>
        vals == old(vals)[i - 1 := ""] && restore == old(restore)[i - 1 := ""]
        && sink == Mirror(old(sink), Logical(vals, emptyChar))
        && focus == Some(i - 1) && effect == NoEffect
      // Delete outside the last cell shifts the cells from i + selStart one to the left
      ensures key == Delete && i != |vals| - 1 ==>
        vals == ShiftInto(old(vals), old(vals), i + selStart)
        && restore == ShiftInto(old(restore), old(vals), i + selStart)
        && sink == Mirror(old(sink), Logical(vals, emptyChar)) && focus == old(focus)
        && effect == KeyEffect(true, false,
             if selStart != 0 || (vals[i] != old(vals)[i] && vals[i] != "") then Some(selStart) else None)
      // Left with the caret at 0 moves to the previous cell and selects it
      ensures key == Left && selStart == 0 && i > 0 ==>
        vals == old(vals) && restore == old(restore) && sink == old(sink)
        && focus == Some(i - 1) && effect == KeyEffect(true, true, None)
      // Right with the caret at the end moves to the next cell and selects it
      ensures key == Right && selEnd == |old(vals)[i]| && i + 1 < |vals| ==>
        vals == old(vals) && restore == old(restore) && sink == old(sink)
        && focus == Some(i + 1) && effect == KeyEffect(true, true, None)
      // in every other case nothing changes
      ensures (!(key == Backspace && old(vals)[i] == "" && i != 0)
        && !(key == Delete && i != |vals| - 1)
        && !(key == Left && selStart == 0 && i > 0)
        && !(key == Right && selEnd == |old(vals)[i]| && i + 1 < |vals|)) ==>
        vals == old(vals) && restore == old(restore) && sink == old(sink)
        && focus == old(focus) && effect == NoEffect
      ensures old(CellsOk()) ==> CellsOk()
      ensures old(Synced()) ==> Synced()
    {
      effect := NoEffect;
      if key == Backspace && vals[i] == "" && i != 0 {
        SetInputValue(i - 1, "");
        focus := Some(i - 1);
        return;
      }
      if key == Delete && i != |vals| - 1 {
        var s := selStart;
        var before := vals[i];
        ShiftLeft(i + s);
        var caretNow := if s != 0 || vals[i] == before then s else |vals[i]|;
        effect := KeyEffect(true, false, if caretNow != 0 then Some(s) else None);
        return;
      }
      if key == Left && selStart == 0 {
        if i > 0 {
          focus := Some(i - 1);
          effect := KeyEffect(true, true, None);
        }
        return;
      }
      if key == Right && selEnd == |vals[i]| {
        if i + 1 < |vals| {
          focus := Some(i + 1);
          effect := KeyEffect(true, true, None);
        }
        return;
      }
    }
  }
}
