/** Clients of the two groups: concrete event sequences whose outcome follows
    from the handlers' contracts alone. */
module Scenarios {
  import opened OtpCells
  import Vanilla
  import InputGroup

  /** Six empty cells, "1" typed into the first: it is kept, focus moves on and the
      logical value is "1" followed by five empty characters. */
  method TypeFirstDigit() returns (cells: seq<string>, focus: Option<nat>, value: string)
    ensures cells == ["1", "", "", "", "", ""] && focus == Some(1) && value == "1     "
  {
    var g := new Vanilla.VanillaOtp(Blank(6), Blank(6), None);
    g.OnInput(0, "1");
    cells, focus := g.vals, g.focus;
    value := g.GetValue();
    assert cells == ["1", "", "", "", "", ""];
    LogicalChars(cells, " ");
  }

  /** Four cells "1234", Delete in the first with the caret at 0: both variants
      shift to "234" and an empty last cell, and both write the caret back as 0:
      the later variant's rewrite of cell 0 from "1" to "2" moved its caret to the
      end, so its guard lets the write-back through. */
  method DeleteAtStart() returns (vanillaCells: seq<string>, groupCells: seq<string>, vanillaCaret: Option<nat>, groupCaret: Option<nat>)
    ensures vanillaCells == ["2", "3", "4", ""] && groupCells == ["2", "3", "4", ""]
    ensures vanillaCaret == Some(0) && groupCaret == Some(0)
  {
    var row := ["1", "2", "3", "4"];
    var v := new Vanilla.VanillaOtp(row, Blank(4), None);
    var e := v.OnKeyDown(0, Delete, 0, 0);
    Vanilla.ShiftIntoAgrees(row, 0);
    vanillaCells, vanillaCaret := v.vals, e.caret;
    assert vanillaCells == Shifted(row, 0);
    var g := new InputGroup.OtpInputGroup(row, Blank(4), None);
    e := g.OnKeyDown(0, Delete, 0, 0);
    groupCells, groupCaret := g.vals, e.caret;
  }

  /** Four empty cells, "56789" pasted into the first: one digit per cell, the "9"
      is dropped and focus lands on the last cell; the later variant also refreshes
      the sink, the earlier one leaves it as it was. */
  method PasteOverflow() returns (cells: seq<string>, focus: Option<nat>, vanillaSink: Option<string>, groupSink: Option<string>)
    ensures cells == ["5", "6", "7", "8"] && focus == Some(3)
    ensures vanillaSink == Some("5678") && groupSink == Some("")
  {
    var v := new Vanilla.VanillaOtp(Blank(4), Blank(4), Some(""));
    v.OnInput(0, "56789");
    vanillaSink := v.sink;
    var g := new InputGroup.OtpInputGroup(Blank(4), Blank(4), Some(""));
    g.OnInput(0, "56789");
    cells, focus, groupSink := g.vals, g.focus, g.sink;
    assert cells == ["5", "6", "7", "8"];
    assert v.vals == ["5", "6", "7", "8"];
    LogicalChars(v.vals, " ");
    assert Logical(v.vals, " ") == "5678";
  }

  /** "5" typed into the second cell, then "x" typed over it: the cell reverts to
      "5" and the sink shows the unchanged value. */
  method RejectLetter() returns (cells: seq<string>, sink: Option<string>)
    ensures cells == ["", "5", "", ""] && sink == Some(" 5  ")
  {
    var g := new InputGroup.OtpInputGroup(Blank(4), Blank(4), Some(""));
    g.OnInput(1, "5");
    g.OnInput(1, "x");
    cells, sink := g.vals, g.sink;
    assert cells == ["", "5", "", ""];
    LogicalChars(cells, " ");
    assert Logical(cells, " ") == " 5  ";
  }

  /** setValue("42") on four cells: "4", "2" and two empty cells, each saved as
      its restore entry, and the sink shows "42" padded with emptyChar. */
  method SetShortCode() returns (cells: seq<string>, sink: Option<string>)
    ensures cells == ["4", "2", "", ""] && sink == Some("42  ")
  {
    var v := new Vanilla.VanillaOtp(["9", "9", "9", "9"], Blank(4), Some(""));
    v.SetValue("42");
    cells, sink := v.vals, v.sink;
    assert cells == ["4", "2", "", ""];
    LogicalChars(cells, " ");
    assert Logical(cells, " ") == "42  ";
  }

  /** "1" typed into the first of two cells, Backspace in the (empty) second one,
      then "x" typed into the first. The later variant clears the restore entry on
      Backspace and the first cell stays empty; the earlier one left it stale and
      the erased "1" comes back. */
  method BackspaceThenLetter() returns (vanillaCells: seq<string>, groupCells: seq<string>)
    ensures vanillaCells == ["", ""] && groupCells == ["1", ""]
  {
    var v := new Vanilla.VanillaOtp(Blank(2), Blank(2), None);
    v.OnInput(0, "1");
    var e := v.OnKeyDown(1, Backspace, 0, 0);
    v.OnInput(0, "x");
    vanillaCells := v.vals;
    var g := new InputGroup.OtpInputGroup(Blank(2), Blank(2), None);
    g.OnInput(0, "1");
    e := g.OnKeyDown(1, Backspace, 0, 0);
    g.OnInput(0, "x");
    groupCells := g.vals;
  }
}
