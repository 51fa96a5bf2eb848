/** Values shared by both variants of the OTP box group: the cell alphabet,
    the logical value a row of cells stands for, and the two bulk edits
    (paste distribution and the Delete shift) as functions of the old cells. */
module OtpCells {

  datatype Option<T> = None | Some(value: T)

  /** The keys the keydown handlers react to (key codes 8, 46, 37, 39); every other key is Other. */
  datatype Key = Backspace | Delete | Left | Right | Other

  /** What a keydown handler does to the event and to the caret of its own cell:
      whether it prevented the browser's default action, whether it selected the
      whole content of the cell it moved focus to, and the caret offset it wrote back. */
  datatype KeyEffect = KeyEffect(prevented: bool, selectedAll: bool, caret: Option<nat>)

  const NoEffect: KeyEffect := KeyEffect(false, false, None)

  predicate IsDigit(c: char) { '0' <= c <= '9' }

  /** Stands in for JavaScript's `!isNaN(s)`: every character is a decimal digit,
      so the empty string is numeric. */
  predicate IsNumeric(s: string) {
    forall k | 0 <= k < |s| :: IsDigit(s[k])
  }

  /** `String(s).substring(0, 1)`: the first character, or "" for "". */
  function First(s: string): (r: string)
    ensures |r| <= 1 && r <= s
    ensures r == "" <==> s == ""
    ensures IsNumeric(s) ==> IsCell(r)
  {
    if s == "" then "" else [s[0]]
  }

  function Min(a: int, b: int): (r: int) { if a <= b then a else b }

  /** A cell content the group accepts durably: empty or a single digit. */
  predicate IsCell(s: string) {
    s == "" || (|s| == 1 && IsDigit(s[0]))
  }

  predicate AllCells(cells: seq<string>) {
    forall k | 0 <= k < |cells| :: IsCell(cells[k])
  }

  /** Every cell holds at most one character (true of any row of IsCell cells). */
  predicate AllShort(cells: seq<string>) {
    forall k | 0 <= k < |cells| :: |cells[k]| <= 1
  }

  /** A row of n empty cells. */
  function Blank(n: nat): (r: seq<string>) { seq(n, _ => "") }

  /** The sink after a refresh: an absent sink stays absent, a present one shows v. */
  function Mirror(sink: Option<string>, v: string): (r: Option<string>) {
    if sink.Some? then Some(v) else None
  }

  /** The logical value of a row: the cells concatenated in order, `pad` standing for an empty cell. */
  function Logical(cells: seq<string>, pad: string): (r: string) {
    if cells == [] then ""
    else
      var last := cells[|cells| - 1];
      Logical(cells[..|cells| - 1], pad) + (if last == "" then pad else last)
  }

  /** Cells after distributing `chars` from cell i on: cell i + pos receives chars[pos],
      characters that would land at or beyond the last cell are dropped, the rest is kept. */
  function Pasted(cells: seq<string>, i: nat, chars: string): (r: seq<string>) {
    seq(|cells|, p requires 0 <= p < |cells| =>
      if i <= p < i + |chars| then [chars[p - i]] else cells[p])
  }

  /** Pasting digits into accepted cells leaves every cell accepted. */
  lemma PastedCells(cells: seq<string>, i: nat, chars: string)
    requires AllCells(cells) && IsNumeric(chars)
    ensures AllCells(Pasted(cells, i, chars))
  {
  }

  /** Cells after a Delete at logical position `from`: each cell from `from` up to
      the last but one takes its right neighbour's old value, the last cell is emptied
      and the cells before `from` are kept. */
  function Shifted(cells: seq<string>, from: nat): (r: seq<string>) {
    seq(|cells|, p requires 0 <= p < |cells| =>
      if p == |cells| - 1 then "" else if from <= p then cells[p + 1] else cells[p])
  }

  lemma {:induction false} LogicalLength(cells: seq<string>, pad: string)
    requires AllShort(cells) && |pad| == 1
    ensures |Logical(cells, pad)| == |cells|
  {
    if cells != [] {
      LogicalLength(cells[..|cells| - 1], pad);
    }
  }

  /** Character k of the logical value is the digit of cell k, or the pad character when the cell is empty. */
  lemma {:induction false} LogicalAt(cells: seq<string>, pad: string, k: nat)
    requires AllShort(cells) && |pad| == 1 && k < |cells|
    ensures |Logical(cells, pad)| == |cells|
    ensures Logical(cells, pad)[k] == if cells[k] == "" then pad[0] else cells[k][0]
  {
    var n := |cells|;
    LogicalLength(cells, pad);
    LogicalLength(cells[..n - 1], pad);
    if k < n - 1 {
      LogicalAt(cells[..n - 1], pad, k);
    }
  }

  /** The logical value character by character, for every position at once. */
  lemma {:induction false} LogicalChars(cells: seq<string>, pad: string)
    requires AllShort(cells) && |pad| == 1
    ensures |Logical(cells, pad)| == |cells|
    ensures forall k | 0 <= k < |cells| ::
      Logical(cells, pad)[k] == if cells[k] == "" then pad[0] else cells[k][0]
  {
    LogicalLength(cells, pad);
    forall k | 0 <= k < |cells|
      ensures Logical(cells, pad)[k] == if cells[k] == "" then pad[0] else cells[k][0]
    {
      LogicalAt(cells, pad, k);
    }
  }

  /** With a pad character that is not a digit, the logical value determines the row it came from. */
  lemma {:induction false} LogicalOfDigits(cells: seq<string>, pad: string)
    requires AllCells(cells) && |pad| == 1 && !IsDigit(pad[0])
    ensures |Logical(cells, pad)| == |cells|
    ensures forall k | 0 <= k < |cells| ::
      cells[k] == (if Logical(cells, pad)[k] == pad[0] then "" else [Logical(cells, pad)[k]])
  {
    LogicalChars(cells, pad);
  }

  /** The logical value after a paste at cell i: positions i .. min(N-1, i+|chars|-1)
      show the pasted characters in order, every other position is unchanged. */
  lemma PasteLogical(cells: seq<string>, pad: string, i: nat, chars: string)
    requires AllShort(cells) && |pad| == 1
    ensures |Logical(cells, pad)| == |cells| && |Logical(Pasted(cells, i, chars), pad)| == |cells|
    ensures forall p | 0 <= p < |cells| ::
      Logical(Pasted(cells, i, chars), pad)[p] ==
        if i <= p < i + |chars| then chars[p - i] else Logical(cells, pad)[p]
  {
    var after := Pasted(cells, i, chars);
    assert AllShort(after);
    LogicalChars(cells, pad);
    LogicalChars(after, pad);
  }

  /** Delete at logical position `from` removes that character from the logical value
      and pads the code at its end. */
  lemma ShiftLogical(cells: seq<string>, pad: string, from: nat)
    requires AllShort(cells) && |pad| == 1 && from < |cells|
    ensures |Logical(cells, pad)| == |cells|
    ensures Logical(Shifted(cells, from), pad) ==
      Logical(cells, pad)[..from] + Logical(cells, pad)[from + 1..] + pad
  {
    var n := |cells|;
    LogicalLength(cells, pad);
    var before := Logical(cells, pad);
    var after := Logical(Shifted(cells, from), pad);
    var expected := before[..from] + before[from + 1..] + pad;
    assert AllShort(Shifted(cells, from));
    LogicalChars(cells, pad);
    LogicalChars(Shifted(cells, from), pad);
    assert |expected| == n;
    forall p | 0 <= p < n
      ensures after[p] == expected[p]
    {
      if p < from {
        assert expected[p] == before[p];
      } else if p < n - 1 {
        assert expected[p] == before[p + 1];
      } else {
        assert expected[p] == pad[0];
      }
    }
  }

  /** Writing the characters of v into a row of n empty cells gives the logical value
      v, cut to n characters or padded to n. */
  lemma SpreadLogical(n: nat, pad: string, v: string)
    requires |pad| == 1
    ensures |Logical(Pasted(Blank(n), 0, v), pad)| == n
    ensures forall k | 0 <= k < n ::
      Logical(Pasted(Blank(n), 0, v), pad)[k] == if k < |v| then v[k] else pad[0]
  {
    PasteLogical(Blank(n), pad, 0, v);
    LogicalChars(Blank(n), pad);
  }

  /** A code exactly as long as the row is read back unchanged. */
  lemma SpreadRoundTrip(v: string, pad: string)
    requires |pad| == 1
    ensures Logical(Pasted(Blank(|v|), 0, v), pad) == v
  {
    SpreadLogical(|v|, pad, v);
  }
}
