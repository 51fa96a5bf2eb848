# OTP box group — a Dafny model

The project models the two implementations of a multi-box one-time-passcode
input. Both keep a row of N single-character text inputs consistent as one
numeric code. Each cell has a displayed value and a rollback ("restore") memory.
An optional sink field mirrors the code.

- `vanilla-otp.js` is the later variant. It has a configurable `emptyChar`,
  sends every cell write through `_setInputValue` / `_saveInputValue`, and has
  a public `setValue`.
- `otp-input-group.js` is the earlier variant. It writes cells and restore
  memory inline, and it pads empty cells with a space.

Files:

- `otp_cells.dfy`, module `OtpCells`: the shared vocabulary.
  - `IsNumeric` stands in for `!isNaN`.
  - `First` stands in for `substring(0, 1)`.
  - `Logical(cells, pad)` is the code a row stands for; `getValue` computes it.
  - `Pasted` and `Shifted` give the cells after the two bulk edits, paste
    distribution and the Delete shift.
  - The lemmas relate these to the logical value.
- `vanilla_otp.dfy`, module `Vanilla`:
  - class `VanillaOtp` holds the fields `vals`, `restore`, `focus`, `sink` and
    `emptyChar`;
  - `ShiftInto` is the Delete loop as it runs through `_setInputValue`.
- `otp_input_group.dfy`, module `InputGroup`: class `OtpInputGroup`, with the
  same state minus `emptyChar`.
- `scenarios.dfy`, module `Scenarios`: client methods. Each one plays a short
  sequence of events and pins the outcome. The `ensures` of the handlers alone
  determine it.

How the model is built:

- **Cells.** Each class holds the cells as `seq<string>` fields that its methods
  reassign. An unset `dataset.otpInputRestore` is `""`, because the source
  always reads it as `restore || ""`.
- **Focus.** `focus` is the cell that the group last called `focus()` on. It is
  `None` until the group moves focus.
- **Sink.** `sink` is `None` when no `updateTo` field is bound.
- **Input handler.** `OnInput(i, raw)` models the `input` listener of cell i.
  It first stores `raw` in the cell, which is what the browser shows when the
  event fires, and then runs the handler body.
- **Keydown handler.** `OnKeyDown(i, key, selStart, selEnd)` models the
  `keydown` listener. An unknown caret is passed as 0. It returns a `KeyEffect`
  that says:
  - whether `preventDefault()` was called;
  - whether the newly focused cell was `select()`ed;
  - which caret offset was written back.

Invariants:

- **Alphabet.** `CellsOk()`: every cell and every restore entry is empty or a
  single digit. Every handler and `SetValue` keep it (`old(CellsOk()) ==>
  CellsOk()`).
- **Sync.** `Synced()`: the restore memory equals the cells. The later variant
  keeps it. The earlier variant does not: Backspace clears the previous cell but
  leaves its restore entry stale. `Scenarios.BackspaceThenLetter` shows the
  result: in the earlier variant, a letter typed into that cell brings back the
  erased digit.
- **Sink mirror.** The sink shows the logical value after most operations, but
  the code does not make this hold everywhere:
  - the later variant does not refresh the sink when a cell is emptied (the
    `length == 0` branch only saves);
  - the earlier variant does not refresh the sink after a paste;
  - the later variant's `setEmptyChar` changes every empty position of the
    logical value without refreshing the sink.

  The contracts state `sink == old(sink)` in those three cases.

Where the code and the behaviour one might read from its comments differ, the
model follows the code:

- the paste branch only calls `focus()` on the target cell and does not select
  it;
- in the earlier variant, Backspace writes the cell but not its restore memory;
- the earlier variant's Left and Right branches refresh the sink even when focus
  does not move.

`IsNumeric(s)` is "every character is a decimal digit", so `""` is numeric.
JavaScript's `isNaN` also accepts strings such as `" "`, `" 5"`, `"1.5"`,
`"-1"` and `"1e3"`. With those, the source would let spaces, dots or signs into
cells. Every property here is stated relative to `IsNumeric`.

## Model

| member | source | states |
|---|---|---|
| `OtpCells.First` | vanilla-otp.js:157 | `substring(0, 1)` yields at most one character. It is a prefix of its input and empty exactly when the input is. For a numeric input it is an accepted cell (empty or one digit). |
| `OtpCells.LogicalLength` | vanilla-otp.js:126-133 | When every cell holds at most one character and the pad is one character, the logical value has exactly N characters. |
| `OtpCells.LogicalAt` | vanilla-otp.js:130 | Character k of the logical value is cell k's character, or the pad character when cell k is empty. |
| `OtpCells.LogicalChars` | otp-input-group.js:128-138 | The same characterisation, for every position at once: the length is N and each position shows its cell or the pad. |
| `OtpCells.LogicalOfDigits` | vanilla-otp.js:126-133 | Suppose the cells are accepted and the pad is not a digit. Then the logical value determines the row: cell k is `""` where the value shows the pad, and the shown digit otherwise. |
| `OtpCells.PasteLogical` | vanilla-otp.js:60-72 | After distributing `chars` from cell i, position p of the logical value shows `chars[p-i]` for i <= p < i+\|chars\| and p < N. Every other position is unchanged, and characters past the last cell are dropped. |
| `OtpCells.ShiftLogical` | otp-input-group.js:84-98 | A Delete at logical position `from` < N removes that character from the logical value and appends one pad character at the end. |
| `OtpCells.SpreadLogical` | vanilla-otp.js:141-145 | Writing the characters of v into N empty cells gives a logical value of length N. Position k shows `v[k]` when k < \|v\| and the pad otherwise. |
| `OtpCells.SpreadRoundTrip` | vanilla-otp.js:135-146 | `setValue` followed by `getValue` returns v unchanged when v is exactly as long as the row. |
| `Vanilla.ShiftIntoAgrees` | vanilla-otp.js:84-91 | On a row of accepted cells, the Delete loop through `_setInputValue` is the plain left shift `Shifted`. |
| `Vanilla.VanillaOtp.constructor` | vanilla-otp.js:5-28 | The group is bound to the given cells, their given restore entries (`""` where unset) and the optional sink. There is no focus, `emptyChar` is `" "`, and nothing is written. |
| `Vanilla.VanillaOtp.GetValue` | vanilla-otp.js:126-133 | The accumulating loop returns `Logical(vals, emptyChar)`: each empty cell contributes `emptyChar` and each other cell its own text. |
| `Vanilla.VanillaOtp.SetEmptyChar` | vanilla-otp.js:122-124 | Only `emptyChar` changes. The cells, restore memory, focus and sink are untouched, so there is no refresh. |
| `Vanilla.VanillaOtp.UpdateValue` | vanilla-otp.js:171-173 | A bound sink now shows the logical value. An absent sink stays absent, and nothing else changes. |
| `Vanilla.VanillaOtp.SaveInputValue` | vanilla-otp.js:163-169 | For k < N, the restore entry k becomes cell k's value. Otherwise nothing changes ("Index not found"). |
| `Vanilla.VanillaOtp.SetInputValue` | vanilla-otp.js:148-161 | For a numeric v and k < N, cell k and its restore entry become `First(v)` and the sink is refreshed. For a non-numeric v or an index without a cell, nothing changes. Focus is never touched. |
| `Vanilla.VanillaOtp.SetValue` | vanilla-otp.js:135-146 | A non-numeric v changes nothing. Otherwise cell k holds `v[k]`, or `""` past the end of v, and the restore memory equals the cells. The sink is refreshed when N > 0, and afterwards every cell is accepted. |
| `Vanilla.VanillaOtp.Distribute` | vanilla-otp.js:59-72 | The cells and restore memory become `Pasted(old, i, chars)`, that is, cell i+pos gets `chars[pos]` while i+pos < N. The sink is refreshed, and focus goes to min(N-1, i+\|chars\|). |
| `Vanilla.VanillaOtp.ShiftLeft` | vanilla-otp.js:87-91 | The cells become `ShiftInto(old vals, old vals, from)` and the restore memory becomes `ShiftInto(old restore, old vals, from)`: cells from..N-2 take their right neighbour's old value through `_setInputValue`, and the last cell is `""`. The sink is refreshed and focus is unchanged. |
| `Vanilla.VanillaOtp.OnInput` | vanilla-otp.js:32-73 | Non-numeric text rolls cell i back to its restore entry. This changes no other cell, restore entry or focus, and refreshes the sink. Empty text saves `""` without refreshing the sink. One digit is saved, the sink is refreshed, and focus moves to i+1 exactly when i+1 < N. Several digits in the last cell are cut to the first, which is saved. Several digits in any other cell are distributed (`Pasted`), with focus at min(N-1, i+\|raw\|). The handler keeps the alphabet and sync invariants. While they are in sync, a rejected input leaves the cells exactly as before. |
| `Vanilla.VanillaOtp.OnKeyDown` | vanilla-otp.js:75-118 | Backspace in an empty cell i != 0 clears cell i-1 and its restore entry, refreshes the sink and focuses i-1. Delete in cell i != N-1 applies `ShiftInto` from i+selStart, refreshes the sink and prevents the default. It writes selStart back exactly when the caret is non-zero after the writes: selStart != 0, or cell i changed to a non-empty value, since such a write moves the caret to the end. Left with caret 0 and i > 0 focuses and selects i-1. Right with the caret at the end and i+1 < N focuses and selects i+1. In every other case nothing changes. The handler keeps both invariants. |
| `InputGroup.OtpInputGroup.constructor` | otp-input-group.js:3-25 | The group is bound to the given cells, their given restore entries (`""` where unset) and the optional sink. There is no focus, and nothing is written. |
| `InputGroup.OtpInputGroup.GetValue` | otp-input-group.js:128-138 | The concatenating loop returns `Logical(vals, " ")`: each empty cell contributes a space. |
| `InputGroup.OtpInputGroup.UpdateValue` | otp-input-group.js:124-126 | A bound sink now shows the space-padded logical value, and nothing else changes. |
| `InputGroup.OtpInputGroup.Distribute` | otp-input-group.js:57-72 | The cells and restore memory become `Pasted(old, i, chars)` and focus goes to min(N-1, i+\|chars\|). The sink is left as it was. |
| `InputGroup.OtpInputGroup.ShiftLeft` | otp-input-group.js:87-93 | The cells become `Shifted(old vals, from)`, a pure left shift over from..N-2 with the last cell emptied. Each shifted cell and the last cell have their restore entry equal to the new value, and the entries below `from` are kept. |
| `InputGroup.OtpInputGroup.OnInput` | otp-input-group.js:29-73 | Non-numeric text restores cell i from its restore entry, leaves the other cells untouched and refreshes the sink. One digit is saved, focus goes to i+1 when i+1 < N, and the sink is refreshed. Empty text saves `""` and refreshes the sink. Several digits in the last cell are cut to the first, which is saved. Several digits in any other cell are distributed without a sink refresh. The alphabet invariant is kept. |
| `InputGroup.OtpInputGroup.OnKeyDown` | otp-input-group.js:75-120 | Backspace in an empty cell i != 0 sets cell i-1 to `""`, leaves all restore entries unchanged, focuses i-1 and refreshes the sink. Delete shifts from i+selStart, keeps the caret at selStart, prevents the default and refreshes the sink. Left at caret 0 and Right at the caret end move and select when a neighbour exists, and refresh the sink either way. Other keys change nothing. |
| `Scenarios.TypeFirstDigit` | vanilla-otp.js:44-50 | With six empty cells, typing "1" into cell 0 keeps it, moves focus to cell 1 and gives the logical value "1" followed by five spaces. |
| `Scenarios.DeleteAtStart` | vanilla-otp.js:84-96 | With cells "1234", Delete at cell 0 and caret 0 gives "2", "3", "4", "" in both variants (also otp-input-group.js lines 84-98), and both write the caret back as 0. In the later variant the rewrite of cell 0 moved its caret to the end, so the guard passes. |
| `Scenarios.PasteOverflow` | otp-input-group.js:57-72 | Pasting "56789" into four empty cells gives "5", "6", "7", "8" and focus on cell 3. The later variant's sink shows "5678", while the earlier variant's sink is not refreshed. |
| `Scenarios.RejectLetter` | otp-input-group.js:30-41 | After "5" is typed into cell 1, typing "x" there reverts it to "5", and the sink shows " 5  ". |
| `Scenarios.SetShortCode` | vanilla-otp.js:135-146 | `setValue("42")` on four cells gives "4", "2", "", "", and the sink shows "42  ". |
| `Scenarios.BackspaceThenLetter` | otp-input-group.js:77-81 | Type "1" into cell 0, press Backspace in the empty cell 1, then type "x" into cell 0. The later variant leaves cell 0 empty. The earlier variant's stale restore entry brings the "1" back. |

## Left out

- Constructor DOM resolution is not modelled: selector lookup, the
  `instanceof Element` test, the silent return without a container, and the
  input-type filter. The filter differs between the variants: text, number and
  password inputs in one, text and number in the other. The constructors
  start from the list of bound cells and an optional sink value.
- `addEventListener` wiring and the closures are not modelled. Each listener is
  a method that takes the cell index explicitly.
- The browser effects of `focus()`, `select()` and `preventDefault()` are
  recorded only as the `focus` field and the `KeyEffect` flags.
- `console.error` diagnostics are no-ops on their error paths.
- The exact `isNaN` coercion is replaced by `IsNumeric` (see above). For the
  same reason, `setValue` takes a string: the `"" + value` conversion of
  numbers, and with it inputs such as `-1`, is not modelled.
- Null captured as `selectionStart`, as for number inputs, is not modelled.
  Carets are naturals and unknown is passed as 0. Real null makes a difference
  in five places:
  - the earlier variant's Left test `selectionStart == 0` (otp-input-group.js:102)
    fails on null, while the model with caret 0 moves left;
  - the earlier variant's Right test `selectionEnd == input.value.length`
    (otp-input-group.js:112) fails on null, while the model with caret 0 moves
    right out of an empty cell;
  - the later variant's Right test (vanilla-otp.js:110) passes on null whatever
    `selectionEnd` is, while the model moves right only when that caret equals
    the cell's length;
  - the earlier variant's Delete computes `i + null`, which is i, but the
    unguarded write `input.selectionStart = selectionStart`
    (otp-input-group.js:96) throws on the number inputs this variant binds
    (otp-input-group.js:22), so `preventDefault()` and `updateValue()`
    (otp-input-group.js:97-98) do not run after the shift and the sink is not
    refreshed; the model always completes the branch;
  - the later variant's Delete on a number input (bound at vanilla-otp.js:25)
    never writes the caret back, because `input.selectionStart` is still null at
    the guard (vanilla-otp.js:94); the model with caret 0 records `Some(0)` when
    cell i changed to a non-empty value.
  The later variant's Left test `selectionStart == null || …`
  (vanilla-otp.js:100) passes on null, as the model's test passes on 0.
- Initial restore entries: the constructors take the cells' restore entries as
  they are when the group is bound, with `""` for an unset entry, and check
  nothing about them; the alphabet and sync invariants then hold only if the
  caller's row satisfies them.
- Vanilla.VanillaOtp.SetValue: the later variant writes the sink once per cell
  write, but only the sink's final content is modelled, not the number of
  writes.
- The optional second argument of `_saveInputValue` is never passed by any
  caller, so `SaveInputValue` always saves the cell's value. Indexes are
  naturals, since no caller passes a negative one.
- Operations run to completion one at a time, as the single-threaded event
  loop guarantees, so no interleaving is modelled.
