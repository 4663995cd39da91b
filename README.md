# Constant-divisor digit-recurrence divider generator, modelled in Dafny

`getModule(moduleName, divisor, inputWidth, radixWidth)` emits a SystemVerilog module
that divides an unsigned `inputWidth`-bit operand by the fixed `divisor`. It handles one
`radixWidth`-bit digit per clock cycle and looks up each long-division step in a
precomputed table instead of comparing and subtracting. This project models the
generator's logic and the arithmetic behaviour of the hardware it emits:

- `Parameters` (`parameters.dfy`): argument validation with its two `ValueError`s. Also
  the two derived localparams: `WIDTH_CARRY`, found by a linear search (a `while` loop,
  modelled as a method), and `NUM_SLICE`, a ceiling division.
- `LookupTable` (`lookup_table.dfy`): the entry rule and the table. `EmitTable` is the
  imperative loop that writes the entries from the highest index down, checks each
  remainder and closes the list with a literal 0. Lemmas show that the check never fails
  and that each live entry decodes back to `(i div d, i mod d)`.
- `Recurrence` (`recurrence.dfy`): one lookup `{carry, digit}`, and the fold of lookups
  from the most significant slice down. The fold, run on the generator's table, yields
  `value div d` as its quotient digits and `value mod d` as its final carry.
- `Control` (`control.dfy`): the emitted `always_comb` control block as a pure step
  function over the registers (IDLE / WORKING / DONE, flush, the two valid strobes).
  Quiet cycles from WORKING run exactly the `Recurrence` fold. The scan that picks the
  first slice and the carry-in is modelled in three readings: descending from the top
  slice, and ascending as its loop header is written, under four-state and under
  two-state reads of the out-of-range slice. With the descending scan, the
  divider raises `valid_o` with the quotient and remainder that the test bench expects
  (`Control.DividerComputesQuotient`). The scan as written can start in the wrong place
  (see "Findings").
- `DividerGen` (`divider_gen.dfy`): `GetModule` chains these steps and states which
  numbers the emitted text carries.
- `Arith` (`arith.dfy`): `2^n` and facts about division and remainder.

All operands are non-negative, so Dafny's `/` and `%` agree with Python's `//`, `%` and
`divmod` wherever they are used.

## Model

| member | source | states |
|---|---|---|
| `Parameters.Validate` | DividerGen.py:4-8 | Returns the positivity error exactly when some numeric argument is at most 0. Returns the radix error exactly when all three are positive and `2^radixWidth < divisor`. Otherwise it accepts, and the accepted request satisfies the request invariant. The positivity test takes precedence. |
| `Parameters.CarryWidth` | DividerGen.py:11-14 | The search loop ends with `c >= 1`, `2^c >= divisor`, and `2^c' < divisor` for every `1 <= c' < c`: the least such width. |
| `Parameters.CarryWidthUnique` | DividerGen.py:12-14 | Two widths that both meet the least-width definition are equal, so the carry width is a function of the divisor. |
| `Parameters.CarryWidthLeast` | DividerGen.py:12-14 | The carry width is at most every `c' >= 1` with `2^c' >= divisor`. |
| `Parameters.CarryWidthOfOne` | DividerGen.py:12-14 | For divisor 1 the carry width is exactly 1. |
| `Parameters.CarryWidthWithinRadix` | DividerGen.py:7-14 | After validation the carry width is at most the radix width. |
| `Parameters.SliceNum` | DividerGen.py:16 | `(inputWidth-1)//radixWidth + 1` is at least 1, with `(n-1)*radixWidth < inputWidth <= n*radixWidth`. |
| `Parameters.SliceNumIsCeiling` | DividerGen.py:16 | Any `n` with `(n-1)*r < inputWidth <= n*r` equals the slice count, so the slice count is the ceiling of `inputWidth / r`. |
| `Parameters.SliceNumRoundsUp` | DividerGen.py:16 | The slice count equals `(inputWidth + r - 1) div r`. |
| `LookupTable.TableEntry` | DividerGen.py:48-54 | The generator's entry for index `i` (no contract of its own). An index at or above `d*2^r` holds 0. Any other index holds `(i div d) mod 2^r` above `i mod d`. What the entry means is stated by `EntryDecodes`, `EntryFits` and `IndexZeroEntry`. |
| `LookupTable.Table` | DividerGen.py:46-56 | The table has `2^(r+c)` entries, and entry `i` is `TableEntry(d, r, c, i)`. This is a definition. The promises about the table are `EntryDecodes`, `EntryFits` and `IndexZeroEntry`. |
| `LookupTable.QuotientField` | DividerGen.py:103 | Bits `[r+c-1:c]` of an entry form a value below `2^r`. |
| `LookupTable.RemainderField` | DividerGen.py:104 | Bits `[c-1:0]` of an entry form a value below `2^c`. |
| `LookupTable.RemaindersFit` | DividerGen.py:49-53 | The condition of the `assert rem < 2**carryWidth` over the whole loop (a predicate with no contract of its own): every index `i` from 1 to `2^(r+c)-1` below `d*2^r` has `i mod d < 2^c`. |
| `LookupTable.EmitTable` | DividerGen.py:46-56 | The loop succeeds exactly when every live index from `2^(r+c)-1` down to 1 has a remainder below `2^c`. Otherwise it stops with the internal-consistency error. On success it writes `2^(r+c)` entries in descending index order, and position `k` holds the entry for index `2^(r+c)-1-k`, including the closing 0 for index 0. |
| `LookupTable.IndexZeroEntry` | DividerGen.py:56 | The literal 0 that closes the table is the entry the general rule gives for index 0. |
| `LookupTable.RemaindersAlwaysFit` | DividerGen.py:52-53 | When `2^c >= d`, the `assert rem < 2**carryWidth` holds at every live index. |
| `LookupTable.RemaindersFitOnlyIfWide` | DividerGen.py:52-53 | Conversely, with `r > 0`, if the check passes everywhere then `2^c >= d`. |
| `LookupTable.QuotientDigitFits` | DividerGen.py:52-54 | On a live index `i < d*2^r`, `i div d < 2^r`, so the `% 2**radixWidth` changes nothing. |
| `LookupTable.PackedEntry` | DividerGen.py:54 | For a live index the packed value `(i div d)*2^c + i mod d` is below `2^r*2^c`, and dividing it by `2^c` gives back both halves. |
| `LookupTable.EntryFits` | DividerGen.py:46-54 | When `2^c >= d`, every entry fits the declared `r+c` bits. |
| `LookupTable.EntryDecodes` | DividerGen.py:52-54 | On a live index, the entry's quotient field is `i div d` and its remainder field is `i mod d`. |
| `LookupTable.EntryAt` | DividerGen.py:46-54 | A live index `i < d*2^r` lies inside the table, and the table's entry there has quotient field `i div d` and remainder field `i mod d`. |
| `LookupTable.TableDecodes` | DividerGen.py:46-56 | When `2^c >= d`, the generator's table decodes: it has `2^(r+c)` entries and every live entry holds `i div d` above `i mod d`. |
| `LookupTable.IndexInTable` | DividerGen.py:96-97 | A `c`-bit carry concatenated above an `r`-bit digit indexes inside the table, with a non-negative index. |
| `LookupTable.LiveIndex` | DividerGen.py:49 | A carry below the divisor above any digit forms an index below `d*2^r`, which is never a dead slot. |
| `LookupTable.DivisorOneEntry` | DividerGen.py:48-54 | With divisor 1 and carry width 1, each live entry is the digit packed above remainder 0. |
| `Recurrence.Split` | DividerGen.py:62-67 | The operand is cut into exactly `n` digits, each below `2^r` (one `r`-bit slice each). What the digits are worth is `JoinSplit`. |
| `Recurrence.JoinSplit` | DividerGen.py:62-67 | Concatenating the digits of `v` gives `v mod 2^(r*n)`. |
| `Recurrence.Lookup` | DividerGen.py:97-100 | The read `LookupTable[{carry_q, value_q[slice_index_q]}]` at index `carry*2^r + digit` (no contract of its own). `LookupTable.IndexInTable` keeps that index inside the table. With a table that decodes, such as the generator's, `LookupDivides` states what it returns. |
| `Recurrence.LookupDivides` | DividerGen.py:96-104 | With any table that decodes (the generator's does, by `TableDecodes`) and a carry below `d`, one lookup gives quotient field `{carry,digit} div d` and remainder field `{carry,digit} mod d`. |
| `Recurrence.Divide` | DividerGen.py:97-104 | Folding lookups from the top digit down yields one quotient digit per slice, each below `2^r`, and a final carry below `2^c`. |
| `Recurrence.DividendStep` | DividerGen.py:97-104 | Long division at the top digit: with `x = carry*2^r + top digit`, `{carry, digits} div d` is `x div d` shifted to the top position plus the quotient of `{x mod d, lower digits}`, and the two dividends have the same remainder. |
| `Recurrence.DivideTop` | DividerGen.py:97-104 | With a table that decodes and a carry below `d`, the fold's top step writes `x div d` as the top quotient digit and passes `x mod d` down as the carry. |
| `Recurrence.DivideByTable` | DividerGen.py:97-104 | With a table that decodes and a starting carry below `d`, the quotient digits concatenate to `{carry, digits} div d`, and the final carry is `{carry, digits} mod d`. |
| `Recurrence.JoinAt` | DividerGen.py:84-94 | Cutting the digits at position `j` and joining the upper part first gives the same number. This is why a start below the top slice with the upper slices as the carry is sound. |
| `Recurrence.JoinZeros` | DividerGen.py:136 | Zero digits join to 0, so cleared result slices add nothing to the quotient. |
| `Recurrence.StartBelowTop` | DividerGen.py:84-104 | When the digits from `j` up form a number below `d`, folding the digits below `j` from that number as the carry yields the quotient and remainder of the whole dividend. |
| `Recurrence.OperandDigits` | DividerGen.py:62-67 | The `NUM_SLICE` digits of an operand below `2^inputWidth` join back to the operand. |
| `Recurrence.DividesOperand` | DividerGen.py:97-104 | For a valid request and an operand below `2^inputWidth`, folding over its `NUM_SLICE` digits from carry 0 yields `v div d` and remainder `v mod d`. |
| `Control.FirstSlice` | DividerGen.py:82-90 | The scan read as a descent from slice `NUM_SLICE-1` to 1. The slice found is at most the start. Every slice above the one that supplies the carry is zero, and that slice is below `d`. A start above 0 is justified: either its own slice is at least `d` or the slice above it is non-zero. |
| `Control.CarryIn` | DividerGen.py:94 | `carry_i` is below `2^c`, and it is the slice above the first one whenever that slice fits `c` bits. |
| `Control.ScanCarry` | DividerGen.py:82-94 | With `2^c >= d`, the carry-in the scan selects equals the number formed by all slices above the first slice, and it is below `d`. |
| `Control.AscendingScan` | DividerGen.py:82-90 | The scan as its loop header is written (`++j`), under four-state reads of out-of-range bits. With several slices and a zero top slice it returns 0. It differs from `FirstSlice` exactly when the top slice is zero and `FirstSlice` would start above slice 0. |
| `Control.TwoStateScan` | DividerGen.py:82-90 | The same loop under two-state reads, where `slice_zero[NUM_SLICE]` and `slice_full[NUM_SLICE]` read 0. With one slice or a non-zero top slice it agrees with `FirstSlice`. With several slices and a zero top slice it returns the top slice `NUM_SLICE-1`. |
| `Control.TwoStateScanDivides` | DividerGen.py:82-104 | Under two-state reads the loop as written still divides correctly: folding from its first slice and carry-in yields `{digits} div d` and `{digits} mod d`. |
| `Control.AscendingScanMisdivides` | DividerGen.py:82-104 | For divisor 3, 2-bit slices and the operand 12, the ascending scan starts at slice 0 with carry 3, and the fold yields quotient 0 where `12 div 3 = 4`. |
| `Control.ScanDivides` | DividerGen.py:82-104 | Starting the fold at the slice and carry-in the descending scan selects yields `{digits} div d` and `{digits} mod d`. |
| `Control.AfterFlush` | DividerGen.py:165-167 | A flush overrides the next state the case analysis chose, and forces IDLE (no contract of its own; `Step` states the override). |
| `Control.Step` | DividerGen.py:124-168 | A flush forces IDLE. `valid_o` is raised exactly in DONE, and `valid_next_o` exactly in WORKING at slice 0. WORKING stores the quotient digit at its slice and takes the remainder as the next carry. It then moves down one slice, or from slice 0 to DONE. IDLE and DONE clear the result. With `valid_i` they latch the carry-in and first slice and go to WORKING; without it they go to IDLE. The operand register relatches whenever `valid_i` is high. Registers keep their widths. |
| `Control.Run` | DividerGen.py:124-168 | Any number of quiet cycles keeps the registers within their declared widths. |
| `Control.WorkingRunsRecurrence` | DividerGen.py:143-152 | From WORKING at slice `k`, `k+1` quiet cycles reach DONE. The carry is then the fold's final carry and result slices `0..k` hold the fold's quotient digits. The slices above `k` and the operand are unchanged. |
| `Control.Accept` | DividerGen.py:135-141 | A cycle in IDLE or DONE with `valid_i` and no flush loads the operand, the first slice and the carry-in, clears the result and enters WORKING. |
| `Control.JoinPadded` | DividerGen.py:136-146 | Cleared result slices above the quotient digits leave the quotient unchanged. |
| `Control.AcceptAndRun` | DividerGen.py:135-152 | From the state an accepting cycle loads (first slice `f`, carry-in `ci`), `f+1` quiet cycles reach DONE. The result then holds the fold of slices `f..0` from `ci`, and the cleared slices above `f` add nothing. |
| `Control.ScanAcceptAndRun` | DividerGen.py:82-152 | For digits joining to `v`, `ServesQuotient` holds with the generator's table: accepting the digits at the scanned slice and carry-in, then `f+1` quiet cycles, gives DONE with `valid_o`, quotient `v div d` and carry `v mod d`. |
| `Control.DividerComputesQuotient` | test/tester.cpp:106-134 | `ServesQuotient` for the operand's `NUM_SLICE` digits. For a valid request, the generator's table and an operand below `2^inputWidth`, accepted with the descending scan's first slice and carry-in: after `f+1` quiet cycles the module is in DONE. There `valid_o` is high, the quotient slices concatenate to `v div d` and the carry is `v mod d`, which is what the test bench compares. |
| `DividerGen.GetModule` | DividerGen.py:3-56 | Fails with the positivity error or the radix error exactly as validation does, and never with the internal-consistency error. On success it carries the request, the least carry width (at most the radix width), the ceiling slice count, and `2^(r+c)` table entries in descending index order, each matching the entry rule and fitting `r+c` bits. Read backwards, the listing is `Table(d, r, c)`. |
| `DividerGen.DivideThreeByTwoBitDigits` | DividerGen.py:12-56 | For divisor 3, a 4-bit operand and a 2-bit radix: carry width 2, two slices, 16 entries, entry 5 is 6, and entries 12 to 15 are 0. |

## Left out

- The command-line entry point and `printUsage` (DividerGen.py:191-204). They are
  argument parsing and printing.
- The text of the emitted module: port declarations, `localparam` lines, the `N'dV`
  literal syntax, the per-entry comments and the fixed template text (DividerGen.py:21-43,
  55, 59-188). `GetModule` returns the numbers that the text carries, not the text.
- The `slice_zero` and `slice_full` vectors (DividerGen.py:71-79) are not separate
  members. `Control.FirstSlice` tests `s[j] != 0` and `s[j] >= d` directly.
  `Control.Step` takes `slice_index_first` and `carry_i` as inputs of the cycle, and
  `Control.DividerComputesQuotient` feeds it the values the descending scan computes.
- Control.AscendingScan: models the four-state reading of the loop as written, where
  out-of-range bits read `x` and the branch is not taken. The two-state reading
  (Verilator, which test/tester.cpp drives) is `Control.TwoStateScan`. There the branch is
  taken at `j = NUM_SLICE`, which gives `slice_index_first = NUM_SLICE-1` and
  `carry_i = 0`. `Control.TwoStateScanDivides` proves that start correct. Which reading
  a given simulator follows is not modelled.
- The `assert rem < 2**carryWidth` (DividerGen.py:53) raises `AssertionError`, not a
  `ValueError`, and `python -O` removes it. `LookupTable.EmitTable` always checks it and
  returns `InternalInconsistency`. `LookupTable.RemaindersAlwaysFit` with
  `DividerGen.GetModule` shows that this error never occurs, so stripping the assert
  changes nothing.
- Clocked register semantics and the asynchronous active-low reset (DividerGen.py:170-184).
  `Step` gives the values the registers take at the next edge.
- Bit-level widths of the registers. `slice_index_q` is `$clog2(NUM_SLICE)` bits wide;
  its wrap-around and out-of-range packed-array writes are not modelled, because the
  index is kept below `NUM_SLICE`.
- `quotient_o` is the low `inputWidth` bits of the result slices (DividerGen.py:110-115).
  The model states the quotient as a whole number. Since `v div d <= v < 2^inputWidth`,
  the truncation loses nothing.
- `remainder_o` (DividerGen.py:108-109) is the zero-extended carry only when
  `inputWidth > carryWidth`. Validation also accepts `inputWidth <= carryWidth`, for
  example `d = 3`, `inputWidth = 2`, `radixWidth = 2` (carry width 2). There line 108
  becomes the reversed part-select `remainder_o[1:2]`, and line 109 writes `carryWidth`
  bits into a narrower port when `inputWidth < carryWidth` (`d = 5`, `inputWidth = 2`,
  `radixWidth = 3`). The emitted text is not modelled, so this possible defect is
  recorded here only. The model states the remainder as the whole carry.
- Determinism needs no separate lemma. Every field of a successful `GetModule` result is
  fixed by its postcondition, and `Parameters.CarryWidthUnique` fixes the carry width.
- test/tester.cpp (a Verilator test bench with signals, timers and random operands) is not part of
  this model. Its quotient and remainder check is stated by
  `Control.DividerComputesQuotient`.

## Findings

| source | as written | input that shows it | evidently intended | confidence | as-written member | corrected member |
|---|---|---|---|---|---|---|
| DividerGen.py:84 | The scan loop steps `j` upward (`++j`) from `NUM_SLICE-1` while `j > 0`. After the top slice it reads `slice_zero[j]` out of range (`x` in four-state simulation, branch not taken) until `j` wraps to 0. The first slice is then 0, with `carry_i` taken from slice 1. | `divisor = 3`, `inputWidth = 6`, `radixWidth = 2`, operand 12 (slices 0, 3, 0): the start is slice 0 with carry 3, and the quotient is 0 instead of 4 | a descending scan (`--j`) that stops at the highest non-zero slice | not executed; needs four-state reads of out-of-range bits. Under two-state reads (Verilator, which test/tester.cpp drives) the branch is taken at `j = NUM_SLICE`, so the start is the top slice with carry 0, which `Control.TwoStateScanDivides` proves correct. The test bench would therefore not show the defect. | `Control.AscendingScanMisdivides` | `Control.FirstSlice`, with `Control.DividerComputesQuotient` |
