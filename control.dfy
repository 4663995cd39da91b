/**
 The three-state control of the emitted module as a pure step function: given the
 register contents and one cycle's inputs, it gives the register contents after the
 clock edge and the two valid strobes of that cycle. Two signals that the emitted
 module derives from a new operand, the first slice index and the carry-in, are taken
 as inputs of the cycle here.
 */
module Control {
  import opened Arith
  import opened Parameters
  import opened LookupTable
  import opened Recurrence

  datatype Phase = Idle | Working | Done

  /** `state_q`, `slice_index_q`, `carry_q`, `result_q` and `value_q`. Slices are indexed
      with 0 least significant. */
  datatype Regs = Regs(phase: Phase, sliceIndex: nat, carry: nat, result: seq<nat>, operand: seq<nat>)

  /** `flush_i`, `valid_i`, the operand cut into slices (`value_e`), and the values of
      `slice_index_first` and `carry_i` for that operand. */
  datatype Inputs = Inputs(flush: bool, valid: bool, operand: seq<nat>, firstIndex: nat, carryIn: nat)

  /** `valid_o` and `valid_next_o`. */
  datatype Outputs = Outputs(valid: bool, validNext: bool)

  datatype Cycle = Cycle(next: Regs, out: Outputs)

  /** Register contents of the declared widths: `n` slices of `r` bits, a `c`-bit carry
      and a slice index below `n`. */
  predicate RegsFit(r: nat, c: nat, n: nat, s: Regs) {
    s.sliceIndex < n && s.carry < Pow2(c) && |s.result| == n && |s.operand| == n &&
    Digits(r, s.result) && Digits(r, s.operand)
  }

  predicate InputsFit(r: nat, c: nat, n: nat, inp: Inputs) {
    |inp.operand| == n && Digits(r, inp.operand) && inp.firstIndex < n && inp.carryIn < Pow2(c)
  }

  /** The all-zero result register `'0`. */
  function Zeros(n: nat): (z: seq<nat>)
    ensures |z| == n && forall k | 0 <= k < n :: z[k] == 0
  {
    seq(n, _ => 0)
  }

  /** The flush input overrides whatever next state the case analysis chose. */
  function AfterFlush(flush: bool, chosen: Phase): Phase {
    if flush then Idle else chosen
  }

  /** The scan for the first slice to work on, read as a descent from slice `j` to
      slice 1 that stops at the first non-zero slice: that slice itself when it is at
      least the divisor, otherwise the slice below it (the slice found becomes the
      carry). Every slice above the one that supplies the carry is zero, and that one is
      below the divisor. */
  function FirstSlice(d: nat, s: seq<nat>, j: nat): (f: nat)
    requires d > 0 && j < |s| && forall k | j < k < |s| :: s[k] == 0
    ensures f <= j
    ensures forall k | f + 1 < k < |s| :: s[k] == 0
    ensures f + 1 < |s| ==> s[f + 1] < d
    ensures f > 0 ==> s[f] >= d || (f + 1 < |s| && s[f + 1] != 0)
    decreases j
  {
    if j == 0 then 0
    else if s[j] != 0 then (if s[j] >= d then j else j - 1)
    else FirstSlice(d, s, j - 1)
  }

  /** `carry_i`: 0 when the first slice is the top one, otherwise the low `c` bits of
      the slice above it. */
  function CarryIn(c: nat, s: seq<nat>, f: nat): (ci: nat)
    requires f < |s|
    ensures ci < Pow2(c)
    ensures f + 1 < |s| && s[f + 1] < Pow2(c) ==> ci == s[f + 1]
  {
    if f == |s| - 1 then 0
    else
      var x := s[f + 1];
      assert x < Pow2(c) ==> x % Pow2(c) == x by {
        if x < Pow2(c) { ModBelow(x, Pow2(c)); }
      }
      x % Pow2(c)
  }

  /** The carry-in chosen with the scan is exactly the number formed by the slices above
      the first one, and it is below the divisor: a legal place to start the recurrence. */
  lemma ScanCarry(d: nat, r: nat, c: nat, s: seq<nat>)
    requires d > 0 && Pow2(c) >= d && |s| > 0
    ensures var f := FirstSlice(d, s, |s| - 1);
      CarryIn(c, s, f) == Join(r, 0, s[f + 1..]) && CarryIn(c, s, f) < d
  {
    var f := FirstSlice(d, s, |s| - 1);
    var upper := s[f + 1..];
    if f + 1 < |s| {
      JoinAt(r, 0, upper, 1);
      JoinZeros(r, upper[1..]);
      assert upper[..1] == [s[f + 1]];
      assert Join(r, 0, [s[f + 1]]) == s[f + 1];
    } else {
      assert upper == [];
    }
  }

  /** The same scan as the emitted loop header is written, `j` starting at
      `NUM_SLICE - 1`, stepping up with `++j` while `j > 0`. Only the top slice is read
      in range; from `j = NUM_SLICE` on, four-state simulation reads `slice_zero[j]` as
      `x`, the branch is not taken, and the loop ends when the 32-bit `j` wraps round to
      0, leaving the first slice at 0. It differs from the descending scan exactly when the
      top slice is zero and the descending scan would start above slice 0. */
  function AscendingScan(d: nat, s: seq<nat>): (f: nat)
    requires d > 0 && |s| > 0
    ensures f < |s|
    ensures |s| == 1 || s[|s| - 1] != 0 ==> f == FirstSlice(d, s, |s| - 1)
    ensures |s| > 1 && s[|s| - 1] == 0 ==> f == 0
    ensures f != FirstSlice(d, s, |s| - 1) <==>
              |s| > 1 && s[|s| - 1] == 0 && FirstSlice(d, s, |s| - 1) > 0
  {
    var top := |s| - 1;
    if top > 0 && s[top] != 0 then (if s[top] >= d then top else top - 1) else 0
  }

  /** The scan as written under two-state reads, where the out-of-range bits
      `slice_zero[NUM_SLICE]` and `slice_full[NUM_SLICE]` read 0: a zero top slice lets
      `j` reach `NUM_SLICE`, where the branch is taken and picks `j - 1`, the top slice. */
  function TwoStateScan(d: nat, s: seq<nat>): (f: nat)
    requires d > 0 && |s| > 0
    ensures f < |s|
    ensures |s| == 1 || s[|s| - 1] != 0 ==> f == FirstSlice(d, s, |s| - 1)
    ensures |s| > 1 && s[|s| - 1] == 0 ==> f == |s| - 1
  {
    var top := |s| - 1;
    if top > 0 && s[top] != 0 then (if s[top] >= d then top else top - 1)
    else if top > 0 then top
    else 0
  }

  /** Under two-state reads the scan as written still divides correctly: it either agrees
      with the descending scan or starts at the top slice with carry-in 0. */
  lemma TwoStateScanDivides(d: nat, r: nat, c: nat, digits: seq<nat>)
    requires d > 0 && Pow2(c) >= d && Digits(r, digits) && |digits| > 0
    ensures var f := TwoStateScan(d, digits);
      var res := Divide(Table(d, r, c), r, c, digits[..f + 1], CarryIn(c, digits, f));
      Join(r, 0, res.0) == Join(r, 0, digits) / d && res.1 == Join(r, 0, digits) % d
  {
    var top := |digits| - 1;
    if top > 0 && digits[top] == 0 {
      assert digits[..top + 1] == digits;
      TableDecodes(d, r, c);
      DivideByTable(Table(d, r, c), d, r, c, digits, 0);
    } else {
      ScanDivides(d, r, c, digits);
    }
  }

  /** With the scan as written, divisor 3, 2-bit slices and the 6-bit operand 12 (slices
      0, 3, 0 from the least significant) start at slice 0 with carry 3, an index of the
      table's dead region, and produce quotient 0 instead of 4. */
  lemma AscendingScanMisdivides()
    ensures var s := [0, 3, 0];
      var f := AscendingScan(3, s);
      var res := Divide(Table(3, 2, 2), 2, 2, s[..f + 1], CarryIn(2, s, f));
      Join(2, 0, s) == 12 && f == 0 && CarryIn(2, s, f) == 3 &&
      Join(2, 0, res.0) == 0 && 12 / 3 == 4
  {
    var s := [0, 3, 0];
    assert Pow2(2) == 4;
    assert Join(2, 0, s) == 12 by {
      assert s[..2] == [0, 3] && [0, 3][..1] == [0] && [0][..0] == [];
      assert Join(2, 0, [0, 3]) == Join(2, 3, [0]) == Join(2, 12, []);
    }
    var f := AscendingScan(3, s);
    assert f == 0 && CarryIn(2, s, f) == 3;
    var table := Table(3, 2, 2);
    assert Lookup(table, 2, 2, 3, 0) == 0 by {
      assert TableEntry(3, 2, 2, 12) == 0;
      assert table[12] == 0;
    }
    assert s[..f + 1] == [0];
    assert Divide(table, 2, 2, [0], 3).0 == [0] by {
      assert QuotientField(0, 2, 2) == 0;
    }
    assert Join(2, 0, [0]) == 0;
  }

  /** One clock cycle of the control block. */
  function Step(table: seq<nat>, r: nat, c: nat, n: nat, s: Regs, inp: Inputs): (cy: Cycle)
    requires |table| == TableSize(r, c) && RegsFit(r, c, n, s) && InputsFit(r, c, n, inp)
    ensures RegsFit(r, c, n, cy.next)
    ensures inp.flush ==> cy.next.phase == Idle
    ensures cy.out.valid <==> s.phase == Done
    ensures cy.out.validNext <==> s.phase == Working && s.sliceIndex == 0
    ensures cy.next.operand == if inp.valid then inp.operand else s.operand
    ensures s.phase == Working ==>
              var e := Lookup(table, r, c, s.carry, s.operand[s.sliceIndex]);
              cy.next.carry == RemainderField(e, c) &&
              cy.next.result == s.result[s.sliceIndex := QuotientField(e, r, c)] &&
              (s.sliceIndex == 0 ==> cy.next.sliceIndex == 0 && (!inp.flush ==> cy.next.phase == Done)) &&
              (s.sliceIndex > 0 ==> cy.next.sliceIndex == s.sliceIndex - 1 && (!inp.flush ==> cy.next.phase == Working))
    ensures s.phase != Working ==>
              cy.next.result == Zeros(n) &&
              (inp.valid ==> cy.next.carry == inp.carryIn && cy.next.sliceIndex == inp.firstIndex &&
                             (!inp.flush ==> cy.next.phase == Working)) &&
              (!inp.valid ==> cy.next.carry == s.carry && cy.next.sliceIndex == 0 &&
                              cy.next.phase == Idle)
  {
    var operandNext := if inp.valid then inp.operand else s.operand;
    match s.phase
    case Working =>
      var e := Lookup(table, r, c, s.carry, s.operand[s.sliceIndex]);
      var last := s.sliceIndex == 0;
      Cycle(Regs(AfterFlush(inp.flush, if last then Done else Working),
                 if last then 0 else s.sliceIndex - 1,
                 RemainderField(e, c),
                 s.result[s.sliceIndex := QuotientField(e, r, c)],
                 operandNext),
            Outputs(false, last))
    case _ =>
      // IDLE and DONE accept a new operand alike; DONE also raises valid_o
      Cycle(Regs(AfterFlush(inp.flush, if inp.valid then Working else Idle),
                 if inp.valid then inp.firstIndex else 0,
                 if inp.valid then inp.carryIn else s.carry,
                 Zeros(n),
                 operandNext),
            Outputs(s.phase == Done, false))
  }

  /** A cycle with no flush and no new operand, as the test bench drives while it waits. */
  function Quiet(n: nat): Inputs {
    Inputs(false, false, Zeros(n), 0, 0)
  }

  /** `cycles` quiet cycles from `s`. */
  function Run(table: seq<nat>, r: nat, c: nat, n: nat, s: Regs, cycles: nat): (t: Regs)
    requires |table| == TableSize(r, c) && RegsFit(r, c, n, s)
    ensures RegsFit(r, c, n, t)
    decreases cycles
  {
    if cycles == 0 then s
    else Run(table, r, c, n, Step(table, r, c, n, s, Quiet(n)).next, cycles - 1)
  }

  /** From WORKING at slice `k`, `k + 1` quiet cycles run the recurrence over slices `k`
      down to 0 and land in DONE: the carry is the recurrence's final carry, result slices
      `0..k` hold its quotient digits and the slices above `k` are untouched. */
  lemma {:induction false} WorkingRunsRecurrence(table: seq<nat>, r: nat, c: nat, n: nat, s: Regs)
    requires |table| == TableSize(r, c) && RegsFit(r, c, n, s) && s.phase == Working
    ensures var k := s.sliceIndex;
      var t := Run(table, r, c, n, s, k + 1);
      var res := Divide(table, r, c, s.operand[..k + 1], s.carry);
      t.phase == Done && t.carry == res.1 && t.result == res.0 + s.result[k + 1..] &&
      t.operand == s.operand
    decreases s.sliceIndex
  {
    var k := s.sliceIndex;
    var e := Lookup(table, r, c, s.carry, s.operand[k]);
    var s1 := Step(table, r, c, n, s, Quiet(n)).next;
    var digits := s.operand[..k + 1];
    var rest := Divide(table, r, c, s.operand[..k], RemainderField(e, c));
    assert Divide(table, r, c, digits, s.carry) == (rest.0 + [QuotientField(e, r, c)], rest.1) by {
      assert digits[k] == s.operand[k] && digits[..k] == s.operand[..k];
    }
    var q := QuotientField(e, r, c);
    assert s1 == Regs(if k == 0 then Done else Working, if k == 0 then 0 else k - 1,
                      RemainderField(e, c), s.result[k := q], s.operand);
    var t := Run(table, r, c, n, s1, k);
    assert Run(table, r, c, n, s, k + 1) == t;
    if k == 0 {
      assert t == s1;
      assert rest.0 == [];
      assert s1.result == [q] + s.result[1..];
    } else {
      assert t.phase == Done && t.carry == rest.1 && t.result == rest.0 + s1.result[k..] &&
             t.operand == s.operand by {
        WorkingRunsRecurrence(table, r, c, n, s1);
      }
      assert s1.result[k..] == [q] + s.result[k + 1..];
    }
  }

  /** A cycle in IDLE or DONE with `valid_i` and no flush loads the operand, its first
      slice and its carry-in, clears the result and starts WORKING. */
  lemma Accept(table: seq<nat>, r: nat, c: nat, n: nat, s: Regs, inp: Inputs)
    requires |table| == TableSize(r, c) && RegsFit(r, c, n, s) && InputsFit(r, c, n, inp)
    requires s.phase != Working && inp.valid && !inp.flush
    ensures Step(table, r, c, n, s, inp).next == Regs(Working, inp.firstIndex, inp.carryIn, Zeros(n), inp.operand)
  {
  }

  /** Cleared slices above the quotient digits add nothing to the quotient. */
  lemma JoinPadded(r: nat, q: seq<nat>, n: nat, f: nat)
    requires f <= n
    ensures Join(r, 0, q + Zeros(n)[f..]) == Join(r, 0, q)
  {
    var whole := q + Zeros(n)[f..];
    JoinAt(r, 0, whole, |q|);
    assert whole[..|q|] == q;
    JoinZeros(r, whole[|q|..]);
  }

  /** From the registers an accepting cycle loads (WORKING at first slice `f`, carry-in
      `ci`, result cleared), `f + 1` quiet cycles run the recurrence over slices `f` down
      to 0 from carry `ci`; the result slices above `f` stay cleared and add nothing. */
  lemma AcceptAndRun(table: seq<nat>, r: nat, c: nat, n: nat, operand: seq<nat>, f: nat, ci: nat)
    requires |table| == TableSize(r, c)
    requires |operand| == n && Digits(r, operand) && f < n && ci < Pow2(c)
    ensures var start := Regs(Working, f, ci, Zeros(n), operand);
      RegsFit(r, c, n, start) &&
      var t := Run(table, r, c, n, start, f + 1);
      var res := Divide(table, r, c, operand[..f + 1], ci);
      t.phase == Done && t.carry == res.1 && t.result == res.0 + Zeros(n)[f + 1..] &&
      Join(r, 0, t.result) == Join(r, 0, res.0)
  {
    var start := Regs(Working, f, ci, Zeros(n), operand);
    assert RegsFit(r, c, n, start);
    var t := Run(table, r, c, n, start, f + 1);
    var res := Divide(table, r, c, operand[..f + 1], ci);
    assert t.phase == Done && t.carry == res.1 && t.result == res.0 + start.result[f + 1..] by {
      WorkingRunsRecurrence(table, r, c, n, start);
    }
    assert Join(r, 0, t.result) == Join(r, 0, res.0) by {
      JoinPadded(r, res.0, n, f + 1);
    }
  }

  /** The recurrence started where the scan says divides the whole dividend. */
  lemma ScanDivides(d: nat, r: nat, c: nat, digits: seq<nat>)
    requires d > 0 && Pow2(c) >= d && Digits(r, digits) && |digits| > 0
    ensures var f := FirstSlice(d, digits, |digits| - 1);
      var res := Divide(Table(d, r, c), r, c, digits[..f + 1], CarryIn(c, digits, f));
      Join(r, 0, res.0) == Join(r, 0, digits) / d && res.1 == Join(r, 0, digits) % d
  {
    var f := FirstSlice(d, digits, |digits| - 1);
    var ci := CarryIn(c, digits, f);
    assert ci == Join(r, 0, digits[f + 1..]) && ci < d by {
      ScanCarry(d, r, c, digits);
    }
    StartBelowTop(d, r, c, digits, f + 1);
  }

  /** What the test bench expects for one operand, given as its digits: accepted in
      IDLE or DONE with the scan's first slice and carry-in, it is `f + 1` quiet cycles
      later in DONE with `valid_o` raised, the quotient slices joining to `v div d` and
      the carry holding `v mod d`. */
  predicate ServesQuotient(table: seq<nat>, d: nat, r: nat, c: nat, n: nat, s: Regs, digits: seq<nat>, v: nat)
    requires |table| == TableSize(r, c) && d > 0 && Pow2(c) >= d && RegsFit(r, c, n, s)
    requires |digits| == n > 0 && Digits(r, digits)
  {
    var f := FirstSlice(d, digits, n - 1);
    var start := Step(table, r, c, n, s, Inputs(false, true, digits, f, CarryIn(c, digits, f))).next;
    var t := Run(table, r, c, n, start, f + 1);
    t.phase == Done && Join(r, 0, t.result) == v / d && t.carry == v % d &&
    Step(table, r, c, n, t, Quiet(n)).out.valid
  }

  /** Accepting a dividend `v`, given as its digits, at the slice and carry-in the scan
      chooses, then running until DONE, leaves its quotient in the result slices, its
      remainder in the carry, and raises `valid_o`. */
  lemma ScanAcceptAndRun(d: nat, r: nat, c: nat, n: nat, s: Regs, digits: seq<nat>, v: nat)
    requires d > 0 && Pow2(c) >= d && RegsFit(r, c, n, s) && s.phase != Working
    requires |digits| == n > 0 && Digits(r, digits) && Join(r, 0, digits) == v
    ensures ServesQuotient(Table(d, r, c), d, r, c, n, s, digits, v)
  {
    var table, f := Table(d, r, c), FirstSlice(d, digits, n - 1);
    var ci := CarryIn(c, digits, f);
    var start := Step(table, r, c, n, s, Inputs(false, true, digits, f, ci)).next;
    assert start == Regs(Working, f, ci, Zeros(n), digits) by {
      Accept(table, r, c, n, s, Inputs(false, true, digits, f, ci));
    }
    var t := Run(table, r, c, n, start, f + 1);
    var res := Divide(table, r, c, digits[..f + 1], ci);
    assert t.phase == Done && t.carry == res.1 && Join(r, 0, t.result) == Join(r, 0, res.0) by {
      AcceptAndRun(table, r, c, n, digits, f, ci);
    }
    assert Join(r, 0, res.0) == v / d && res.1 == v % d by {
      ScanDivides(d, r, c, digits);
    }
    assert Step(table, r, c, n, t, Quiet(n)).out.valid;
  }

  /** The divider end to end, as the test bench checks it: for a valid request, the
      generator's table and an operand below `2^inputWidth`, accepted with the descending
      scan's first slice and carry-in, the module serves its quotient and remainder. */
  lemma DividerComputesQuotient(req: Request, c: nat, v: nat, s: Regs)
    requires ValidRequest(req) && IsCarryWidth(req.divisor, c) && v < Pow2(req.inputWidth)
    requires RegsFit(req.radixWidth, c, SliceNum(req.inputWidth, req.radixWidth), s)
    requires s.phase != Working
    ensures var d, r, n := req.divisor, req.radixWidth, SliceNum(req.inputWidth, req.radixWidth);
      ServesQuotient(Table(d, r, c), d, r, c, n, s, Split(v, r, n), v)
  {
    var d, r, n := req.divisor, req.radixWidth, SliceNum(req.inputWidth, req.radixWidth);
    OperandDigits(req, v);
    ScanAcceptAndRun(d, r, c, n, s, Split(v, r, n), v);
  }
}
