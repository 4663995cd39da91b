/**
 The digit-recurrence division that the emitted module performs with the table: the
 operand is cut into radix digits, and from the most significant digit down each step
 looks up `carry * 2^r + digit`, keeps the upper `r` bits of the entry as that position's
 quotient digit and the lower `c` bits as the next carry. Clock cycles, registers and
 bit-level slicing are abstracted away here; the cycle-by-cycle view is in `Control`.
 */
module Recurrence {
  import opened Arith
  import opened Parameters
  import opened LookupTable

  /** Every element is a radix digit (below `2^r`). */
  predicate Digits(r: nat, s: seq<nat>) {
    forall k | 0 <= k < |s| :: s[k] < Pow2(r)
  }

  /** The number written `{high, s[n-1], ..., s[0]}`: the digits of `s` (index 0 least
      significant, `r` bits each) below the bits of `high`. */
  function Join(r: nat, high: nat, s: seq<nat>): nat
    decreases |s|
  {
    if |s| == 0 then high
    else Join(r, high * Pow2(r) + s[|s| - 1], s[..|s| - 1])
  }

  /** The operand cut into `n` radix digits, index 0 least significant. */
  function Split(v: nat, r: nat, n: nat): (s: seq<nat>)
    ensures |s| == n && Digits(r, s)
  {
    seq(n, k requires 0 <= k => (v / Pow2(r * k)) % Pow2(r))
  }

  /** One table lookup: the index is the carry concatenated above the digit,
      `{carry, digit}`; the entry holds `{quotient digit, next carry}`. */
  function Lookup(table: seq<nat>, r: nat, c: nat, carry: nat, digit: nat): nat
    requires |table| == TableSize(r, c) && carry < Pow2(c) && digit < Pow2(r)
  {
    IndexInTable(r, c, carry, digit);
    table[carry * Pow2(r) + digit]
  }

  /** With a table that decodes (the generator's does, by `TableDecodes`), one lookup is
      one step of long division: for a carry below the divisor, the entry's quotient field
      is `{carry, digit} div d` and its remainder field is `{carry, digit} mod d`. */
  lemma LookupDivides(table: seq<nat>, d: nat, r: nat, c: nat, carry: nat, digit: nat)
    requires Decodes(table, d, r, c) && Pow2(c) >= d && carry < d && digit < Pow2(r)
    ensures var e := Lookup(table, r, c, carry, digit);
      QuotientField(e, r, c) == (carry * Pow2(r) + digit) / d &&
      RemainderField(e, c) == (carry * Pow2(r) + digit) % d
  {
    var i := carry * Pow2(r) + digit;
    LiveIndex(d, r, carry, digit);
    IndexInTable(r, c, carry, digit);
    var e := table[i];
    assert QuotientField(e, r, c) == i / d && RemainderField(e, c) == i % d;
    assert Lookup(table, r, c, carry, digit) == e;
  }

  /** The recurrence, driven by any table of the right size: starting from `carry`, the
      digits are consumed from the most significant one down. Returns the quotient digits
      (same indexing as `digits`) and the final carry. */
  function Divide(table: seq<nat>, r: nat, c: nat, digits: seq<nat>, carry: nat): (res: (seq<nat>, nat))
    requires |table| == TableSize(r, c) && carry < Pow2(c) && Digits(r, digits)
    ensures |res.0| == |digits| && Digits(r, res.0) && res.1 < Pow2(c)
    decreases |digits|
  {
    if |digits| == 0 then ([], carry)
    else
      var top := |digits| - 1;
      var e := Lookup(table, r, c, carry, digits[top]);
      var rest := Divide(table, r, c, digits[..top], RemainderField(e, c));
      (rest.0 + [QuotientField(e, r, c)], rest.1)
  }

  /** The bits above the digits weigh `2^(r * |s|)`. */
  lemma {:induction false} JoinShift(r: nat, a: nat, s: seq<nat>)
    ensures Join(r, a, s) == a * Pow2(r * |s|) + Join(r, 0, s)
    decreases |s|
  {
    if |s| > 0 {
      var top := |s| - 1;
      var t, low := s[top], s[..top];
      var rr, p := Pow2(r), Pow2(r * top);
      JoinShift(r, a * rr + t, low);
      JoinShift(r, t, low);
      assert Join(r, 0, s) == Join(r, t, low);
      assert r * |s| == r * top + r;
      Pow2Add(r * top, r);
      ShiftDistributes(a, rr, t, p);
    }
  }

  /** Cutting the digits at position `j`: the digits from `j` up are joined first and
      then stand above the digits below `j`. */
  lemma {:induction false} JoinAt(r: nat, high: nat, s: seq<nat>, j: nat)
    requires j <= |s|
    ensures Join(r, high, s) == Join(r, Join(r, high, s[j..]), s[..j])
    decreases |s|
  {
    if j < |s| {
      var top := |s| - 1;
      var high' := high * Pow2(r) + s[top];
      JoinAt(r, high', s[..top], j);
      assert s[..top][..j] == s[..j];
      assert s[j..][..|s[j..]| - 1] == s[..top][j..];
    } else {
      assert s[..j] == s;
    }
  }

  /** Zero digits add nothing. */
  lemma {:induction false} JoinZeros(r: nat, s: seq<nat>)
    requires forall k | 0 <= k < |s| :: s[k] == 0
    ensures Join(r, 0, s) == 0
    decreases |s|
  {
    if |s| > 0 {
      JoinZeros(r, s[..|s| - 1]);
    }
  }

  /** Peeling off the most significant digit. */
  lemma JoinTop(r: nat, s: seq<nat>)
    requires |s| > 0
    ensures Join(r, 0, s) == s[|s| - 1] * Pow2(r * (|s| - 1)) + Join(r, 0, s[..|s| - 1])
  {
    var top := |s| - 1;
    assert Join(r, 0, s) == Join(r, s[top], s[..top]);
    JoinShift(r, s[top], s[..top]);
  }

  /** Joining the digits of `v` gives back `v` modulo `2^(r * n)`. */
  lemma {:induction false} JoinSplit(v: nat, r: nat, n: nat)
    ensures Join(r, 0, Split(v, r, n)) == v % Pow2(r * n)
  {
    var s := Split(v, r, n);
    if n == 0 {
      assert r * n == 0;
    } else {
      var a, rr := Pow2(r * (n - 1)), Pow2(r);
      assert Join(r, 0, s) == ((v / a) % rr) * a + v % a by {
        JoinTop(r, s);
        assert s[..n - 1] == Split(v, r, n - 1);
        JoinSplit(v, r, n - 1);
      }
      assert v % Pow2(r * n) == a * ((v / a) % rr) + v % a by {
        ModProduct(v, a, rr);
        assert r * n == r * (n - 1) + r;
        Pow2Add(r * (n - 1), r);
      }
    }
  }

  /** Appending a most significant digit. */
  lemma JoinAppend(r: nat, s: seq<nat>, top: nat)
    ensures Join(r, 0, s + [top]) == top * Pow2(r * |s|) + Join(r, 0, s)
  {
    var t := s + [top];
    JoinTop(r, t);
    assert t[..|s|] == s;
  }

  /** Long division at the top step: with `x = carry * 2^r + top digit`, dividing
      `{carry, digits}` by `d` gives `x div d` in the top position above the quotient of
      `{x mod d, lower digits}`, and the same remainder. */
  lemma DividendStep(d: nat, r: nat, carry: nat, digits: seq<nat>)
    requires d > 0 && |digits| > 0
    ensures var top := |digits| - 1;
      var x := carry * Pow2(r) + digits[top];
      var whole, lower := Join(r, carry, digits), Join(r, x % d, digits[..top]);
      whole / d == (x / d) * Pow2(r * top) + lower / d && whole % d == lower % d
  {
    var top := |digits| - 1;
    var x := carry * Pow2(r) + digits[top];
    var low, p := digits[..top], Pow2(r * top);
    var whole, lower := Join(r, carry, digits), Join(r, x % d, low);
    assert whole == d * ((x / d) * p) + lower by {
      assert Join(r, carry, digits) == Join(r, x, low);
      JoinShift(r, x, low);
      JoinShift(r, x % d, low);
      ScaledDivision(x, d, p);
    }
    DivModAddMultiple(whole, d, (x / d) * p, lower);
  }

  /** One step of the recurrence with a table that decodes: the top digit's lookup
      yields `x div d` as its quotient digit and hands `x mod d` down as the carry. */
  lemma DivideTop(table: seq<nat>, d: nat, r: nat, c: nat, digits: seq<nat>, carry: nat)
    requires Decodes(table, d, r, c) && Pow2(c) >= d && carry < d && Digits(r, digits) && |digits| > 0
    ensures var top := |digits| - 1;
      var x := carry * Pow2(r) + digits[top];
      var rest := Divide(table, r, c, digits[..top], x % d);
      Divide(table, r, c, digits, carry) == (rest.0 + [x / d], rest.1)
  {
    LookupDivides(table, d, r, c, carry, digits[|digits| - 1]);
  }

  /** The recurrence divides exactly: with a table that decodes and a carry below the
      divisor, the quotient digits join to `{carry, digits} div d` and the final carry is
      `{carry, digits} mod d`. */
  lemma {:induction false} DivideByTable(table: seq<nat>, d: nat, r: nat, c: nat, digits: seq<nat>, carry: nat)
    requires d > 0 && Decodes(table, d, r, c) && Pow2(c) >= d && carry < d && Digits(r, digits)
    ensures var res := Divide(table, r, c, digits, carry);
      Join(r, 0, res.0) == Join(r, carry, digits) / d && res.1 == Join(r, carry, digits) % d
    decreases |digits|
  {
    if |digits| == 0 {
      ModBelow(carry, d);
    } else {
      var top := |digits| - 1;
      var low := digits[..top];
      var x := carry * Pow2(r) + digits[top];
      LiveIndex(d, r, carry, digits[top]);
      QuotientBelow(x, d, Pow2(r));
      var q, m := x / d, x % d;
      var rest := Divide(table, r, c, low, m);
      var whole, lower := Join(r, carry, digits), Join(r, m, low);
      ProductNonNegative(r, top);
      var p := Pow2(r * top);
      assert Divide(table, r, c, digits, carry) == (rest.0 + [q], rest.1) by {
        DivideTop(table, d, r, c, digits, carry);
      }
      assert Join(r, 0, rest.0) == lower / d && rest.1 == lower % d by {
        DivideByTable(table, d, r, c, low, m);
      }
      assert Join(r, 0, rest.0 + [q]) == q * p + Join(r, 0, rest.0) by {
        JoinAppend(r, rest.0, q);
      }
      assert whole / d == q * p + lower / d && whole % d == lower % d by {
        DividendStep(d, r, carry, digits);
      }
    }
  }

  /** Starting lower down: when the digits from `j` up form a number below the divisor,
      the recurrence may start at digit `j - 1` with that number as its carry and still
      divides the whole dividend. */
  lemma StartBelowTop(d: nat, r: nat, c: nat, s: seq<nat>, j: nat)
    requires d > 0 && Pow2(c) >= d && Digits(r, s) && j <= |s| && Join(r, 0, s[j..]) < d
    ensures var res := Divide(Table(d, r, c), r, c, s[..j], Join(r, 0, s[j..]));
      Join(r, 0, res.0) == Join(r, 0, s) / d && res.1 == Join(r, 0, s) % d
  {
    assert Digits(r, s[..j]);
    TableDecodes(d, r, c);
    DivideByTable(Table(d, r, c), d, r, c, s[..j], Join(r, 0, s[j..]));
    JoinAt(r, 0, s, j);
  }

  /** The digits of an operand that fits the input width join back to the operand. */
  lemma OperandDigits(req: Request, v: nat)
    requires ValidRequest(req) && v < Pow2(req.inputWidth)
    ensures Join(req.radixWidth, 0, Split(v, req.radixWidth, SliceNum(req.inputWidth, req.radixWidth))) == v
  {
    var r := req.radixWidth;
    var n := SliceNum(req.inputWidth, r);
    JoinSplit(v, r, n);
    Pow2Monotone(req.inputWidth, r * n);
    ModBelow(v, Pow2(r * n));
  }

  /** What the emitted divider computes for an operand that fits its input width: starting
      from carry 0 at the top slice, the quotient digits join to `v div d` and the final
      carry is `v mod d`. */
  lemma DividesOperand(req: Request, c: nat, v: nat)
    requires ValidRequest(req) && IsCarryWidth(req.divisor, c) && v < Pow2(req.inputWidth)
    ensures var n := SliceNum(req.inputWidth, req.radixWidth);
      var res := Divide(Table(req.divisor, req.radixWidth, c), req.radixWidth, c,
                        Split(v, req.radixWidth, n), 0);
      Join(req.radixWidth, 0, res.0) == v / req.divisor && res.1 == v % req.divisor
  {
    var d, r := req.divisor, req.radixWidth;
    var n := SliceNum(req.inputWidth, r);
    var s := Split(v, r, n);
    TableDecodes(d, r, c);
    DivideByTable(Table(d, r, c), d, r, c, s, 0);
    JoinShift(r, 0, s);
    OperandDigits(req, v);
  }
}
