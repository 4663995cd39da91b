/**
 The front half of `getModule`: argument validation and the two derived widths,
 `carryWidth` (bits of the partial remainder) and `sliceNum` (radix digits per operand).
 */
module Parameters {
  import opened Arith

  /** Why a generation request is refused. The first two are the `ValueError`s raised
      by validation; the third is the table builder's defensive `assert`. */
  datatype GenError = NonPositiveArgument | RadixTooNarrow | InternalInconsistency

  datatype Result<T> = Ok(value: T) | Err(error: GenError)

  /** The four arguments of `getModule`, once accepted. */
  datatype Request = Request(moduleName: string, divisor: nat, inputWidth: nat, radixWidth: nat)

  /** The request invariant: every numeric argument positive and the radix wide enough
      to hold any remainder. */
  predicate ValidRequest(req: Request) {
    req.divisor > 0 && req.inputWidth > 0 && req.radixWidth > 0 &&
    Pow2(req.radixWidth) >= req.divisor
  }

  /** Argument validation. The positivity test runs first, so a request that is both
      non-positive and too narrow reports the positivity error. */
  function Validate(moduleName: string, divisor: int, inputWidth: int, radixWidth: int): (r: Result<Request>)
    ensures r == Err(NonPositiveArgument) <==> divisor <= 0 || inputWidth <= 0 || radixWidth <= 0
    ensures r == Err(RadixTooNarrow) <==>
      divisor > 0 && inputWidth > 0 && radixWidth > 0 && Pow2(radixWidth) < divisor
    ensures r.Err? ==> r.error != InternalInconsistency
    ensures r.Ok? ==>
              ValidRequest(r.value) && r.value == Request(moduleName, divisor, inputWidth, radixWidth)
  {
    if divisor <= 0 || inputWidth <= 0 || radixWidth <= 0 then
      Err(NonPositiveArgument)
    else if Pow2(radixWidth) < divisor then
      Err(RadixTooNarrow)
    else
      Ok(Request(moduleName, divisor, inputWidth, radixWidth))
  }

  /** `c` is the carry width for `divisor`: the least `c >= 1` with `2^c >= divisor`. */
  predicate IsCarryWidth(divisor: int, c: nat) {
    c >= 1 && Pow2(c) >= divisor && (c == 1 || Pow2(c - 1) < divisor)
  }

  /** The linear search for the carry width: start at 1 and step up while `2^c` is
      still below the divisor. */
  method CarryWidth(divisor: int) returns (c: nat)
    ensures c >= 1 && Pow2(c) >= divisor
    ensures forall c' :: 1 <= c' < c ==> Pow2(c') < divisor
    ensures IsCarryWidth(divisor, c)
  {
    c := 1;
    while Pow2(c) < divisor
      invariant c >= 1
      invariant forall c' :: 1 <= c' < c ==> Pow2(c') < divisor
      decreases divisor - Pow2(c)
    {
      Pow2Increasing(c, c + 1);
      c := c + 1;
    }
  }

  /** Any two widths meeting the definition are the same width, so the carry width is
      a function of the divisor. */
  lemma CarryWidthUnique(divisor: int, c1: nat, c2: nat)
    requires IsCarryWidth(divisor, c1) && IsCarryWidth(divisor, c2)
    ensures c1 == c2
  {
    if c1 < c2 {
      Pow2Monotone(c1, c2 - 1);
    } else if c2 < c1 {
      Pow2Monotone(c2, c1 - 1);
    }
  }

  /** Every width that the definition admits is the least one with `2^c >= divisor`. */
  lemma CarryWidthLeast(divisor: int, c: nat, c': nat)
    requires IsCarryWidth(divisor, c) && 1 <= c' && Pow2(c') >= divisor
    ensures c <= c'
  {
    if c' < c {
      Pow2Monotone(c', c - 1);
    }
  }

  /** A divisor of 1 gets the carry width 1 (the search never steps). */
  lemma CarryWidthOfOne(c: nat)
    ensures IsCarryWidth(1, c) <==> c == 1
  {
    if c > 1 {
      Pow2Increasing(0, c - 1);
    }
  }

  /** After validation the carry never needs more bits than a radix digit. */
  lemma CarryWidthWithinRadix(req: Request, c: nat)
    requires ValidRequest(req) && IsCarryWidth(req.divisor, c)
    ensures c <= req.radixWidth
  {
    CarryWidthLeast(req.divisor, c, req.radixWidth);
  }

  /** `(inputWidth - 1) // radixWidth + 1`: enough radix digits to cover the operand,
      and one fewer would not do. */
  function SliceNum(inputWidth: nat, radixWidth: nat): (n: nat)
    requires inputWidth > 0 && radixWidth > 0
    ensures n >= 1
    ensures (n - 1) * radixWidth < inputWidth <= n * radixWidth
  {
    var q := (inputWidth - 1) / radixWidth;
    assert (q + 1) * radixWidth == q * radixWidth + radixWidth;
    q + 1
  }

  /** The slice count is the ceiling of `inputWidth / radixWidth`: the only `n` whose
      digits cover the operand with the top digit non-empty. */
  lemma SliceNumIsCeiling(inputWidth: nat, radixWidth: nat, n: nat)
    requires inputWidth > 0 && radixWidth > 0
    requires (n - 1) * radixWidth < inputWidth <= n * radixWidth
    ensures n == SliceNum(inputWidth, radixWidth)
  {
    var m := SliceNum(inputWidth, radixWidth);
    if n < m {
      MulMonotone(n, m - 1, radixWidth);
    } else if m < n {
      MulMonotone(m, n - 1, radixWidth);
    }
  }

  /** The same count by the other usual ceiling formula. */
  lemma SliceNumRoundsUp(inputWidth: nat, radixWidth: nat)
    requires inputWidth > 0 && radixWidth > 0
    ensures SliceNum(inputWidth, radixWidth) == (inputWidth + radixWidth - 1) / radixWidth
  {
    var q := (inputWidth - 1) / radixWidth;
    var s := (inputWidth - 1) % radixWidth;
    assert inputWidth + radixWidth - 1 == radixWidth * (q + 1) + s;
    DivModUnique(inputWidth + radixWidth - 1, radixWidth, q + 1, s);
  }
}
