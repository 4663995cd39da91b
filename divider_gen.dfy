/**
 `getModule` as a whole, minus the text: it validates the arguments, derives the carry
 width and the slice count, and writes the lookup table. Everything it emits beyond
 these numbers is a fixed template.
 */
module DividerGen {
  import opened Arith
  import opened Parameters
  import opened LookupTable

  /** The values that `getModule` substitutes into its template: the request, the
      `WIDTH_CARRY` and `NUM_SLICE` localparams, and the table entries in the order they
      are written (highest index first). */
  datatype Generated = Generated(request: Request, carryWidth: nat, sliceNum: nat, listing: seq<nat>)

  method GetModule(moduleName: string, divisor: int, inputWidth: int, radixWidth: int)
    returns (res: Result<Generated>)
    ensures res == Err(NonPositiveArgument) <==> divisor <= 0 || inputWidth <= 0 || radixWidth <= 0
    ensures res == Err(RadixTooNarrow) <==>
              divisor > 0 && inputWidth > 0 && radixWidth > 0 && Pow2(radixWidth) < divisor
    ensures res.Ok? <==>
              divisor > 0 && inputWidth > 0 && radixWidth > 0 && Pow2(radixWidth) >= divisor
    ensures res.Ok? ==>
              var g := res.value;
              g.request == Request(moduleName, divisor, inputWidth, radixWidth) &&
              IsCarryWidth(divisor, g.carryWidth) && g.carryWidth <= radixWidth &&
              g.sliceNum == SliceNum(inputWidth, radixWidth) &&
              |g.listing| == TableSize(radixWidth, g.carryWidth) &&
              (forall k | 0 <= k < |g.listing| ::
                 g.listing[k] == TableEntry(divisor, radixWidth, g.carryWidth, |g.listing| - 1 - k)) &&
              (forall k | 0 <= k < |g.listing| :: g.listing[k] < TableSize(radixWidth, g.carryWidth)) &&
              (forall i | 0 <= i < |g.listing| ::
                 g.listing[|g.listing| - 1 - i] == Table(divisor, radixWidth, g.carryWidth)[i])
  {
    var checked := Validate(moduleName, divisor, inputWidth, radixWidth);
    if checked.Err? {
      return Err(checked.error);
    }
    var req := checked.value;
    var c := CarryWidth(req.divisor);
    CarryWidthWithinRadix(req, c);
    var n := SliceNum(req.inputWidth, req.radixWidth);
    RemaindersAlwaysFit(req.divisor, req.radixWidth, c);
    var table := EmitTable(req.divisor, req.radixWidth, c);
    assert table.Ok?;
    var listing := table.value;
    forall k | 0 <= k < |listing|
      ensures listing[k] < TableSize(req.radixWidth, c)
    {
      EntryFits(req.divisor, req.radixWidth, c, TableSize(req.radixWidth, c) - 1 - k);
    }
    res := Ok(Generated(req, c, n, listing));
  }

  /** Divisor 3, 4-bit operand, 2-bit radix: carry width 2, two slices, sixteen entries;
      index 5 packs quotient digit 1 above remainder 2 as 6, and indices 12 to 15 are dead. */
  lemma DivideThreeByTwoBitDigits()
    ensures IsCarryWidth(3, 2) && SliceNum(4, 2) == 2 && TableSize(2, 2) == 16
    ensures TableEntry(3, 2, 2, 5) == 6
    ensures forall i | 12 <= i < 16 :: TableEntry(3, 2, 2, i) == 0
  {
    assert Pow2(2) == 4 && Pow2(4) == 16;
  }
}
