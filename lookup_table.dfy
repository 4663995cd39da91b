/**
 The lookup table that replaces one long-division step. The index concatenates a
 carry (the partial remainder, upper `c` bits) with one radix digit of the dividend
 (lower `r` bits); the entry concatenates the quotient digit (upper `r` bits) with the
 new remainder (lower `c` bits). Entries whose carry is at least the divisor cannot be
 reached from a legal remainder and hold 0.
 */
module LookupTable {
  import opened Arith
  import opened Parameters

  /** Number of entries: one per `(r + c)`-bit index. */
  function TableSize(r: nat, c: nat): (size: nat)
    ensures size >= 1
  {
    Pow2(r + c)
  }

  /** The entry the generator writes for index `i`. */
  function TableEntry(d: nat, r: nat, c: nat, i: nat): nat
    requires d > 0
  {
    if i >= Pow2(r) * d then 0
    else ((i / d) % Pow2(r)) * Pow2(c) + i % d
  }

  /** The whole table, indexed by the concatenated carry and digit. */
  function Table(d: nat, r: nat, c: nat): (t: seq<nat>)
    requires d > 0
    ensures |t| == TableSize(r, c)
    ensures forall i | 0 <= i < |t| :: t[i] == TableEntry(d, r, c, i)
  {
    seq(TableSize(r, c), i requires 0 <= i => TableEntry(d, r, c, i))
  }

  /** Bits `[r+c-1:c]` of an entry: the quotient digit. */
  function QuotientField(e: nat, r: nat, c: nat): (q: nat)
    ensures q < Pow2(r)
  {
    (e / Pow2(c)) % Pow2(r)
  }

  /** Bits `[c-1:0]` of an entry: the new remainder. */
  function RemainderField(e: nat, c: nat): (m: nat)
    ensures m < Pow2(c)
  {
    e % Pow2(c)
  }

  /** The defensive check made while the table is written: every live index other
      than 0 has a remainder that fits in `c` bits. */
  predicate RemaindersFit(d: nat, r: nat, c: nat)
    requires d > 0
  {
    forall i | 0 < i < TableSize(r, c) && i < Pow2(r) * d :: i % d < Pow2(c)
  }

  /** The generator's table loop. The entries are written from index `2^(r+c) - 1` down to
      index 1, and a literal 0 closes the list for index 0. The `assert` on each live
      remainder becomes the `InternalInconsistency` error. */
  method EmitTable(d: nat, r: nat, c: nat) returns (res: Result<seq<nat>>)
    requires d > 0
    ensures res.Ok? <==> RemaindersFit(d, r, c)
    ensures res.Err? ==> res.error == InternalInconsistency
    ensures res.Ok? ==> |res.value| == TableSize(r, c)
    ensures res.Ok? ==> forall k | 0 <= k < |res.value| ::
              res.value[k] == TableEntry(d, r, c, TableSize(r, c) - 1 - k)
  {
    var size := TableSize(r, c);
    var listing: seq<nat> := [];
    for i := size downto 1
      invariant |listing| == size - i
      invariant forall k | 0 <= k < |listing| :: listing[k] == TableEntry(d, r, c, size - 1 - k)
      invariant forall j | i <= j < size && 0 < j && j < Pow2(r) * d :: j % d < Pow2(c)
    {
      if i >= Pow2(r) * d {
        listing := listing + [0];
      } else {
        var quot, rem := i / d, i % d;
        if !(rem < Pow2(c)) {
          return Err(InternalInconsistency);
        }
        listing := listing + [(quot % Pow2(r)) * Pow2(c) + rem];
      }
    }
    IndexZeroEntry(d, r, c);
    listing := listing + [0];
    res := Ok(listing);
  }

  /** The literal 0 written for index 0 is what the general rule gives for it. */
  lemma IndexZeroEntry(d: nat, r: nat, c: nat)
    requires d > 0
    ensures TableEntry(d, r, c, 0) == 0
  {
    var p := Pow2(r);
    assert 0 < p * d by { MulAtLeast(d, p); }
    assert 0 / d == 0 && 0 % d == 0 && 0 % p == 0;
  }

  /** With `2^c >= d` (what the carry width guarantees) the check never fails. */
  lemma RemaindersAlwaysFit(d: nat, r: nat, c: nat)
    requires d > 0 && Pow2(c) >= d
    ensures RemaindersFit(d, r, c)
  {
  }

  /** Without `2^c >= d` the check does fail, as soon as the table has a live index
      whose remainder reaches `2^c`. */
  lemma RemaindersFitOnlyIfWide(d: nat, r: nat, c: nat)
    requires d > 0 && r > 0 && RemaindersFit(d, r, c)
    ensures Pow2(c) >= d
  {
    if Pow2(c) < d {
      var i := Pow2(c);
      assert i < TableSize(r, c) by { Pow2Increasing(c, r + c); }
      assert i < Pow2(r) * d by { MulAtLeast(d, Pow2(r)); }
      assert i % d == i by { ModBelow(i, d); }
      assert false;
    }
  }

  /** On a live index the quotient fits in a radix digit, so the `% 2^r` changes nothing. */
  lemma QuotientDigitFits(d: nat, r: nat, i: nat)
    requires d > 0 && i < Pow2(r) * d
    ensures i / d < Pow2(r)
  {
    QuotientBelow(i, d, Pow2(r));
  }

  /** The packing arithmetic with the two powers of two as plain numbers `pr = 2^r`
      and `pc = 2^c`. */
  lemma PackedEntry(d: nat, pr: nat, pc: nat, i: nat)
    requires d > 0 && pc >= d && i < pr * d
    ensures (i / d) % pr == i / d
    ensures (i / d) * pc + i % d < pr * pc
    ensures ((i / d) * pc + i % d) / pc == i / d
    ensures ((i / d) * pc + i % d) % pc == i % d
  {
    var q, m := i / d, i % d;
    QuotientBelow(i, d, pr);
    ModBelow(q, pr);
    PackBound(q, m, pr, pc);
    PackUnpack(q, m, pc);
  }

  /** Every entry fits in `r + c` bits. */
  lemma EntryFits(d: nat, r: nat, c: nat, i: nat)
    requires d > 0 && Pow2(c) >= d
    ensures TableEntry(d, r, c, i) < TableSize(r, c)
  {
    if i < Pow2(r) * d {
      PackedEntry(d, Pow2(r), Pow2(c), i);
      Pow2Add(r, c);
    }
  }

  /** Decoding a live entry gives back what was packed: bits `[r+c-1:c]` are the
      quotient `i div d` and bits `[c-1:0]` the remainder `i mod d`. */
  lemma EntryDecodes(d: nat, r: nat, c: nat, i: nat)
    requires d > 0 && Pow2(c) >= d && i < Pow2(r) * d
    ensures QuotientField(TableEntry(d, r, c, i), r, c) == i / d
    ensures RemainderField(TableEntry(d, r, c, i), c) == i % d
  {
    PackedEntry(d, Pow2(r), Pow2(c), i);
  }

  /** The table read at a live index, with the index as a plain number: it lies inside
      the table, and its entry holds `i div d` above `i mod d`. */
  lemma EntryAt(d: nat, r: nat, c: nat, i: nat)
    requires d > 0 && Pow2(c) >= d && i < Pow2(r) * d
    ensures i < |Table(d, r, c)|
    ensures QuotientField(Table(d, r, c)[i], r, c) == i / d
    ensures RemainderField(Table(d, r, c)[i], c) == i % d
  {
    var t := Table(d, r, c);
    assert i < |t| by {
      BelowWiderProduct(i, Pow2(r), d, Pow2(c));
      Pow2Add(r, c);
    }
    assert t[i] == TableEntry(d, r, c, i);
    EntryDecodes(d, r, c, i);
  }

  /** A table of the generator's size whose every live entry holds `i div d` above
      `i mod d`; this is all the recurrence needs to know about a table. */
  predicate Decodes(table: seq<nat>, d: nat, r: nat, c: nat) {
    |table| == TableSize(r, c) &&
    forall i | 0 <= i < |table| && i < Pow2(r) * d ::
      QuotientField(table[i], r, c) == i / d && RemainderField(table[i], c) == i % d
  }

  /** The generator's table decodes. */
  lemma TableDecodes(d: nat, r: nat, c: nat)
    requires d > 0 && Pow2(c) >= d
    ensures Decodes(Table(d, r, c), d, r, c)
  {
    var t := Table(d, r, c);
    forall i | 0 <= i < |t| && i < Pow2(r) * d
      ensures QuotientField(t[i], r, c) == i / d && RemainderField(t[i], c) == i % d
    {
      EntryAt(d, r, c, i);
    }
  }

  /** A carry of `c` bits next to a digit of `r` bits forms an index inside the table. */
  lemma IndexInTable(r: nat, c: nat, carry: nat, digit: nat)
    requires carry < Pow2(c) && digit < Pow2(r)
    ensures 0 <= carry * Pow2(r) + digit < TableSize(r, c)
  {
    PackBound(carry, digit, Pow2(c), Pow2(r));
    Pow2Add(r, c);
  }

  /** A legal carry (below the divisor) next to any radix digit forms a live index. */
  lemma LiveIndex(d: nat, r: nat, carry: nat, digit: nat)
    requires d > 0 && carry < d && digit < Pow2(r)
    ensures 0 <= carry * Pow2(r) + digit < Pow2(r) * d
  {
    PackBound(carry, digit, d, Pow2(r));
  }

  /** With divisor 1 every live entry holds the digit itself as quotient and remainder 0. */
  lemma DivisorOneEntry(r: nat, i: nat)
    requires i < Pow2(r)
    ensures TableEntry(1, r, 1, i) == 2 * i
  {
    assert i / 1 == i && i % 1 == 0;
    ModBelow(i, Pow2(r));
  }
}
