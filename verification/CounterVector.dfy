/** Counters of a few bits each, packed into one bit vector; arithmetic carries from bit to bit. */
module CounterVectors {
  import opened Arith
  import opened BitValues
  import opened Bitvectors

  // ----- adding bit by bit

  predicate SumBit(b1: bool, b2: bool, carry: bool) { (b1 != b2) != carry }
  predicate CarryBit(b1: bool, b2: bool, carry: bool) { (b1 && b2) || (carry && b1 != b2) }

  /** While i bits are added: what is written, and the carry on top of it, is the sum so far. */
  ghost predicate Adding(written: seq<bool>, carry: bool, was: seq<bool>, v: nat) {
    |written| == |was| && Value(written) + (if carry then Pow2(|was|) else 0) == Value(was) + v % Pow2(|was|)
  }

  lemma AddingStarts(v: nat)
    ensures Adding([], false, [], v)
  {}

  /** Writing the next bit of a cell makes the written part of it one longer. */
  lemma SliceGrows(before: seq<bool>, was: seq<bool>, lsb: nat, i: nat, b: bool)
    requires lsb + i < |before| == |was|
    ensures before[lsb + i := b][lsb..lsb + i + 1] == before[lsb..lsb + i] + [b]
    ensures was[lsb..lsb + i + 1] == was[lsb..lsb + i] + [was[lsb + i]]
  {}

  /** One step of the ripple carry. */
  lemma AddingStep(written: seq<bool>, carry: bool, was: seq<bool>, v: nat, b1: bool)
    requires Adding(written, carry, was, v)
    ensures var b2 := Bit(v, |was|);
            Adding(written + [SumBit(b1, b2, carry)], CarryBit(b1, b2, carry), was + [b1], v)
  {
    var b2 := Bit(v, |was|);
    ValueAppend(written, SumBit(b1, b2, carry));
    ValueAppend(was, b1);
    NextBit(v, |was|);
    assert Pow2(|was| + 1) == 2 * Pow2(|was|);
  }

  // ----- cells

  /** Where a cell starts. */
  function Lsb(width: nat, c: nat): nat { c * width }

  lemma CellInside(width: nat, cells: nat, c: nat)
    requires c < cells
    ensures Lsb(width, c) + width <= cells * width
  {
    MulLe(c + 1, cells, width);
    assert (c + 1) * width == c * width + width;
  }

  /** Two cells do not overlap. */
  lemma CellsApart(width: nat, c: nat, d: nat)
    requires c != d
    ensures Lsb(width, c) + width <= Lsb(width, d) || Lsb(width, d) + width <= Lsb(width, c)
  {
    assert (c + 1) * width == c * width + width;
    assert (d + 1) * width == d * width + width;
    if c < d { MulLe(c + 1, d, width); } else { MulLe(d + 1, c, width); }
  }

  /** The values of all cells. */
  ghost function Counters(bits: seq<bool>, width: nat, cells: nat): (s: seq<nat>)
    requires |bits| == cells * width
    ensures |s| == cells
  {
    seq(cells, c requires 0 <= c < cells =>
      (CellInside(width, cells, c); Value(bits[Lsb(width, c)..Lsb(width, c) + width])))
  }

  lemma CounterAt(bits: seq<bool>, width: nat, cells: nat, c: nat)
    requires |bits| == cells * width && c < cells
    ensures Lsb(width, c) + width <= |bits|
    ensures Counters(bits, width, cells)[c] == Value(bits[Lsb(width, c)..Lsb(width, c) + width])
  {
    CellInside(width, cells, c);
  }

  /** The largest value of a counter. */
  function MaxValue(width: nat): nat { Pow2(width) - 1 }

  /** Writing bits of one cell only changes that counter. */
  lemma OneCellWritten(bits: seq<bool>, bits': seq<bool>, width: nat, cells: nat, c: nat)
    requires |bits| == |bits'| == cells * width && c < cells
    requires forall j :: 0 <= j < |bits| && !(Lsb(width, c) <= j < Lsb(width, c) + width) ==> bits'[j] == bits[j]
    ensures Lsb(width, c) + width <= |bits'|
    ensures Counters(bits', width, cells) ==
            Counters(bits, width, cells)[c := Value(bits'[Lsb(width, c)..Lsb(width, c) + width])]
  {
    hide Lsb, Value;
    CellInside(width, cells, c);
    var s, s' := Counters(bits, width, cells), Counters(bits', width, cells);
    forall d | 0 <= d < cells && d != c ensures s'[d] == s[d] {
      CellInside(width, cells, d);
      CellsApart(width, c, d);
      assert bits'[Lsb(width, d)..Lsb(width, d) + width] == bits[Lsb(width, d)..Lsb(width, d) + width];
    }
  }

  /** The counter after adding v: saturated, so that it never wraps. */
  function Added(was: nat, v: nat, width: nat): nat { Min(was + v % Pow2(width), MaxValue(width)) }

  /** The counter after subtracting v, modulo the largest value plus one. */
  function Subtracted(was: nat, v: nat, width: nat): nat { (was + (Pow2(width) - v % Pow2(width))) % Pow2(width) }

  /** Adding within range and then subtracting gives the counter back. */
  lemma SubtractUndoesAdd(was: nat, v: nat, width: nat)
    requires was + v % Pow2(width) <= MaxValue(width)
    ensures Subtracted(Added(was, v, width), v, width) == was
  {
    var p := Pow2(width);
    var d := v % p;
    assert Added(was, v, width) == was + d;
    assert was + d + (p - d) == 1 * p + was;
    DivModUnique(was + p, p, 1, was);
  }

  /** Subtracting no more than the counter holds is exact; more wraps around. */
  lemma SubtractExact(was: nat, v: nat, width: nat)
    requires was < Pow2(width) && 0 < v < Pow2(width)
    ensures Subtracted(was, v, width) == if v <= was then was - v else was + Pow2(width) - v
  {
    var p := Pow2(width);
    DivModUnique(v, p, 0, v);
    if v <= was {
      DivModUnique(was + (p - v), p, 1, was - v);
    } else {
      DivModUnique(was + (p - v), p, 0, was + (p - v));
    }
  }

  /** The two's complement of a 64-bit number. */
  function Negated(v: nat): nat
    requires v <= Pow2(64)
  {
    Pow2(64) - v
  }

  /** Its lowest bits are the two's complement of the lowest bits. */
  lemma NegatedLow(v: nat, width: nat)
    requires 0 < v < Pow2(64) && width <= 31
    ensures Negated(v) % Pow2(width) == (Pow2(width) - v % Pow2(width)) % Pow2(width)
  {
    hide Pow2;
    Pow2Positive(width);
    Pow2Add(64 - width, width);
    ComplementLow(v, Pow2(width), Pow2(64 - width));
  }

  lemma Pow2Positive(k: nat)
    ensures Pow2(k) > 0
  {}

  lemma Pow2Doubles(k: nat)
    ensures Pow2(0) == 1 && Pow2(k + 1) == 2 * Pow2(k)
  {}

  lemma ComplementLow(v: nat, p: nat, n: nat)
    requires p > 0 && v < n * p
    ensures (n * p - v) % p == (p - v % p) % p
  {
    var q, r := v / p, v % p;
    assert v == q * p + r;
    QuotientBelow(v, p, n);
    if r == 0 {
      assert n * p - v == (n - q) * p + 0;
      DivModUnique(n * p - v, p, n - q, 0);
      DivModUnique(p, p, 1, 0);
    } else {
      assert n * p - v == (n - q - 1) * p + (p - r);
      DivModUnique(n * p - v, p, n - q - 1, p - r);
      DivModUnique(p - r, p, 0, p - r);
    }
  }

  class CounterVector {
    const bits: Bitvector
    const cells: nat
    const width: nat

    /** Shifting the constant one by more than 30 bits is not defined, so counters have at most 31 bits. */
    ghost predicate Valid()
      reads bits
    {
      cells > 0 && 0 < width <= 31 && bits.Valid() && bits.numBits == cells * width
    }

    ghost function Contents(): (s: seq<nat>)
      requires Valid()
      reads bits
      ensures |s| == cells
    {
      Counters(bits.Bits(), width, cells)
    }

    constructor (cells: nat, width: nat)
      requires cells > 0 && 0 < width <= 31
      ensures Valid() && fresh(bits) && this.cells == cells && this.width == width
      ensures forall c :: 0 <= c < cells ==> Contents()[c] == 0
    {
      this.cells, this.width := cells, width;
      bits := new Bitvector.OfSize(cells * width);
      new;
      AllZero(bits.Bits(), width, cells);
    }

    /** The ripple-carry addition of a number to the cell that starts at lsb; the carry out of the
        cell is returned. */
    method AddTo(lsb: nat, value: nat) returns (carry: bool)
      requires bits.Valid() && lsb + width <= bits.numBits
      modifies bits
      ensures bits.Valid() && bits.numBits == old(bits.numBits)
      ensures Adding(bits.Bits()[lsb..lsb + width], carry, old(bits.Bits()[lsb..lsb + width]), value)
      ensures forall j :: 0 <= j < bits.numBits && !(lsb <= j < lsb + width) ==> bits.Bits()[j] == old(bits.Bits()[j])
    {
      hide *;
      carry := false;
      ghost var was := bits.Bits();
      AddingStarts(value);
      assert was[lsb..lsb] == [];
      for i := 0 to width
        invariant bits.Valid() && bits.numBits == |was|
        invariant forall j :: 0 <= j < |was| && !(lsb <= j < lsb + i) ==> bits.Bits()[j] == was[j]
        invariant Adding(bits.Bits()[lsb..lsb + i], carry, was[lsb..lsb + i], value)
      {
        ghost var before := bits.Bits();
        var b1 := bits.Get(lsb + i);
        var b2 := Bit(value, i);
        AddingStep(before[lsb..lsb + i], carry, was[lsb..lsb + i], value, b1);
        SliceGrows(before, was, lsb, i, SumBit(b1, b2, carry));
        bits.Set(lsb + i, SumBit(b1, b2, carry));
        carry := CarryBit(b1, b2, carry);
      }
    }

    /** Sets all bits of the cell that starts at lsb. */
    method Fill(lsb: nat)
      requires bits.Valid() && lsb + width <= bits.numBits
      modifies bits
      ensures bits.Valid() && bits.numBits == old(bits.numBits)
      ensures forall j :: 0 <= j < bits.numBits ==>
                bits.Bits()[j] == if lsb <= j < lsb + width then true else old(bits.Bits()[j])
    {
      hide *;
      ghost var was := bits.Bits();
      for i := 0 to width
        invariant bits.Valid() && bits.numBits == |was|
        invariant forall j :: 0 <= j < |was| ==> bits.Bits()[j] == if lsb <= j < lsb + i then true else was[j]
      {
        bits.Set(lsb + i, true);
      }
    }

    /** Fills a cell after a carry, so that its counter sticks at the largest value. */
    method Saturate(cell: nat)
      requires Valid() && cell < cells
      modifies bits
      ensures Valid() && Contents() == old(Contents())[cell := MaxValue(width)]
    {
      hide Lsb, Value, Counters, Bitvector.Valid, Bitvector.Bits;
      CellInside(width, cells, cell);
      ghost var was := bits.Bits();
      Fill(Lsb(width, cell));
      OneCellWritten(was, bits.Bits(), width, cells, cell);
      ValueOfOnes(bits.Bits()[Lsb(width, cell)..Lsb(width, cell) + width]);
    }

    /** Adds to a counter, which sticks at the largest value; false reports that it did. */
    method Increment(cell: nat, value: nat) returns (ok: bool)
      requires Valid() && cell < cells && 0 < value < Pow2(64)
      modifies bits
      ensures Valid() && Contents() == old(Contents())[cell := Added(old(Contents()[cell]), value, width)]
      ensures ok <==> old(Contents()[cell]) + value % Pow2(width) <= MaxValue(width)
    {
      hide Lsb, Value, Pow2, Counters, Adding, Added, MaxValue, Bitvector.Valid, Bitvector.Bits;
      ghost var was := bits.Bits();
      CounterAt(was, width, cells, cell);
      Pow2Positive(width);
      var carry := AddTo(Lsb(width, cell), value);
      OneCellWritten(was, bits.Bits(), width, cells, cell);
      SumAdded(bits.Bits()[Lsb(width, cell)..Lsb(width, cell) + width], carry,
               was[Lsb(width, cell)..Lsb(width, cell) + width], value);
      if carry { Saturate(cell); }
      ok := !carry;
    }

    /** Subtracts from a counter; false reports that it wrapped around (or that nothing was subtracted). */
    method Decrement(cell: nat, value: nat) returns (ok: bool)
      requires Valid() && cell < cells && 0 < value < Pow2(64)
      modifies bits
      ensures Valid() && Contents() == old(Contents())[cell := Subtracted(old(Contents()[cell]), value, width)]
      ensures ok <==> 0 < value % Pow2(width) <= old(Contents()[cell])
    {
      hide Lsb, Value, Pow2, Negated, Adding, Subtracted, Counters, Bitvector.Valid, Bitvector.Bits;
      ghost var was := bits.Bits();
      CounterAt(was, width, cells, cell);
      var carry := AddTo(Lsb(width, cell), Negated(value));
      OneCellWritten(was, bits.Bits(), width, cells, cell);
      NegatedAdded(bits.Bits()[Lsb(width, cell)..Lsb(width, cell) + width], carry,
                   was[Lsb(width, cell)..Lsb(width, cell) + width], value);
      ok := carry;
    }

    /** The value of a counter, bit by bit: a new bit is above all that were counted. */
    method Count(cell: nat) returns (cnt: nat)
      requires Valid() && cell < cells
      ensures cnt == Contents()[cell]
    {
      hide Lsb, Value, Counters, Pow2, Bitvector.Valid, Bitvector.Bits;
      ghost var all := bits.Bits();
      CounterAt(all, width, cells, cell);
      Pow2Doubles(0);
      cnt := 0;
      var order, lsb := 1, Lsb(width, cell);
      ValueOfZeros([]);
      assert all[lsb..lsb] == [];
      for i := 0 to width
        invariant order == Pow2(i) && cnt == Value(all[lsb..lsb + i])
      {
        assert all[lsb..lsb + i + 1] == all[lsb..lsb + i] + [all[lsb + i]];
        ValueAppend(all[lsb..lsb + i], all[lsb + i]);
        Pow2Doubles(i);
        var bit := bits.Get(lsb + i);
        if bit { cnt := cnt + order; }
        order := 2 * order;
      }
    }

    /** Two vectors do not share their bits, unless they are one. */
    predicate Separate(other: CounterVector) { other == this || other.bits != bits }

    /** Adds a vector, another one or itself, counter by counter; each sticks at the largest value. */
    method OrWith(other: CounterVector)
      requires Valid() && other.Valid() && Separate(other) && other.cells == cells && other.width == width
      modifies bits
      ensures Valid()
      ensures forall c :: 0 <= c < cells ==>
                Contents()[c] == Min(old(Contents()[c]) + old(other.Contents()[c]), MaxValue(width))
    {
      hide Counters, Bitvector.Valid, Bitvector.Bits;
      for cell := 0 to cells
        invariant Valid() && (other != this ==> other.Contents() == old(other.Contents()))
        invariant forall c :: 0 <= c < cells ==>
                    Contents()[c] == if c >= cell then old(Contents()[c])
                                     else Min(old(Contents()[c]) + old(other.Contents()[c]), MaxValue(width))
      {
        OrCell(cell, other);
      }
    }

    method OrCell(cell: nat, other: CounterVector)
      requires Valid() && other.Valid() && Separate(other) && other.cells == cells && other.width == width
      requires cell < cells
      modifies bits
      ensures Valid()
      ensures Contents() ==
              old(Contents())[cell := Min(old(Contents()[cell]) + old(other.Contents()[cell]), MaxValue(width))]
    {
      hide Lsb, Value, Counters, Adding, MaxValue, Pow2, Bitvector.Valid, Bitvector.Bits;
      ghost var was, theirs := bits.Bits(), other.bits.Bits();
      CounterAt(was, width, cells, cell);
      Pow2Positive(width);
      CounterAt(theirs, width, cells, cell);
      ghost var addend := theirs[Lsb(width, cell)..Lsb(width, cell) + width];
      ghost var v := Value(addend);
      var carry := AddCell(Lsb(width, cell), other);
      OneCellWritten(was, bits.Bits(), width, cells, cell);
      SumAdded(bits.Bits()[Lsb(width, cell)..Lsb(width, cell) + width], carry,
               was[Lsb(width, cell)..Lsb(width, cell) + width], v);
      ValueBelow(addend);
      DivModUnique(v, Pow2(width), 0, v);
      if carry { Saturate(cell); }
    }

    /** The ripple-carry addition of the cell of a vector, possibly this one, that starts at lsb. */
    method AddCell(lsb: nat, other: CounterVector) returns (carry: bool)
      requires bits.Valid() && other.bits.Valid() && Separate(other)
      requires lsb + width <= bits.numBits && lsb + width <= other.bits.numBits
      modifies bits
      ensures bits.Valid() && bits.numBits == old(bits.numBits)
      ensures Adding(bits.Bits()[lsb..lsb + width], carry, old(bits.Bits()[lsb..lsb + width]),
                     Value(old(other.bits.Bits()[lsb..lsb + width])))
      ensures forall j :: 0 <= j < bits.numBits && !(lsb <= j < lsb + width) ==> bits.Bits()[j] == old(bits.Bits()[j])
    {
      hide *;
      carry := false;
      ghost var was, theirs := bits.Bits(), other.bits.Bits();
      ghost var addend := theirs[lsb..lsb + width];
      AddingStarts(Value(addend));
      assert was[lsb..lsb] == [];
      for i := 0 to width
        invariant bits.Valid() && bits.numBits == |was| && other.bits.Valid() && other.bits.numBits == |theirs|
        invariant other.bits != bits ==> other.bits.Bits() == theirs
        invariant forall j :: 0 <= j < |was| && !(lsb <= j < lsb + i) ==> bits.Bits()[j] == was[j]
        invariant Adding(bits.Bits()[lsb..lsb + i], carry, was[lsb..lsb + i], Value(addend))
      {
        ghost var before := bits.Bits();
        var b1 := bits.Get(lsb + i);
        var b2 := other.bits.Get(lsb + i);
        BitOfValue(addend, i);
        AddingStep(before[lsb..lsb + i], carry, was[lsb..lsb + i], Value(addend), b1);
        SliceGrows(before, was, lsb, i, SumBit(b1, b2, carry));
        bits.Set(lsb + i, SumBit(b1, b2, carry));
        carry := CarryBit(b1, b2, carry);
      }
    }
  }

  lemma AllZero(bits: seq<bool>, width: nat, cells: nat)
    requires |bits| == cells * width && forall j :: 0 <= j < |bits| ==> !bits[j]
    ensures forall c :: 0 <= c < cells ==> Counters(bits, width, cells)[c] == 0
  {
    forall c | 0 <= c < cells ensures Counters(bits, width, cells)[c] == 0 {
      CounterAt(bits, width, cells, c);
      ValueOfZeros(bits[Lsb(width, c)..Lsb(width, c) + width]);
    }
  }

  /** Without a carry the sum was written; with one it is too large for the cell. */
  lemma SumAdded(written: seq<bool>, carry: bool, was: seq<bool>, v: nat)
    requires |written| == |was| && Adding(written, carry, was, v)
    ensures Added(Value(was), v, |was|) == if carry then MaxValue(|was|) else Value(written)
    ensures carry <==> Value(was) + v % Pow2(|was|) > MaxValue(|was|)
  {
    hide Value;
    ValueBelow(written);
  }

  lemma NegatedAdded(written: seq<bool>, carry: bool, was: seq<bool>, v: nat)
    requires |written| == |was| <= 31 && 0 < v < Pow2(64) && Adding(written, carry, was, Negated(v))
    ensures Value(written) == Subtracted(Value(was), v, |was|)
    ensures carry <==> 0 < v % Pow2(|was|) <= Value(was)
  {
    hide Value, Pow2, Subtracted;
    Pow2Positive(|was|);
    ValueBelow(written);
    ValueBelow(was);
    NegatedLow(v, |was|);
    SumWraps(Value(was), v, |was|);
  }

  /** Adding the two's complement: the carry tells whether the counter was large enough. */
  lemma SumWraps(was: nat, v: nat, width: nat)
    requires was < Pow2(width)
    ensures var low := (Pow2(width) - v % Pow2(width)) % Pow2(width);
            && Subtracted(was, v, width) == (if was + low >= Pow2(width) then was + low - Pow2(width) else was + low)
            && (was + low >= Pow2(width) <==> 0 < v % Pow2(width) <= was)
  {
    var p := Pow2(width);
    var d := v % p;
    if d == 0 {
      DivModUnique(p, p, 1, 0);
      DivModUnique(was + p, p, 1, was);
    } else {
      DivModUnique(p - d, p, 0, p - d);
      if d <= was {
        DivModUnique(was + (p - d), p, 1, was - d);
      } else {
        DivModUnique(was + (p - d), p, 0, was + (p - d));
      }
    }
  }
}
