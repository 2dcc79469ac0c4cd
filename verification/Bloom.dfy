/** The basic Bloom filter: a bit vector, and a hasher that names the cells of an object. */
module Bloom {
  import opened Arith

  /** hash(o) is the list of digests of an object. */
  type Hasher = string -> seq<nat>

  /** What all filters of one index share: the hasher, the number of cells, and whether each
      digest has its own part of the bit vector. */
  datatype Shape = Shape(hash: Hasher, cells: nat, partition: bool, k: nat) {

    ghost predicate Valid() {
      && cells > 0 && k > 0
      && (forall o: string :: |hash(o)| == k)
      && (partition ==> cells % k == 0)
    }

    /** The cell of digest number i, worth d. */
    function Cell(i: nat, d: nat): (c: nat)
      requires Valid() && i < k
      ensures c < cells
    {
      if partition then
        PartBelow(cells, k, i, d);
        i * (cells / k) + d % (cells / k)
      else d % cells
    }

    ghost predicate Hit(bits: seq<bool>, o: string)
      requires Valid() && |bits| == cells
    {
      forall i {:trigger hash(o)[i]} :: 0 <= i < k ==> bits[Cell(i, hash(o)[i])]
    }

    /** The cells of an object. */
    ghost function CellsOf(o: string): set<nat>
      requires Valid()
    {
      set i | 0 <= i < k :: Cell(i, hash(o)[i])
    }

    /** Digest d with number i and digest e with number j fall together: with partitioning they have one
        number and are congruent modulo the size of a part, without it modulo the number of cells. */
    ghost predicate Clash(i: nat, d: nat, j: nat, e: nat)
      requires Valid()
    {
      if partition then
        PartBelow(cells, k, 0, 0);
        i == j && d % (cells / k) == e % (cells / k)
      else d % cells == e % cells
    }

    /** c is where digest d with number i falls: it is congruent to d and, with partitioning, in part i. */
    ghost predicate Lands(i: nat, d: nat, c: int)
      requires Valid()
    {
      if partition then
        PartBelow(cells, k, 0, 0);
        i * (cells / k) <= c < (i + 1) * (cells / k) && c % (cells / k) == d % (cells / k)
      else 0 <= c < cells && c % cells == d % cells
    }

    /** Every digest of o falls together with a digest of some of the objects. */
    ghost predicate MayHave(o: string, objects: set<string>)
      requires Valid()
    {
      forall i :: 0 <= i < k ==> Meets(i, hash(o)[i], objects)
    }

    ghost predicate Meets(i: nat, d: nat, objects: set<string>)
      requires Valid()
    {
      exists x, j :: x in objects && 0 <= j < k && Clash(i, d, j, hash(x)[j])
    }
  }

  /** With partitioning a digest stays in its own part; a small digest is the place in it. */
  lemma CellInPart(s: Shape, i: nat, d: nat)
    requires s.Valid() && i < s.k
    ensures s.partition ==>
              s.cells / s.k > 0 && i * (s.cells / s.k) <= s.Cell(i, d) < (i + 1) * (s.cells / s.k)
    ensures s.partition && d < s.cells / s.k ==> s.Cell(i, d) == i * (s.cells / s.k) + d
    ensures !s.partition && d < s.cells ==> s.Cell(i, d) == d
  {
    if s.partition {
      PartBelow(s.cells, s.k, i, d);
      var parts := s.cells / s.k;
      assert (i + 1) * parts == i * parts + parts;
      if d < parts { DivModUnique(d, parts, 0, d); }
    } else if d < s.cells {
      DivModUnique(d, s.cells, 0, d);
    }
  }

  /** There is one place where a digest falls. */
  lemma CellLands(s: Shape, i: nat, d: nat, c: int)
    requires s.Valid() && i < s.k
    ensures s.Lands(i, d, c) <==> c == s.Cell(i, d)
  {
    CellInPart(s, i, d);
    if s.partition {
      var parts := s.cells / s.k;
      assert (i + 1) * parts == i * parts + parts;
      DivModUnique(s.Cell(i, d), parts, i, d % parts);
      if s.Lands(i, d, c) { DivModUnique(c, parts, i, c - i * parts); }
    } else {
      DivModUnique(d % s.cells, s.cells, 0, d % s.cells);
      if s.Lands(i, d, c) { DivModUnique(c, s.cells, 0, c); }
    }
  }

  /** Two digests share a cell exactly when they fall together. */
  lemma SameCell(s: Shape, i: nat, d: nat, j: nat, e: nat)
    requires s.Valid() && i < s.k && j < s.k
    ensures s.Cell(i, d) == s.Cell(j, e) <==> s.Clash(i, d, j, e)
  {
    if s.partition {
      CellInPart(s, i, d);
      CellInPart(s, j, e);
      var parts := s.cells / s.k;
      if i < j { MulLe(i + 1, j, parts); }
      if j < i { MulLe(j + 1, i, parts); }
    }
  }

  /** The cells of some objects have all cells of o exactly when o may be among them. */
  lemma CellsAmong(s: Shape, o: string, objects: set<string>)
    requires s.Valid()
    ensures s.CellsOf(o) <= CellsOfAll(s, objects) <==> s.MayHave(o, objects)
  {
    hide Shape.Cell, Shape.Clash;
    hide Shape.Meets, CellsOfAll;
    forall i | 0 <= i < s.k
      ensures s.Cell(i, s.hash(o)[i]) in s.CellsOf(o)
      ensures s.Cell(i, s.hash(o)[i]) in CellsOfAll(s, objects) <==> s.Meets(i, s.hash(o)[i], objects)
    {
      CellAmong(s, i, s.hash(o)[i], objects);
    }
  }

  lemma CellAmong(s: Shape, i: nat, d: nat, objects: set<string>)
    requires s.Valid() && i < s.k
    ensures s.Cell(i, d) in CellsOfAll(s, objects) <==> s.Meets(i, d, objects)
  {
    hide Shape.Cell, Shape.Clash;
    if s.Cell(i, d) in CellsOfAll(s, objects) {
      var x :| x in objects && s.Cell(i, d) in s.CellsOf(x);
      var j :| 0 <= j < s.k && s.Cell(i, d) == s.Cell(j, s.hash(x)[j]);
      SameCell(s, i, d, j, s.hash(x)[j]);
    }
    if x, j :| x in objects && 0 <= j < s.k && s.Clash(i, d, j, s.hash(x)[j]) {
      SameCell(s, i, d, j, s.hash(x)[j]);
      assert s.Cell(j, s.hash(x)[j]) in s.CellsOf(x);
    }
  }

  ghost function CellsOfAll(s: Shape, objects: set<string>): set<nat>
    requires s.Valid()
  {
    set x, c | x in objects && c in s.CellsOf(x) :: c
  }

  /** Part number i of k equal parts ends inside the bit vector. */
  lemma PartBelow(cells: nat, k: nat, i: nat, d: nat)
    requires cells > 0 && k > i && cells % k == 0
    ensures cells / k > 0
    ensures i * (cells / k) + d % (cells / k) < cells
  {
    var parts := cells / k;
    assert k * parts == cells;
    assert parts > 0;
    BlockEnds(k, parts, i, d % parts);
  }

  ghost predicate Grown(a: seq<bool>, b: seq<bool>) {
    |a| == |b| && forall j :: 0 <= j < |a| && a[j] ==> b[j]
  }

  /** Setting more bits never loses an object. */
  lemma HitGrows(s: Shape, a: seq<bool>, b: seq<bool>, o: string)
    requires s.Valid() && |a| == s.cells && Grown(a, b) && s.Hit(a, o)
    ensures s.Hit(b, o)
  {
    forall i | 0 <= i < s.k ensures b[s.Cell(i, s.hash(o)[i])] {}
  }

  function Or(a: seq<bool>, b: seq<bool>): (r: seq<bool>)
    requires |a| == |b|
    ensures Grown(a, r) && Grown(b, r)
  {
    seq(|a|, i requires 0 <= i < |a| => a[i] || b[i])
  }

  /** The positions of some bits that are set, and those where two bit vectors differ. */
  ghost function SetBits(bits: seq<bool>): set<nat> { set j: nat | j < |bits| && bits[j] }

  ghost function Differing(a: seq<bool>, b: seq<bool>): set<nat>
    requires |a| == |b|
  {
    set j: nat | j < |a| && a[j] != b[j]
  }

  lemma {:induction false} OnesCounted(bits: seq<bool>)
    ensures Ones(bits) == |SetBits(bits)|
  {
    if bits != [] {
      var last := |bits| - 1;
      OnesCounted(bits[..last]);
      assert SetBits(bits) == SetBits(bits[..last]) + if bits[last] then {last} else {};
    }
  }

  lemma {:induction false} DifferencesCounted(a: seq<bool>, b: seq<bool>)
    requires |a| == |b|
    ensures Differences(a, b) == |Differing(a, b)|
  {
    if a != [] {
      var last := |a| - 1;
      DifferencesCounted(a[..last], b[..last]);
      assert Differing(a, b) == Differing(a[..last], b[..last]) + if a[last] != b[last] then {last} else {};
    }
  }

  /** The number of set cells. */
  function Ones(bits: seq<bool>): nat {
    if bits == [] then 0 else Ones(bits[..|bits| - 1]) + if bits[|bits| - 1] then 1 else 0
  }

  /** The number of cells on which two bit vectors differ. */
  function Differences(a: seq<bool>, b: seq<bool>): nat
    requires |a| == |b|
  {
    if a == [] then 0
    else Differences(a[..|a| - 1], b[..|b| - 1]) + if a[|a| - 1] != b[|b| - 1] then 1 else 0
  }

  lemma HitIsSubset(s: Shape, bits: seq<bool>, o: string)
    requires s.Valid() && |bits| == s.cells
    ensures s.Hit(bits, o) <==> s.CellsOf(o) <= SetBits(bits)
  {
    hide Shape.Cell;
    if s.CellsOf(o) <= SetBits(bits) {
      forall i | 0 <= i < s.k ensures bits[s.Cell(i, s.hash(o)[i])] {
        assert s.Cell(i, s.hash(o)[i]) in s.CellsOf(o);
      }
    }
  }

  lemma AddedBits(s: Shape, was: seq<bool>, bits: seq<bool>, objects: set<string>, o: string)
    requires s.Valid() && |was| == |bits| == s.cells && Grown(was, bits) && s.Hit(bits, o)
    requires SetBits(was) == CellsOfAll(s, objects)
    requires forall j :: 0 <= j < |bits| && bits[j] && !was[j] ==> j in s.CellsOf(o)
    ensures SetBits(bits) == CellsOfAll(s, objects + {o})
  {
    hide Shape.Cell, Shape.CellsOf;
    HitIsSubset(s, bits, o);
    assert SetBits(bits) == SetBits(was) + s.CellsOf(o);
  }

  class BasicBloomFilter {
    const shape: Shape
    var bits: seq<bool>

    ghost predicate Valid()
      reads this
    {
      shape.Valid() && |bits| == shape.cells
    }

    ghost predicate Has(o: string)
      requires Valid()
      reads this
    {
      shape.Hit(bits, o)
    }

    /** The set cells are those of some objects. */
    ghost predicate Holds(objects: set<string>)
      requires Valid()
      reads this
    {
      SetBits(bits) == CellsOfAll(shape, objects)
    }

    constructor (shape: Shape)
      requires shape.Valid()
      ensures Valid() && this.shape == shape && forall j :: 0 <= j < |bits| ==> !bits[j]
      ensures Holds({})
    {
      this.shape := shape;
      bits := seq(shape.cells, _ => false);
    }

    /** Sets the cells of o and no other. */
    method Add(o: string)
      requires Valid()
      modifies this
      ensures Valid() && Grown(old(bits), bits) && Has(o)
      ensures forall j :: 0 <= j < |bits| && bits[j] && !old(bits)[j] ==>
                exists i {:trigger shape.hash(o)[i]} :: 0 <= i < shape.k && j == shape.Cell(i, shape.hash(o)[i])
      ensures forall objects :: old(Holds(objects)) ==> Holds(objects + {o})
    {
      var digests := shape.hash(o);
      for i := 0 to |digests|
        invariant |bits| == shape.cells && Grown(old(bits), bits)
        invariant forall h :: 0 <= h < i ==> bits[shape.Cell(h, digests[h])]
        invariant forall j :: 0 <= j < |bits| && bits[j] && !old(bits)[j] ==>
                    exists h {:trigger digests[h]} :: 0 <= h < i && j == shape.Cell(h, digests[h])
      {
        bits := bits[shape.Cell(i, digests[i]) := true];
      }
      forall objects | old(Holds(objects)) ensures Holds(objects + {o}) {
        AddedBits(shape, old(bits), bits, objects, o);
      }
    }

    method Lookup(o: string) returns (found: bool)
      requires Valid()
      ensures found == Has(o)
      ensures forall objects :: Holds(objects) ==> (found <==> shape.MayHave(o, objects))
    {
      forall objects | Holds(objects) ensures Has(o) <==> shape.MayHave(o, objects) {
        CellsAmong(shape, o, objects);
        HitIsSubset(shape, bits, o);
      }
      var digests := shape.hash(o);
      for i := 0 to |digests|
        invariant forall h :: 0 <= h < i ==> bits[shape.Cell(h, digests[h])]
      {
        if !bits[shape.Cell(i, digests[i])] { return false; }
      }
      return true;
    }

    /** Replaces the bit vector, unless its size is wrong. */
    method SetStorage(b: seq<bool>) returns (ok: bool)
      requires Valid()
      modifies this
      ensures ok == (|b| == shape.cells)
      ensures bits == if ok then b else old(bits)
    {
      if shape.partition && |b| % shape.k != 0 { return false; }
      if |b| != |bits| { return false; }
      bits := b;
      return true;
    }
  }
}
