/** Mapping continuous coordinates to grid cells, over exact reals. */
module Coordinates {
  import opened Arith
  import opened Grid

  /** A continuous position: seconds since the first timestamp's epoch, latitude, longitude. */
  datatype Position = Position(timestamp: int, latitude: real, longitude: real)

  datatype Box = Box(minTs: int, maxTs: int, minLat: real, maxLat: real, minLon: real, maxLon: real) {
    /** Half-open on every axis. */
    predicate Contains(p: Position) {
      && minTs <= p.timestamp < maxTs
      && minLat <= p.latitude < maxLat
      && minLon <= p.longitude < maxLon
    }
  }

  /** Conversion to an integer, which cuts towards zero. */
  function Truncate(x: real): int { if x >= 0.0 then x.Floor else -((-x).Floor) }

  function Ceiling(x: real): int { -((-x).Floor) }

  /** A value relative to its range, in cells. */
  function Scaled(value: real, range: real, last: int): real
    requires range != 0.0
  {
    value / range * last as real
  }

  /** The cell of a scaled coordinate, kept inside the grid. */
  function LowCell(x: real, size: int): int {
    var cell := Truncate(x);
    if cell < 0 then 0 else if cell > size - 1 then size - 1 else cell
  }

  /** The end of the cells up to a scaled coordinate. */
  function HighCell(x: real, size: int): int {
    var cell := Ceiling(x);
    if cell < 0 then 0 else if cell > size then size else cell
  }

  datatype Transformer = Transformer(minTs: int, maxTs: int, gridBits: nat) {

    function GridSize(): (n: nat)
      ensures n > 0
    {
      Pow2(gridBits)
    }

    function Low(value: real, range: real): int {
      if range == 0.0 then 0 else LowCell(Scaled(value, range, GridSize() - 1), GridSize())
    }

    function High(value: real, range: real): int {
      if range == 0.0 then GridSize() else HighCell(Scaled(value, range, GridSize() - 1), GridSize())
    }

    function TsRange(): real { (maxTs - minTs) as real }

    function ToGridPoint(p: Position): Point {
      Point(Low((p.timestamp - minTs) as real, TsRange()), Low(p.latitude + 90.0, 180.0),
            Low(p.longitude + 180.0, 360.0))
    }

    function ToGridRect(box: Box): Rect {
      Rect(Point(Low((box.minTs - minTs) as real, TsRange()), Low(box.minLat + 90.0, 180.0),
                 Low(box.minLon + 180.0, 360.0)),
           Point(High((box.maxTs - minTs) as real, TsRange()), High(box.maxLat + 90.0, 180.0),
                 High(box.maxLon + 180.0, 360.0)))
    }

    /** The position lies in the range the transformer was made for. */
    predicate InRange(p: Position) {
      && minTs <= p.timestamp <= maxTs
      && -90.0 <= p.latitude <= 90.0
      && -180.0 <= p.longitude <= 180.0
    }
  }

  lemma ScaleMonotonic(a: real, b: real, k: real)
    requires k >= 0.0
    ensures a <= b ==> a * k <= b * k
    ensures a < b && k > 0.0 ==> a * k < b * k
  {}

  lemma DivideMonotonic(a: real, b: real, range: real)
    requires range > 0.0
    ensures a <= b ==> a / range <= b / range
    ensures a < b ==> a / range < b / range
  {
    var x, y := a / range, b / range;
    assert x * range == a && y * range == b;
    ScaleMonotonic(y, x, range);
  }

  lemma ScaledMonotonic(a: real, b: real, range: real, size: nat)
    requires range > 0.0 && size > 0
    ensures a <= b ==> Scaled(a, range, size - 1) <= Scaled(b, range, size - 1)
    ensures a < b && size > 1 ==> Scaled(a, range, size - 1) < Scaled(b, range, size - 1)
  {
    DivideMonotonic(a, b, range);
    ScaleMonotonic(a / range, b / range, (size - 1) as real);
  }

  lemma ScaledEnds(v: real, range: real, size: nat)
    requires range > 0.0 && size > 0 && 0.0 <= v <= range
    ensures 0.0 <= Scaled(v, range, size - 1) <= (size - 1) as real
  {
    ScaledMonotonic(0.0, v, range, size);
    ScaledMonotonic(v, range, range, size);
    assert 0.0 / range == 0.0 && range / range == 1.0;
  }

  /** The cell of a scaled coordinate inside the grid is the one it lies in; others are cut to the first or
      the last cell. */
  ghost predicate IsLowCell(x: real, last: int, cell: int) {
    if x < 0.0 then cell == 0 else if x > last as real then cell == last else cell as real <= x < (cell + 1) as real
  }

  /** The end cell is the least one not below the scaled coordinate, cut to the size of the grid. */
  ghost predicate IsHighCell(x: real, last: int, cell: int) {
    if x < 0.0 then cell == 0
    else if x > (last + 1) as real then cell == last + 1
    else (cell - 1) as real < x <= cell as real
  }

  /** The cell at a value's share of the range, in steps of the grid. */
  ghost predicate StartsAt(value: real, range: real, last: nat, cell: int)
    requires range != 0.0
  {
    IsLowCell(value / range * last as real, last, cell)
  }

  ghost predicate EndsAt(value: real, range: real, last: nat, cell: int)
    requires range != 0.0
  {
    IsHighCell(value / range * last as real, last, cell)
  }

  lemma CellsExact(t: Transformer, v: real, range: real, last: nat)
    requires Pow2(t.gridBits) == last + 1
    ensures range == 0.0 ==> t.Low(v, range) == 0 && t.High(v, range) == last + 1
    ensures range != 0.0 ==> StartsAt(v, range, last, t.Low(v, range))
    ensures range != 0.0 ==> EndsAt(v, range, last, t.High(v, range))
  {
    hide Pow2, IsLowCell, IsHighCell, LowCell, HighCell;
    if range != 0.0 { CutExact(Scaled(v, range, last), last); }
  }

  lemma CutExact(x: real, last: nat)
    ensures IsLowCell(x, last, LowCell(x, last + 1))
    ensures IsHighCell(x, last, HighCell(x, last + 1))
  {
    var f, g := x.Floor, (-x).Floor;
    assert f as real <= x < (f + 1) as real;
    assert g as real <= -x < (g + 1) as real;
    assert (-g) as real == -(g as real);
  }

  /** The grid point of a position: each coordinate, from the start of its range, as a share of the range. */
  lemma GridPointExact(t: Transformer, p: Position, last: nat)
    requires t.minTs < t.maxTs && Pow2(t.gridBits) == last + 1
    ensures var c := t.ToGridPoint(p);
            && StartsAt((p.timestamp - t.minTs) as real, (t.maxTs - t.minTs) as real, last, c.x)
            && StartsAt(p.latitude + 90.0, 180.0, last, c.y)
            && StartsAt(p.longitude + 180.0, 360.0, last, c.z)
  {
    hide Pow2, Transformer.Low, StartsAt;
    CellsExact(t, (p.timestamp - t.minTs) as real, t.TsRange(), last);
    CellsExact(t, p.latitude + 90.0, 180.0, last);
    CellsExact(t, p.longitude + 180.0, 360.0, last);
  }

  /** The grid box of a box starts with the cells of its lower bounds and ends at those of its upper ones. */
  lemma GridRectExact(t: Transformer, box: Box, last: nat)
    requires t.minTs < t.maxTs && Pow2(t.gridBits) == last + 1
    ensures var r := t.ToGridRect(box);
            && StartsAt((box.minTs - t.minTs) as real, (t.maxTs - t.minTs) as real, last, r.start.x)
            && StartsAt(box.minLat + 90.0, 180.0, last, r.start.y)
            && StartsAt(box.minLon + 180.0, 360.0, last, r.start.z)
            && EndsAt((box.maxTs - t.minTs) as real, (t.maxTs - t.minTs) as real, last, r.end.x)
            && EndsAt(box.maxLat + 90.0, 180.0, last, r.end.y)
            && EndsAt(box.maxLon + 180.0, 360.0, last, r.end.z)
  {
    hide Pow2, Transformer.Low, Transformer.High, StartsAt, EndsAt;
    CellsExact(t, (box.minTs - t.minTs) as real, t.TsRange(), last);
    CellsExact(t, box.minLat + 90.0, 180.0, last);
    CellsExact(t, box.minLon + 180.0, 360.0, last);
    CellsExact(t, (box.maxTs - t.minTs) as real, t.TsRange(), last);
    CellsExact(t, box.maxLat + 90.0, 180.0, last);
    CellsExact(t, box.maxLon + 180.0, 360.0, last);
  }

  /** The half-open side has the cell, or it is empty and begins at the cell. */
  predicate SideHas(low: int, cell: int, high: int) { low <= cell < high || low == cell == high }

  predicate RectHas(r: Rect, p: Point) {
    && SideHas(r.start.x, p.x, r.end.x) && SideHas(r.start.y, p.y, r.end.y) && SideHas(r.start.z, p.z, r.end.z)
  }

  /** A value between the two bounds of a side lands in a cell between their cells; only a grid of
      a single cell can make the side empty. */
  lemma CellInside(t: Transformer, low: real, v: real, high: real, range: real)
    requires range >= 0.0 && low <= v < high && 0.0 <= v <= range
    ensures 0 <= t.Low(low, range) <= t.Low(v, range) < t.GridSize() && t.High(high, range) <= t.GridSize()
    ensures SideHas(t.Low(low, range), t.Low(v, range), t.High(high, range))
    ensures t.gridBits >= 1 ==> t.Low(v, range) < t.High(high, range)
  {
    var size := t.GridSize();
    assert size >= 2 <==> t.gridBits >= 1;
    if range > 0.0 {
      ScaledMonotonic(low, v, range, size);
      ScaledMonotonic(v, high, range, size);
      ScaledEnds(v, range, size);
      if size > 1 {
        CutInside(Scaled(low, range, size - 1), Scaled(v, range, size - 1), Scaled(high, range, size - 1), size);
      } else {
        assert Scaled(low, range, 0) == Scaled(v, range, 0) == Scaled(high, range, 0) == 0.0;
      }
    }
  }

  lemma CutInside(a: real, b: real, c: real, size: nat)
    requires a <= b < c && 0.0 <= b <= (size - 1) as real
    ensures 0 <= LowCell(a, size) <= LowCell(b, size) < HighCell(c, size) <= size
  {}

  /** The grid cell of a position in a continuous box is inside the grid box of that box, or, with a
      single cell, at the start of its empty sides. */
  lemma GridPointInRect(t: Transformer, box: Box, p: Position)
    requires t.InRange(p) && box.Contains(p)
    ensures RectHas(t.ToGridRect(box), t.ToGridPoint(p))
    ensures t.gridBits >= 1 ==> t.ToGridRect(box).ContainsPoint(t.ToGridPoint(p))
    ensures Cube(Point(0, 0, 0), t.GridSize()).ContainsPoint(t.ToGridPoint(p))
    ensures t.ToGridRect(box).Ordered()
  {
    hide Transformer.Low, Transformer.High, Transformer.GridSize, Pow2;
    CellInside(t, (box.minTs - t.minTs) as real, (p.timestamp - t.minTs) as real, (box.maxTs - t.minTs) as real,
               t.TsRange());
    CellInside(t, box.minLat + 90.0, p.latitude + 90.0, box.maxLat + 90.0, 180.0);
    CellInside(t, box.minLon + 180.0, p.longitude + 180.0, box.maxLon + 180.0, 360.0);
  }
}
