/** Integer grid points and half-open boxes. */
module Grid {

  datatype Point = Point(x: int, y: int, z: int)

  datatype Rect = Rect(start: Point, end: Point) {

    predicate ContainsPoint(p: Point) {
      && start.x <= p.x < end.x
      && start.y <= p.y < end.y
      && start.z <= p.z < end.z
    }

    predicate ContainsRect(r: Rect) {
      && start.x <= r.start.x && r.end.x <= end.x
      && start.y <= r.start.y && r.end.y <= end.y
      && start.z <= r.start.z && r.end.z <= end.z
    }

    /** What the constructor demands of its corners; it throws otherwise. */
    predicate Ordered() {
      start.x <= end.x && start.y <= end.y && start.z <= end.z
    }
  }

  function Cube(p: Point, width: int): Rect {
    Rect(p, Point(p.x + width, p.y + width, p.z + width))
  }
}
