/** The octree as it is built and searched: a breadth-first build with a visited set, and a
    depth-first search for the cubes that contain a point. */
module QuadTrees {
  import opened Arith
  import opened Grid
  import opened Octree
  import opened Sequences

  ghost predicate Containing(height: nat, p: Point, cubes: seq<Rect>) {
    Distinct(cubes) && forall c :: c in cubes ==> InLattice(height, c) && c.ContainsPoint(p)
  }

  /** The children of a cube, overlapping by half their width when that is a whole number. */
  method GetChildren(parent: Rect) returns (children: seq<Rect>)
    ensures children == Children(parent)
  {
    hide ChildAt;
    var childWidth := Width(parent) / 2;
    if childWidth <= 0 { return []; }
    children := [];
    if childWidth >= 2 {
      for dx := 0 to 3
        invariant |children| == 9 * dx && children <= Children(parent)
      {
        for dy := 0 to 3
          invariant |children| == 9 * dx + 3 * dy && children <= Children(parent)
        {
          for dz := 0 to 3
            invariant |children| == 9 * dx + 3 * dy + dz && children <= Children(parent)
          {
            assert Children(parent)[9 * dx + 3 * dy + dz] == ChildAt(parent, dx, dy, dz);
            children := children + [ChildAt(parent, dx, dy, dz)];
          }
        }
      }
    } else {
      for dx := 0 to 2
        invariant |children| == 4 * dx && children <= Children(parent)
      {
        for dy := 0 to 2
          invariant |children| == 4 * dx + 2 * dy && children <= Children(parent)
        {
          for dz := 0 to 2
            invariant |children| == 4 * dx + 2 * dy + dz && children <= Children(parent)
          {
            assert Children(parent)[4 * dx + 2 * dy + dz] == ChildAt(parent, dx, dy, dz);
            children := children + [ChildAt(parent, dx, dy, dz)];
          }
        }
      }
    }
  }

  /** Queues the children that have not been seen, and marks them as seen. */
  method Enqueue(children: seq<Rect>, queue: seq<Rect>, visited: set<Rect>)
    returns (queue': seq<Rect>, visited': set<Rect>)
    requires Distinct(queue) && Members(queue) <= visited
    ensures visited' == visited + Members(children)
    ensures Distinct(queue') && Members(queue') == Members(queue) + (visited' - visited)
  {
    queue', visited' := queue, visited;
    for i := 0 to |children|
      invariant visited' == visited + Members(children[..i])
      invariant Distinct(queue') && Members(queue') == Members(queue) + (visited' - visited)
    {
      assert Members(children[..i + 1]) == Members(children[..i]) + {children[i]};
      if children[i] !in visited' {
        visited' := visited' + {children[i]};
        queue' := queue' + [children[i]];
      }
    }
    assert children[..|children|] == children;
  }

  class QuadTree {
    const height: nat
    const maxDomain: nat
    const root: Rect
    var dict: map<Rect, seq<Rect>>

    /** The dictionary lists the children of exactly the lattice cubes that have any, and of the root. */
    ghost predicate Valid()
      reads this
    {
      && maxDomain == Pow2(height) && root == Root(height)
      && (forall c :: c in dict <==> InLattice(height, c) && (Width(c) > 1 || c == root))
      && (forall c :: c in dict ==> dict[c] == Children(c))
    }

    constructor (height: nat)
      ensures Valid() && this.height == height
    {
      this.height := height;
      maxDomain := Pow2(height);
      root := Root(height);
      dict := map[];
      new;
      BuildIterative();
    }

    method BuildIterative()
      requires maxDomain == Pow2(height) && root == Root(height)
      modifies this
      ensures Valid()
    {
      hide Exploring, Listed, Members, Children, Universe, InLattice, Root, Width, Cube, Pow2;
      var queue, visited := [root], {root};
      dict := map[root := []];
      ghost var done: set<Rect> := {};
      ExploringStarts(height);
      while queue != []
        invariant Exploring(height, queue, visited, done) && Listed(height, dict, done)
        decreases Universe(height) - done
      {
        ghost var queue0, visited0 := queue, visited;
        NextCube(height, queue, visited, done);
        var current := queue[0];
        queue := queue[1..];
        if Width(current) <= 1 {
          LeafListed(height, dict, done, current);
        } else {
          var children := GetChildren(current);
          NodeListed(height, dict, done, current);
          dict := dict[current := children];
          queue, visited := Enqueue(children, queue, visited);
        }
        CubeExplored(height, queue0, visited0, done, queue, visited);
        done := done + {current};
      }
      AllExplored(height, visited, done, dict);
    }

    /** Visits a cube and, below it, every cube that contains the point, each once. */
    method Collect(rect: Rect, p: Point, visited: set<Rect>, result: seq<Rect>, ghost j: nat)
      returns (visited': set<Rect>, result': seq<Rect>)
      requires Valid() && IsCell(height, rect, j) && rect.ContainsPoint(p)
      requires Containing(height, p, result) && visited == Members(result)
      ensures Containing(height, p, result') && visited' == Members(result')
      ensures visited <= visited' && rect in visited' && AllClosed(p, visited' - visited, visited')
      decreases j, 1
    {
      visited', result' := visited, result;
      if rect in visited {
        NoneClosed(p, visited);
        return;
      }
      OneMore(height, p, result, rect, j);
      visited', result' := visited' + {rect}, result' + [rect];
      if rect !in dict {
        LeafHasNoChildren(rect);
        assert visited' - visited == {rect};
        return;
      }
      visited', result' := CollectChildren(rect, p, visited', result', j);
      ClosedWithRoot(p, rect, visited, visited');
    }

    /** The loop over the children of a cube. */
    method CollectChildren(rect: Rect, p: Point, visited: set<Rect>, result: seq<Rect>, ghost j: nat)
      returns (visited': set<Rect>, result': seq<Rect>)
      requires Valid() && IsCell(height, rect, j) && rect in dict
      requires Containing(height, p, result) && visited == Members(result)
      ensures Containing(height, p, result') && visited' == Members(result')
      ensures visited <= visited' && AllClosed(p, visited' - visited, visited') && Closed(p, rect, visited')
      decreases j, 0
    {
      hide Containing, Members, AllClosed, IsCell, Children, Rect.ContainsPoint, Rect.ContainsRect, Root, Width, Pow2;
      hide InLattice;
      var children := dict[rect];
      visited', result' := visited, result;
      NoneClosed(p, visited);
      for i := 0 to |children|
        invariant Containing(height, p, result') && visited' == Members(result')
        invariant visited <= visited' && AllClosed(p, visited' - visited, visited')
        invariant forall h :: 0 <= h < i && children[h].ContainsPoint(p) ==> children[h] in visited'
      {
        if children[i].ContainsPoint(p) {
          ListedInside(height, rect, j, children[i]);
          ghost var before := visited';
          visited', result' := Collect(children[i], p, visited', result', j - 1);
          ClosedJoin(p, visited, before, visited');
        }
      }
    }

    /** The lattice cubes that contain the point, each once. */
    method FindContainingRangeCovers(p: Point) returns (result: seq<Rect>)
      requires Valid()
      ensures Distinct(result)
      ensures forall c :: c in result <==> InLattice(height, c) && c.ContainsPoint(p)
    {
      hide AllClosed, IsCell, Children, Rect.ContainsPoint, InLattice, Root;
      RootInLattice(height);
      if !root.ContainsPoint(p) {
        OutsideRoot(height, p);
        return [];
      }
      NothingCollected(height, p);
      var visited;
      visited, result := Collect(root, p, {}, [], height);
      PointReached(height, p, visited);
    }
  }

  /** The children of a cube that contain the point are among the cubes. */
  ghost predicate Closed(p: Point, c: Rect, cubes: set<Rect>) {
    forall q :: q in Children(c) && q.ContainsPoint(p) ==> q in cubes
  }

  ghost predicate AllClosed(p: Point, some: set<Rect>, cubes: set<Rect>)
  {
    forall c :: c in some ==> Closed(p, c, cubes)
  }

  lemma NoneClosed(p: Point, cubes: set<Rect>)
    ensures AllClosed(p, cubes - cubes, cubes)
  {}

  lemma ClosedJoin(p: Point, base: set<Rect>, some: set<Rect>, more: set<Rect>)
    requires base <= some <= more && AllClosed(p, some - base, some) && AllClosed(p, more - some, more)
    ensures AllClosed(p, more - base, more)
  {
    forall c | c in more - base ensures Closed(p, c, more) {
      if c in some { assert Closed(p, c, some); } else { assert c in more - some; }
    }
  }

  lemma ClosedWithRoot(p: Point, rect: Rect, visited: set<Rect>, cubes: set<Rect>)
    requires AllClosed(p, cubes - (visited + {rect}), cubes) && Closed(p, rect, cubes)
    ensures AllClosed(p, cubes - visited, cubes)
  {
    hide Closed;
    forall c | c in cubes - visited ensures Closed(p, c, cubes) {
      assert c != rect ==> c in cubes - (visited + {rect});
    }
  }

  lemma OutsideRoot(height: nat, p: Point)
    requires !Root(height).ContainsPoint(p)
    ensures forall c :: InLattice(height, c) ==> !c.ContainsPoint(p)
  {}

  lemma NothingCollected(height: nat, p: Point)
    ensures Containing(height, p, []) && Members<Rect>([]) == {}
  {}

  lemma OneMore(height: nat, p: Point, cubes: seq<Rect>, rect: Rect, j: nat)
    requires Containing(height, p, cubes) && rect !in Members(cubes) && IsCell(height, rect, j) && rect.ContainsPoint(p)
    ensures Containing(height, p, cubes + [rect]) && Members(cubes + [rect]) == Members(cubes) + {rect}
  {
    hide IsCell, Rect.ContainsPoint;
  }

  // ----- the state of the breadth-first build

  /** The queue holds the cubes seen but not yet done; the children of a done cube are seen. */
  ghost predicate Exploring(height: nat, queue: seq<Rect>, visited: set<Rect>, done: set<Rect>) {
    && Distinct(queue) && Members(queue) <= visited && done == visited - Members(queue)
    && Root(height) in visited && (forall c :: c in visited ==> InLattice(height, c))
    && forall c :: c in done ==> Members(Children(c)) <= visited
  }

  /** The dictionary lists the children of the done cubes that have any; the root is always in it. */
  ghost predicate Listed(height: nat, dict: map<Rect, seq<Rect>>, done: set<Rect>) {
    && Root(height) in dict
    && (forall c :: c in dict ==> c == Root(height) || (c in done && Width(c) > 1))
    && (forall c :: c in done && Width(c) > 1 ==> c in dict)
    && forall c :: c in dict ==> dict[c] == if c in done then Children(c) else []
  }

  lemma ExploringStarts(height: nat)
    ensures Exploring(height, [Root(height)], {Root(height)}, {})
    ensures Listed(height, map[Root(height) := []], {})
  {
    RootInLattice(height);
    assert InLattice(height, Root(height)) && Members([Root(height)]) == {Root(height)};
  }

  lemma NextCube(height: nat, queue: seq<Rect>, visited: set<Rect>, done: set<Rect>)
    requires Exploring(height, queue, visited, done) && queue != []
    ensures Distinct(queue[1..]) && Members(queue[1..]) <= visited
    ensures queue[0] !in done && queue[0] in Universe(height) && done <= Universe(height)
    ensures Width(queue[0]) <= 1 ==> Members(Children(queue[0])) == {}
  {
    hide Universe, Children;
    FirstInQueue(queue);
    forall c | c in visited ensures c in Universe(height) { LatticeInUniverse(height, c); }
    if Width(queue[0]) <= 1 { LeafHasNoChildren(queue[0]); }
  }

  /** Taking the first cube off the queue and queueing its unseen children. */
  lemma CubeExplored(height: nat, queue: seq<Rect>, visited: set<Rect>, done: set<Rect>, queue': seq<Rect>,
                     visited': set<Rect>)
    requires Exploring(height, queue, visited, done) && queue != [] && visited' == visited + Members(Children(queue[0]))
    requires Distinct(queue') && Members(queue') == Members(queue[1..]) + (visited' - visited)
    ensures Exploring(height, queue', visited', done + {queue[0]})
  {
    hide InLattice, Children, Root;
    FirstInQueue(queue);
    ChildrenInLattice(height, queue[0]);
    forall c | c in done + {queue[0]} ensures Members(Children(c)) <= visited' {
      assert c in done ==> Members(Children(c)) <= visited;
    }
  }

  lemma LeafListed(height: nat, dict: map<Rect, seq<Rect>>, done: set<Rect>, c: Rect)
    requires Listed(height, dict, done) && Width(c) <= 1
    ensures Listed(height, dict, done + {c})
  {
    hide Children, Root, Width;
    LeafHasNoChildren(c);
  }

  lemma NodeListed(height: nat, dict: map<Rect, seq<Rect>>, done: set<Rect>, c: Rect)
    requires Listed(height, dict, done) && Width(c) > 1
    ensures Listed(height, dict[c := Children(c)], done + {c})
  {
    hide Children, Root, Width;
  }

  /** When the queue is empty the dictionary lists the whole lattice. */
  lemma AllExplored(height: nat, visited: set<Rect>, done: set<Rect>, dict: map<Rect, seq<Rect>>)
    requires Exploring(height, [], visited, done) && Listed(height, dict, done)
    ensures forall c :: c in dict <==> InLattice(height, c) && (Width(c) > 1 || c == Root(height))
    ensures forall c :: c in dict ==> dict[c] == Children(c)
  {
    hide InLattice, Children, Root, Width;
    assert visited == done;
    forall p, q | p in visited && q in Children(p) ensures q in visited { assert q in Members(Children(p)); }
    LatticeReached(height, visited);
  }

  lemma ChildrenInLattice(height: nat, c: Rect)
    requires InLattice(height, c)
    ensures forall q :: q in Children(c) ==> InLattice(height, q)
  {
    var j :| IsCell(height, c, j);
    forall q | q in Children(c) ensures InLattice(height, q) {
      ListedInside(height, c, j, q);
    }
  }

  lemma LatticeReached(height: nat, cubes: set<Rect>)
    requires Root(height) in cubes
    requires forall p, q :: p in cubes && q in Children(p) ==> q in cubes
    ensures forall c :: InLattice(height, c) ==> c in cubes
  {
    forall c | InLattice(height, c) ensures c in cubes {
      var j :| IsCell(height, c, j);
      ReachesLattice(height, cubes, (r: Rect) => true, c, j);
    }
  }

  lemma PointReached(height: nat, p: Point, cubes: set<Rect>)
    requires Root(height) in cubes
    requires AllClosed(p, cubes - {}, cubes)
    ensures forall c :: InLattice(height, c) && c.ContainsPoint(p) ==> c in cubes
  {
    hide Children, IsCell;
    forall c, q | c in cubes && q in Children(c) && q.ContainsPoint(p) ensures q in cubes {
      assert c in cubes - {} && Closed(p, c, cubes);
    }
    forall c | InLattice(height, c) && c.ContainsPoint(p) ensures c in cubes {
      var j :| IsCell(height, c, j);
      ReachesLattice(height, cubes, (r: Rect) => r.ContainsPoint(p), c, j);
    }
  }

  lemma FirstInQueue(queue: seq<Rect>)
    requires queue != [] && Distinct(queue)
    ensures Members(queue) == {queue[0]} + Members(queue[1..]) && queue[0] !in Members(queue[1..])
    ensures Distinct(queue[1..])
  {
    assert queue == [queue[0]] + queue[1..];
  }

  lemma LeafHasNoChildren(c: Rect)
    requires Width(c) <= 1
    ensures Children(c) == []
  {}
}
