/** The keyword segment tree. Nodes hold references to Bloom filters; merging two filters
    writes into the first of them, so parents, leaves and siblings come to share one object. */
module SegmentTrees {
  import opened Arith
  import opened Tool
  import opened Bloom
  import opened HeapTree
  import opened Listings
  import opened Sequences

  datatype Node = Node(left: int, right: int, bf: BasicBloomFilter?, tokens: seq<Token>)

  /** An update of one leaf, with the state it starts from. */
  datatype Addition = Addition(node: nat, id: nat, kw: string, leaf: Node, keywords: seq<set<string>>,
                               given: seq<seq<Token>>)

  datatype Pair = Pair(bf1: BasicBloomFilter?, bf2: BasicBloomFilter?)

  ghost predicate Passes(bf: BasicBloomFilter?, kw: string)
    reads bf
  {
    bf != null && bf.Valid() && bf.Has(kw)
  }

  function Sibling(node: nat): nat
    requires node > 0
  {
    if node % 2 == 0 then node + 1 else node - 1
  }

  /** A node below the root and its sibling are the two children of one node. */
  lemma SiblingNodes(node: nat)
    requires node / 2 >= 1
    ensures if node % 2 == 0 then node == 2 * (node / 2) && Sibling(node) == 2 * (node / 2) + 1
            else Sibling(node) == 2 * (node / 2) && node == 2 * (node / 2) + 1
  {}

  /** Node, sibling and parent are three nodes with spans; the parent and its parent are above. */
  lemma FamilyNodes(n: nat, node: nat)
    requires n > 0 && node / 2 >= 1 && SpanOf(n, node).Span?
    ensures SpanOf(n, node / 2).Span? && SpanOf(n, Sibling(node)).Span?
    ensures node != Sibling(node) && node / 2 !in {node, Sibling(node)}
    ensures node / 2 / 2 !in {node, Sibling(node), node / 2}
    ensures Above(node / 2, node / 2) && Above(node / 2 / 2, node / 2)
  {
    SiblingNodes(node);
    assert IsInner(n, node / 2);
    ChildSpans(n, node / 2);
  }

  /** A new leaf refers to a filter that was not there before, any other new node to none. */
  ghost predicate LeafNew(n: nat, v: nat, bf: BasicBloomFilter?, before: set<BasicBloomFilter>)
    requires n > 0
  {
    if SpanOf(n, v).Span? && !IsInner(n, v) then bf != null && bf !in before else bf == null
  }

  /** All nodes below this one are new, and no two leaves share a filter. */
  ghost predicate LeavesNew(n: nat, nodes: seq<Node>, node: nat, before: set<BasicBloomFilter>)
    requires n > 0
  {
    && (forall v: nat :: v < |nodes| && Above(node, v) ==> LeafNew(n, v, nodes[v].bf, before))
    && forall v: nat, w: nat :: v < w < |nodes| && Above(node, v) && Above(node, w) && nodes[v].bf != null ==>
         nodes[v].bf != nodes[w].bf
  }

  /** What building the two halves of an inner node one after the other gives. */
  lemma LeavesJoined(n: nat, node: nat, left: seq<Node>, nodes: seq<Node>, before: set<BasicBloomFilter>,
                     between: set<BasicBloomFilter>)
    requires n > 0 && node > 0 && IsInner(n, node) && |left| == |nodes| > node && before <= between
    requires nodes[node].bf == null
    requires LeavesNew(n, left, 2 * node, before) && LeavesNew(n, nodes, 2 * node + 1, between)
    requires forall v: nat :: v < |left| && Above(2 * node, v) && left[v].bf != null ==> left[v].bf in between
    requires forall v: nat :: v < |nodes| && !Above(2 * node + 1, v) ==> nodes[v] == left[v]
    ensures LeavesNew(n, nodes, node, before)
  {
    hide SpanOf, Above;
    BelowChildren(node);
    forall v: nat | v < |nodes| && Above(node, v) ensures LeafNew(n, v, nodes[v].bf, before) {
      if Above(2 * node, v) {
        assert LeafNew(n, v, left[v].bf, before);
      } else if v != node {
        assert LeafNew(n, v, nodes[v].bf, between);
      }
    }
    forall v: nat | v < |nodes| && Above(2 * node + 1, v) ensures nodes[v].bf != null ==> nodes[v].bf !in between {
      assert LeafNew(n, v, nodes[v].bf, between);
    }
  }

  ghost function AllOf(keywords: seq<set<string>>): set<string> {
    set i: nat, kw | i < |keywords| && kw in keywords[i] :: kw
  }

  /** One more keyword has its own cells and those of the keywords before. */
  lemma KeywordAccounted(s: Shape, cells: set<nat>, keywords: seq<set<string>>, id: nat, kw: string)
    requires s.Valid() && id < |keywords| && cells == CellsOfAll(s, AllOf(keywords))
    ensures cells + s.CellsOf(kw) == CellsOfAll(s, AllOf(keywords[id := keywords[id] + {kw}]))
  {
    hide Shape.CellsOf;
    var keywords' := keywords[id := keywords[id] + {kw}];
    assert kw in keywords'[id];
    forall x ensures x in AllOf(keywords') <==> x in AllOf(keywords) || x == kw {
      if i: nat :| i < |keywords| && x in keywords[i] { assert x in keywords'[i]; }
    }
    assert AllOf(keywords') == AllOf(keywords) + {kw};
  }

  class SegmentTree {
    const n: nat
    const shape: Shape
    const threshold: real
    const tree: array<Node>
    /** Every filter object the tree has ever referred to. */
    ghost var filters: set<BasicBloomFilter>
    /** The keywords, and the tokens in order, that position i has been updated with. */
    ghost var keywords: seq<set<string>>
    ghost var given: seq<seq<Token>>

    ghost predicate NodeOk(v: nat)
      requires n > 0 && |given| == n && v < tree.Length
      reads this, tree
    {
      && (tree[v].bf != null ==> tree[v].bf in filters)
      && match SpanOf(n, v)
         case NoSpan => tree[v] == Node(0, 0, null, [])
         case Span(lo, hi) =>
           && tree[v].left == lo && tree[v].right == hi && lo <= hi < n
           && tree[v].tokens == if lo == hi then given[lo] else []
    }

    ghost predicate Structured()
      reads this, tree, filters
    {
      && n > 0 && shape.Valid() && tree.Length == 4 * n && |keywords| == |given| == n
      && (forall f :: f in filters ==> f.Valid() && f.shape == shape)
      && (forall v: nat {:trigger tree[v]} :: v < 4 * n ==> NodeOk(v))
    }

    /** The filter of node v passes every keyword given to a position in its span. */
    ghost predicate Covers(v: nat)
      requires Structured() && v < 4 * n
      reads this, tree, filters
    {
      SpanOf(n, v).Span? ==>
        forall i: nat, kw {:trigger kw in keywords[i]} ::
          SpanOf(n, v).lo <= i <= SpanOf(n, v).hi && i < n && kw in keywords[i] ==> Passes(tree[v].bf, kw)
    }

    /** All keywords the tree was updated with. */
    ghost function Keywords(): set<string>
      reads this
    {
      AllOf(keywords)
    }

    /** The cells set in some filter are those of the keywords. */
    ghost predicate Accounted()
      requires shape.Valid()
      reads this, filters
    {
      SetCells() == CellsOfAll(shape, Keywords())
    }

    ghost predicate Valid()
      reads this, tree, filters
    {
      && Structured() && Accounted()
      && (forall v: nat :: v < 4 * n ==> Covers(v))
      && (forall i: nat :: i < n && keywords[i] != {} ==> given[i] != [])
    }

    /** The cells that are set in some filter. */
    ghost function SetCells(): set<nat>
      reads this, filters
    {
      set f, c: nat | f in filters && c < |f.bits| && f.bits[c] :: c
    }

    // ----- filters only grow

    /** The nodes keep their form while only filter contents change. */
    twostate lemma StructureKept()
      requires old(Structured()) && tree[..] == old(tree[..])
      requires filters == old(filters) && keywords == old(keywords) && given == old(given)
      requires forall f :: f in filters ==> f.Valid()
      ensures Structured()
    {
      forall v: nat | v < 4 * n ensures NodeOk(v) {
        assert old(NodeOk(v));
        assert tree[v] == tree[..][v] == old(tree[..])[v];
      }
    }

    /** Node v stays covered while its filter passes no less than before. */
    twostate lemma CoversKept(v: nat)
      requires old(Structured()) && Structured() && v < 4 * n && keywords == old(keywords)
      requires forall kw :: old(Passes(tree[v].bf, kw)) ==> Passes(tree[v].bf, kw)
      requires old(Covers(v))
      ensures Covers(v)
    {
      if SpanOf(n, v).Span? {
        forall i: nat, kw | SpanOf(n, v).lo <= i <= SpanOf(n, v).hi && i < n && kw in keywords[i]
          ensures Passes(tree[v].bf, kw)
        {
          assert old(Passes(tree[v].bf, kw));
        }
      }
    }

    /** A filter that has only gained bits passes no less than before. */
    twostate lemma GrownPasses(bf: BasicBloomFilter?)
      requires shape.Valid()
      requires bf != null ==> bf.shape == shape && |bf.bits| == shape.cells && Grown(old(bf.bits), bf.bits)
      ensures forall kw :: old(Passes(bf, kw)) ==> Passes(bf, kw)
    {
      forall kw | old(Passes(bf, kw)) ensures Passes(bf, kw) {
        HitGrows(shape, old(bf.bits), bf.bits, kw);
      }
    }

    /** While filters only grow, every node that keeps its filter object stays covered. */
    twostate lemma AllCoversKept(changed: set<nat>)
      requires old(Structured()) && Structured()
      requires old(filters) <= filters && keywords == old(keywords)
      requires forall f :: f in old(filters) ==> Grown(old(f.bits), f.bits)
      requires forall v: nat :: v < 4 * n && v !in changed ==> tree[v].bf == old(tree[v].bf)
      ensures forall v: nat :: v < 4 * n && v !in changed && old(Covers(v)) ==> Covers(v)
    {
      forall v: nat | v < 4 * n && v !in changed && old(Covers(v)) ensures Covers(v) {
        assert old(NodeOk(v));
        GrownPasses(tree[v].bf);
        CoversKept(v);
      }
    }

    /** The union of two filters, written into the first. A missing filter counts as empty,
        and then the result is the other object itself; filters of different sizes are left alone. */
    method MergeBloom(bf1: BasicBloomFilter?, bf2: BasicBloomFilter?) returns (r: BasicBloomFilter?)
      requires bf1 != null ==> bf1.Valid()
      requires bf2 != null ==> bf2.Valid()
      modifies bf1
      ensures r == if bf1 == null then bf2 else bf1
      ensures bf1 != null ==> bf1.Valid() && Grown(old(bf1.bits), bf1.bits)
      ensures bf1 != null ==>
                bf1.bits == if bf2 != null && |old(bf2.bits)| == |old(bf1.bits)|
                            then Or(old(bf1.bits), old(bf2.bits)) else old(bf1.bits)
    {
      if bf1 == null && bf2 == null { return null; }
      if bf1 == null { return bf2; }
      if bf2 == null { return bf1; }
      if |bf1.bits| != |bf2.bits| { return bf1; }
      var merged := Or(bf1.bits, bf2.bits);
      var ok := bf1.SetStorage(merged);
      return bf1;
    }

    /** The filter is the union of two: the first object, written into, or the second if there is no
        first; no other filter of the tree changes. */
    twostate predicate Joined(bf: BasicBloomFilter?, bf1: BasicBloomFilter?, bf2: BasicBloomFilter?)
      reads this, filters, bf1
    {
      && bf == (if bf1 == null then bf2 else bf1)
      && (bf1 != null && (bf2 == null || bf2 == bf1) ==> bf1.bits == old(bf1.bits))
      && (bf1 != null && bf2 != null && bf2 != bf1 ==>
            |old(bf1.bits)| == |old(bf2.bits)| && bf1.bits == Or(old(bf1.bits), old(bf2.bits)))
      && forall f :: f in filters && f in old(filters) && f != bf1 ==> f.bits == old(f.bits)
    }

    /** Writing the union of two filters into the first sets no cell that was set nowhere. */
    twostate lemma UnionKeepsCells(p: Pair)
      requires filters == old(filters)
      requires p.bf1 != null ==> p.bf1 in filters && Grown(old(p.bf1.bits), p.bf1.bits)
      requires p.bf2 != null ==> p.bf2 in filters
      requires forall f :: f in filters && f != p.bf1 ==> f.bits == old(f.bits)
      requires p.bf1 != null && p.bf2 == null ==> p.bf1.bits == old(p.bf1.bits)
      requires p.bf1 != null && p.bf2 != null ==>
                 |old(p.bf1.bits)| == |old(p.bf2.bits)| && p.bf1.bits == Or(old(p.bf1.bits), old(p.bf2.bits))
      ensures SetCells() == old(SetCells())
    {
      forall f, c: nat | f in filters && c < |f.bits| && f.bits[c] ensures c in old(SetCells()) {
        if f == p.bf1 && !old(f.bits)[c] { assert p.bf2 != null && old(p.bf2.bits)[c]; }
      }
      forall f, c: nat | f in filters && c < |old(f.bits)| && old(f.bits)[c] ensures c in SetCells() {
        assert Grown(old(f.bits), f.bits);
      }
    }

    /** Lets node refer to the filter bf. */
    method SetFilter(node: nat, bf: BasicBloomFilter?)
      requires Structured() && node < 4 * n && SpanOf(n, node).Span?
      requires bf != null ==> bf in filters
      modifies tree
      ensures Structured()
      ensures tree[node] == old(tree[node]).(bf := bf)
      ensures forall v: nat :: v < 4 * n && v != node ==> tree[v] == old(tree[v])
    {
      assert NodeOk(node);
      tree[node] := tree[node].(bf := bf);
      forall v: nat | v < 4 * n ensures NodeOk(v) {
        assert old(NodeOk(v));
      }
    }

    /** Gives an inner node the union of its children's filters, reusing a shared one. */
    method JoinChildren(node: nat)
      requires Structured() && IsInner(n, node) && 2 * node + 1 < 4 * n
      modifies tree, filters
      ensures Structured()
      ensures forall f :: f in filters ==> Grown(old(f.bits), f.bits)
      ensures forall v: nat :: v < 4 * n && v != node ==> tree[v] == old(tree[v])
      ensures forall kw :: old(Passes(tree[2 * node].bf, kw)) || old(Passes(tree[2 * node + 1].bf, kw)) ==>
                Passes(tree[node].bf, kw)
      ensures Joined(tree[node].bf, old(tree[2 * node].bf), old(tree[2 * node + 1].bf))
      ensures SetCells() == old(SetCells())
    {
      ChildSpans(n, node);
      var bf1, bf2 := tree[2 * node].bf, tree[2 * node + 1].bf;
      assert NodeOk(2 * node) && NodeOk(2 * node + 1);
      if bf1 == bf2 && bf1 != null {
        SetFilter(node, bf1);
      } else {
        var r := MergeBloom(bf1, bf2);
        StructureKept();
        UnionKeepsCells(Pair(bf1, bf2));
        SetFilter(node, r);
      }
    }

    /** A node is covered if it passes whatever its covered children passed. */
    twostate lemma ParentCovered(node: nat)
      requires old(Structured()) && Structured() && IsInner(n, node) && 2 * node + 1 < 4 * n
      requires keywords == old(keywords)
      requires forall kw :: old(Passes(tree[2 * node].bf, kw)) || old(Passes(tree[2 * node + 1].bf, kw)) ==>
                 Passes(tree[node].bf, kw)
      requires old(Covers(2 * node)) && old(Covers(2 * node + 1))
      ensures Covers(node)
    {
      ChildSpans(n, node);
      var Span(lo, hi) := SpanOf(n, node);
      forall i: nat, kw | lo <= i <= hi && i < n && kw in keywords[i] ensures Passes(tree[node].bf, kw) {
        if i <= (lo + hi) / 2 {
          assert old(Passes(tree[2 * node].bf, kw));
        } else {
          assert old(Passes(tree[2 * node + 1].bf, kw));
        }
      }
    }

    /** An inner node refers to its left child's filter, or to its right child's if that is missing. */
    ghost predicate TakesFirst(v: nat)
      requires n > 0
      reads tree
    {
      IsInner(n, v) ==>
        && 2 * v + 1 < tree.Length
        && tree[v].bf == if tree[2 * v].bf != null then tree[2 * v].bf else tree[2 * v + 1].bf
    }

    /** Gives node the union of its children's filters, if it is an inner node. The nodes that
        were covered stay covered, and the node itself is covered when its children are. */
    method UpdateParent(node: nat)
      requires Structured()
      modifies tree, filters
      ensures Structured()
      ensures forall f :: f in filters ==> Grown(old(f.bits), f.bits)
      ensures forall v: nat :: v < 4 * n && v != node ==> tree[v] == old(tree[v])
      ensures forall v: nat :: v < 4 * n && v != node && old(Covers(v)) ==> Covers(v)
      ensures IsInner(n, node) ==>
                2 * node + 1 < 4 * n && (old(Covers(2 * node) && Covers(2 * node + 1)) ==> Covers(node))
      ensures !IsInner(n, node) && node < 4 * n ==>
                tree[node] == old(tree[node]) && (old(Covers(node)) ==> Covers(node))
      ensures IsInner(n, node) ==> Joined(tree[node].bf, old(tree[2 * node].bf), old(tree[2 * node + 1].bf))
      ensures !IsInner(n, node) ==> forall f :: f in filters ==> f.bits == old(f.bits)
      ensures TakesFirst(node)
      ensures SetCells() == old(SetCells())
    {
      if SpanOf(n, node).Span? { NodeBelow(n, node); }
      if node <= 0 || node >= tree.Length || tree[node].left == tree[node].right { return; }
      if 2 * node >= tree.Length || 2 * node + 1 >= tree.Length { return; }
      assert NodeOk(node);
      JoinChildren(node);
      AllCoversKept({node});
      if old(Covers(2 * node) && Covers(2 * node + 1)) { ParentCovered(node); }
    }

    // ----- merging leaves

    method HammingDistance(bf1: BasicBloomFilter, bf2: BasicBloomFilter) returns (distance: nat)
      requires |bf1.bits| == |bf2.bits|
      ensures distance == Differences(bf1.bits, bf2.bits)
    {
      distance := 0;
      for i := 0 to |bf1.bits|
        invariant distance == Differences(bf1.bits[..i], bf2.bits[..i])
      {
        assert bf1.bits[..i + 1][..i] == bf1.bits[..i] && bf2.bits[..i + 1][..i] == bf2.bits[..i];
        if bf1.bits[i] != bf2.bits[i] { distance := distance + 1; }
      }
      assert bf1.bits[..|bf1.bits|] == bf1.bits && bf2.bits[..|bf2.bits|] == bf2.bits;
    }

    /** Merges the filter of sibling into that of node and lets node, sibling and parent share it. */
    method Share(node: nat, sibling: nat, parent: nat)
      requires Structured() && node < 4 * n && sibling < 4 * n && parent < 4 * n
      requires SpanOf(n, node).Span? && SpanOf(n, sibling).Span? && SpanOf(n, parent).Span?
      requires tree[node].bf != null && tree[sibling].bf != null && node != sibling
      requires parent != node && parent != sibling
      modifies tree, filters
      ensures Structured()
      ensures forall f :: f in filters ==> Grown(old(f.bits), f.bits)
      ensures forall v: nat :: v < 4 * n && v != parent && old(Covers(v)) ==> Covers(v)
      ensures tree[node].bf == tree[sibling].bf == tree[parent].bf == old(tree[node].bf)
      ensures Grown(old(tree[node].bf.bits), tree[node].bf.bits)
      ensures Grown(old(tree[sibling].bf.bits), tree[node].bf.bits)
      ensures tree[node].bf.bits == Or(old(tree[node].bf.bits), old(tree[sibling].bf.bits))
      ensures forall f :: f in filters && f != tree[node].bf ==> f.bits == old(f.bits)
      ensures forall v: nat :: v < 4 * n && v !in {node, sibling, parent} ==> tree[v] == old(tree[v])
      ensures SetCells() == old(SetCells())
    {
      assert NodeOk(node) && NodeOk(sibling);
      var bf1, bf2 := tree[node].bf, tree[sibling].bf;
      var r := MergeBloom(bf1, bf2);
      StructureKept();
      UnionKeepsCells(Pair(bf1, bf2));
      SetFilter(node, r);
      SetFilter(sibling, r);
      SetFilter(parent, r);
      AllCoversKept({sibling, parent});
      if old(Covers(sibling)) { CoversKept(sibling); }
    }

    /** The leaf and its sibling both have filters in use that differ in few enough cells. */
    ghost predicate Mergeable(node: nat)
      requires Structured() && node < 4 * n
      reads this, tree, filters
    {
      && SpanOf(n, node).Span? && SpanOf(n, node).lo == SpanOf(n, node).hi && node / 2 >= 1 && Sibling(node) < 4 * n
      && tree[Sibling(node)].bf != null && tree[node].bf != null
      && tree[Sibling(node)].bf in filters && tree[node].bf in filters
      && Ones(tree[node].bf.bits) != 0 && Ones(tree[Sibling(node)].bf.bits) != 0
      && Differences(tree[node].bf.bits, tree[Sibling(node)].bf.bits) as real < threshold * shape.cells as real
    }

    /** After an update of a leaf: if its filter and its sibling's are both in use and close
        enough, node, sibling and parent share their union from now on. Only nodes above the
        leaf can lose their coverage by this. */
    method MergeLeafNodes(node: nat, start: nat, end: nat)
      requires Structured() && node < 4 * n && SpanOf(n, node) == Span(start, end)
      modifies tree, filters
      ensures Structured()
      ensures forall f :: f in filters ==> Grown(old(f.bits), f.bits)
      ensures forall v: nat :: v < 4 * n && !Above(v, node / 2) && old(Covers(v)) ==> Covers(v)
      ensures !old(Mergeable(node)) ==> tree[..] == old(tree[..]) && forall f :: f in filters ==> f.bits == old(f.bits)
      ensures old(Mergeable(node)) ==>
                && tree[node].bf == tree[Sibling(node)].bf == tree[node / 2].bf == old(tree[node].bf)
                && Grown(old(tree[Sibling(node)].bf.bits), tree[node].bf.bits)
                && TakesFirst(node / 2 / 2)
      ensures forall v: nat :: v < 4 * n && v !in {node, Sibling(node), node / 2, node / 2 / 2} ==>
                tree[v] == old(tree[v])
      ensures SetCells() == old(SetCells())
    {
      hide Differences, Ones, Covers, Above, SetCells;
      if start != end { return; }
      var parent := node / 2;
      if parent < 1 || parent >= tree.Length { return; }
      var sibling := Sibling(node);
      if sibling >= tree.Length || tree[sibling].bf == null || tree[node].bf == null { return; }
      var bf1, bf2 := tree[node].bf, tree[sibling].bf;
      assert NodeOk(node) && NodeOk(sibling);
      if Ones(bf1.bits) == 0 || Ones(bf2.bits) == 0 { return; }
      var dist := HammingDistance(bf1, bf2);
      if dist as real < threshold * |bf1.bits| as real { MergeSiblings(node); }
    }

    /** The merge itself: node, sibling and parent share one filter, and the parent's parent is
        brought up to date. */
    method MergeSiblings(node: nat)
      requires Structured() && node < 4 * n && Mergeable(node)
      modifies tree, filters
      ensures Structured()
      ensures forall f :: f in filters ==> Grown(old(f.bits), f.bits)
      ensures forall v: nat :: v < 4 * n && !Above(v, node / 2) && old(Covers(v)) ==> Covers(v)
      ensures tree[node].bf == tree[Sibling(node)].bf == tree[node / 2].bf == old(tree[node].bf)
      ensures Grown(old(tree[Sibling(node)].bf.bits), tree[node].bf.bits)
      ensures forall v: nat :: v < 4 * n && v !in {node, Sibling(node), node / 2, node / 2 / 2} ==>
                tree[v] == old(tree[v])
      ensures TakesFirst(node / 2 / 2)
      ensures SetCells() == old(SetCells())
    {
      hide Differences, Ones, Covers, SetCells, Or, SpanOf, Above, IsInner, Joined, TakesFirst;
      var parent, sibling := node / 2, Sibling(node);
      FamilyNodes(n, node);
      Share(node, sibling, parent);
      UpdateParent(parent / 2);
    }

    // ----- updates

    /** Gives a leaf that has lost its filter a new one. */
    method EnsureFilter(node: nat)
      requires Structured() && node < 4 * n && SpanOf(n, node).Span?
      modifies this`filters, tree
      ensures Structured() && tree[node].bf != null
      ensures old(filters) <= filters && fresh(filters - old(filters))
      ensures forall v: nat :: v < 4 * n && old(Covers(v)) ==> Covers(v)
      ensures SetCells() == old(SetCells())
    {
      if tree[node].bf == null {
        var bf := new BasicBloomFilter(shape);
        filters := filters + {bf};
        forall v: nat | v < 4 * n ensures NodeOk(v) { assert old(NodeOk(v)); }
        SetFilter(node, bf);
        AllCoversKept({node});
        if old(Covers(node)) { CoversKept(node); }
      }
    }

    /** Puts the token and the keyword in a leaf. Every node that is not above the leaf is
        then covered, counting the new keyword. */
    method AddToLeaf(node: nat, id: nat, token: Token, kw: string)
      requires Valid() && node < 4 * n && id < n && SpanOf(n, node) == Span(id, id) && tree[node].bf != null
      modifies this`keywords, this`given, tree, filters
      ensures Structured()
      ensures keywords == old(keywords)[id := old(keywords)[id] + {kw}]
      ensures given == old(given)[id := old(given)[id] + [token]]
      ensures forall v: nat :: v < 4 * n && !Above(v, node / 2) ==> Covers(v)
      ensures SetCells() == old(SetCells()) + shape.CellsOf(kw)
    {
      assert NodeOk(node);
      ghost var addition := Addition(node, id, kw, tree[node], keywords, given);
      tree[node] := tree[node].(tokens := tree[node].tokens + [token]);
      tree[node].bf.Add(kw);
      keywords := keywords[id := keywords[id] + {kw}];
      given := given[id := given[id] + [token]];
      LeavesKept(addition);
      CoversAfterAdd(addition);
      CellsAdded(addition);
    }

    /** Adding a keyword to one filter sets the cells of the keyword and no other. */
    twostate lemma CellsAdded(a: Addition)
      requires shape.Valid() && filters == old(filters) && a.leaf.bf != null && a.leaf.bf in filters
      requires forall f :: f in filters ==> f.Valid() && f.shape == shape
      requires forall f :: f in filters && f != a.leaf.bf ==> f.bits == old(f.bits)
      requires Grown(old(a.leaf.bf.bits), a.leaf.bf.bits) && a.leaf.bf.Has(a.kw)
      requires forall c :: 0 <= c < |a.leaf.bf.bits| && a.leaf.bf.bits[c] && !old(a.leaf.bf.bits)[c] ==>
                 c in shape.CellsOf(a.kw)
      ensures SetCells() == old(SetCells()) + shape.CellsOf(a.kw)
    {
      forall c | c in shape.CellsOf(a.kw) ensures c in SetCells() {
        assert a.leaf.bf.bits[c];
      }
      forall f, c: nat | f in filters && c < |old(f.bits)| && old(f.bits)[c] ensures c in SetCells() {
        assert Grown(old(f.bits), f.bits);
      }
    }

    /** Every node away from the path to the updated leaf stays covered. */
    twostate lemma CoversAfterAdd(a: Addition)
      requires old(Valid()) && Structured() && a.node < 4 * n && a.id < n && SpanOf(n, a.node) == Span(a.id, a.id)
      requires a.keywords == old(keywords) && keywords == a.keywords[a.id := a.keywords[a.id] + {a.kw}]
      requires filters == old(filters) && forall v: nat :: v < 4 * n ==> tree[v].bf == old(tree[v].bf)
      requires forall f :: f in filters ==> Grown(old(f.bits), f.bits)
      requires Passes(tree[a.node].bf, a.kw)
      ensures forall v: nat :: v < 4 * n && !Above(v, a.node / 2) ==> Covers(v)
    {
      forall v: nat | v < 4 * n && !Above(v, a.node / 2) ensures Covers(v) {
        assert old(Covers(v));
        assert NodeOk(v);
        GrownPasses(tree[v].bf);
        if SpanOf(n, v).Span? && SpanOf(n, v).lo <= a.id <= SpanOf(n, v).hi { OnPath(n, v, a.node, a.id); }
      }
    }

    /** Only the leaf of a position holds that position's tokens. */
    twostate lemma LeavesKept(a: Addition)
      requires old(Structured()) && a.node < 4 * n && a.id < n && SpanOf(n, a.node) == Span(a.id, a.id)
      requires filters == old(filters) && forall f :: f in filters ==> f.Valid()
      requires |keywords| == |given| == n && a.given == old(given)
      requires forall i :: 0 <= i < n && i != a.id ==> given[i] == a.given[i]
      requires a.leaf == old(tree[a.node]) && tree[a.node] == a.leaf.(tokens := given[a.id])
      requires forall v: nat :: v < 4 * n && v != a.node ==> tree[v] == old(tree[v])
      ensures Structured()
    {
      forall v: nat | v < 4 * n ensures NodeOk(v) {
        assert old(NodeOk(v));
        if v != a.node && SpanOf(n, v) == Span(a.id, a.id) { LeafUnique(n, v, a.node, a.id); }
      }
    }

    /** The public update: out-of-range positions are refused; otherwise the position has one
        more token and keyword, and every node of the tree is covered again. */
    method Update(id: int, token: Token, kw: string)
      requires Valid()
      modifies this`filters, this`keywords, this`given, tree, filters
      ensures Valid() && old(filters) <= filters && fresh(filters - old(filters))
      ensures 0 <= id < n ==> keywords == old(keywords)[id := old(keywords)[id] + {kw}]
                              && given == old(given)[id := old(given)[id] + [token]]
      ensures !(0 <= id < n) ==> keywords == old(keywords) && given == old(given)
      ensures SetCells() == old(SetCells()) + if 0 <= id < n then shape.CellsOf(kw) else {}
    {
      if id < 0 || id >= n { return; }
      UpdateAt(1, 0, n - 1, id, token, kw);
    }

    method UpdateAt(node: nat, start: nat, end: nat, id: nat, token: Token, kw: string)
      requires Valid() && SpanOf(n, node) == Span(start, end) && start <= id <= end && id < n
      modifies this`filters, this`keywords, this`given, tree, filters
      ensures Valid() && old(filters) <= filters && fresh(filters - old(filters))
      ensures keywords == old(keywords)[id := old(keywords)[id] + {kw}]
      ensures given == old(given)[id := old(given)[id] + [token]]
      ensures SetCells() == old(SetCells()) + shape.CellsOf(kw)
      decreases end - start
    {
      hide SetCells, Covers, NodeOk, SpanOf, Above, Mergeable, TakesFirst;
      NodeBelow(n, node);
      if start == end {
        EnsureFilter(node);
        AddToLeaf(node, id, token, kw);
        MergeLeafNodes(node, start, end);
        UpdateAncestors(node);
        KeywordAccounted(shape, old(SetCells()), old(keywords), id, kw);
        return;
      }
      ChildSpans(n, node);
      var mid := (start + end) / 2;
      if id <= mid {
        UpdateAt(2 * node, start, mid, id, token, kw);
      } else {
        UpdateAt(2 * node + 1, mid + 1, end, id, token, kw);
      }
    }

    /** Recomputes the filters on the way from a leaf to the root. */
    method UpdateAncestors(node: nat)
      requires Structured() && node < 4 * n && SpanOf(n, node).Span?
      requires forall v: nat :: v < 4 * n && !Above(v, node / 2) ==> Covers(v)
      modifies tree, filters
      ensures Structured() && forall v: nat :: v < 4 * n ==> Covers(v)
      ensures SetCells() == old(SetCells())
    {
      var parent: nat := node / 2;
      while parent >= 1
        invariant Structured() && parent < 4 * n
        invariant parent > 0 ==> IsInner(n, parent)
        invariant forall v: nat :: v < 4 * n && !Above(v, parent) ==> Covers(v)
        invariant SetCells() == old(SetCells())
      {
        NotAboveChildren(parent);
        UpdateParent(parent);
        parent := parent / 2;
      }
    }

    // ----- construction

    /** A tree over the given number of positions. With partitioning the number of cells is
        raised to a multiple of the number of digests. */
    constructor (size: nat, hash: Hasher, requiredCells: nat, optimalK: nat, partition: bool, threshold: real)
      requires size > 0 && requiredCells > 0 && optimalK > 0 && forall o: string :: |hash(o)| == optimalK
      ensures Valid() && fresh(tree) && fresh(filters)
      ensures n == size && this.threshold == threshold && shape.hash == hash && shape.partition == partition
      ensures forall i :: 0 <= i < n ==> keywords[i] == {} && given[i] == []
      ensures SetCells() == {}
      ensures LeavesNew(n, tree[..], 1, {})
    {
      n := size;
      var cells := if partition then requiredCells + (optimalK - requiredCells % optimalK) else requiredCells;
      RoundedUp(requiredCells, optimalK);
      shape := Shape(hash, cells, partition, optimalK);
      this.threshold := threshold;
      tree := new Node[4 * size](_ => Node(0, 0, null, []));
      filters := {};
      keywords := seq(size, _ => {});
      given := seq(size, _ => []);
      new;
      Build(1, 0, n - 1);
      forall v: nat | v < 4 * n ensures NodeOk(v) {
        if v > 0 { RootAbove(v); }
      }
    }

    ghost predicate Blank(v: nat)
      requires v < tree.Length
      reads tree
    {
      tree[v] == Node(0, 0, null, [])
    }

    method Build(node: nat, start: nat, end: nat)
      requires n > 0 && shape.Valid() && tree.Length == 4 * n && |keywords| == |given| == n
      requires forall i :: 0 <= i < n ==> given[i] == []
      requires SpanOf(n, node) == Span(start, end)
      requires forall f :: f in filters ==> f.Valid() && f.shape == shape
      requires forall v: nat :: v < 4 * n && Above(node, v) ==> Blank(v)
      modifies this`filters, tree
      ensures SetCells() == old(SetCells())
      ensures old(filters) <= filters && fresh(filters - old(filters))
      ensures forall f :: f in filters ==> f.Valid() && f.shape == shape
      ensures forall v: nat :: v < 4 * n && Above(node, v) ==> NodeOk(v)
      ensures LeavesNew(n, tree[..], node, old(filters))
      ensures forall v: nat :: v < 4 * n && !Above(node, v) ==> tree[v] == old(tree[v])
      decreases end - start, 1
    {
      if start == end {
        BuildLeaf(node, start);
        return;
      }
      BuildInner(node, start, end);
    }

    method BuildInner(node: nat, start: nat, end: nat)
      requires n > 0 && shape.Valid() && tree.Length == 4 * n && |keywords| == |given| == n
      requires forall i :: 0 <= i < n ==> given[i] == []
      requires SpanOf(n, node) == Span(start, end) && start < end
      requires forall f :: f in filters ==> f.Valid() && f.shape == shape
      requires forall v: nat :: v < 4 * n && Above(node, v) ==> Blank(v)
      modifies this`filters, tree
      ensures SetCells() == old(SetCells())
      ensures old(filters) <= filters && fresh(filters - old(filters))
      ensures forall f :: f in filters ==> f.Valid() && f.shape == shape
      ensures forall v: nat :: v < 4 * n && Above(node, v) ==> NodeOk(v)
      ensures LeavesNew(n, tree[..], node, old(filters))
      ensures forall v: nat :: v < 4 * n && !Above(node, v) ==> tree[v] == old(tree[v])
      decreases end - start, 0
    {
      hide Above, SpanOf;
      NodeBelow(n, node);
      tree[node] := Node(start, end, null, []);
      var mid := (start + end) / 2;
      ChildSpans(n, node);
      BelowChildren(node);
      Build(2 * node, start, mid);
      ghost var left, between := tree[..], filters;
      assert forall v: nat :: v < 4 * n && Above(2 * node, v) ==> NodeOk(v);
      Build(2 * node + 1, mid + 1, end);
      LeavesJoined(n, node, left, tree[..], old(filters), between);
    }

    method BuildLeaf(node: nat, start: nat)
      requires n > 0 && shape.Valid() && tree.Length == 4 * n && |keywords| == |given| == n
      requires forall i :: 0 <= i < n ==> given[i] == []
      requires SpanOf(n, node) == Span(start, start)
      requires forall f :: f in filters ==> f.Valid() && f.shape == shape
      requires forall v: nat :: v < 4 * n && Above(node, v) ==> Blank(v)
      modifies this`filters, tree
      ensures SetCells() == old(SetCells())
      ensures old(filters) <= filters && fresh(filters - old(filters))
      ensures forall f :: f in filters ==> f.Valid() && f.shape == shape
      ensures forall v: nat :: v < 4 * n && Above(node, v) ==> NodeOk(v)
      ensures LeavesNew(n, tree[..], node, old(filters))
      ensures forall v: nat :: v < 4 * n && !Above(node, v) ==> tree[v] == old(tree[v])
    {
      NodeBelow(n, node);
      tree[node] := Node(start, start, null, []);
      var bf := new BasicBloomFilter(shape);
      filters := filters + {bf};
      tree[node] := tree[node].(bf := bf);
      forall v: nat | v < 4 * n && Above(node, v) ensures NodeOk(v) {
        if v != node { NothingBelowLeaf(n, node, v); assert old(Blank(v)); }
      }
    }

    // ----- queries

    /** The tokens of the positions lo, ..., hi in order. */
    ghost function TokensIn(lo: int, hi: int): seq<Token>
      requires 0 <= lo && hi < n && |given| == n
      reads this
      decreases hi - lo
    {
      if lo > hi then [] else TokensIn(lo, hi - 1) + given[hi]
    }

    lemma TokensInSplit(lo: int, mid: int, hi: int)
      requires 0 <= lo && lo - 1 <= mid <= hi < n && |given| == n
      ensures TokensIn(lo, hi) == TokensIn(lo, mid) + TokensIn(mid + 1, hi)
      decreases hi - mid
    {
      if mid < hi { TokensInSplit(lo, mid, hi - 1); }
    }

    lemma TokensConcat(lo: int, hi: int)
      requires 0 <= lo <= hi + 1 <= n && |given| == n
      ensures IsConcat(given[lo..hi + 1], TokensIn(lo, hi))
      decreases hi - lo
    {
      hide IsConcat;
      if lo > hi {
        ConcatNone<Token>();
        assert given[lo..hi + 1] == [];
      } else {
        TokensConcat(lo, hi - 1);
        ConcatMore(given[lo..hi], TokensIn(lo, hi - 1), given[hi]);
        assert given[lo..hi + 1] == given[lo..hi] + [given[hi]];
      }
    }

    /** All tokens of the positions in [l, r], whatever their keywords: the lists of the positions, one
        after the other. */
    method Query(l: int, r: int) returns (result: seq<Token>)
      requires Valid()
      ensures result == TokensIn(Max(l, 0), Min(r, n - 1))
      ensures if Max(l, 0) <= Min(r, n - 1) then IsConcat(given[Max(l, 0)..Min(r, n - 1) + 1], result)
              else result == []
    {
      if Max(l, 0) <= Min(r, n - 1) { TokensConcat(Max(l, 0), Min(r, n - 1)); }
      result := QueryAt(1, 0, n - 1, l, r, []);
    }

    method QueryAt(node: nat, start: nat, end: nat, l: int, r: int, found: seq<Token>) returns (result: seq<Token>)
      requires Valid() && SpanOf(n, node) == Span(start, end) && end < n
      ensures result == found + TokensIn(Max(l, start), Min(r, end))
      decreases end - start, 1
    {
      if r < start || l > end { return found; }
      NodeBelow(n, node);
      assert NodeOk(node);
      if start == end { return found + tree[node].tokens; }
      result := QueryBelow(node, start, end, l, r, found);
    }

    method QueryBelow(node: nat, start: nat, end: nat, l: int, r: int, found: seq<Token>) returns (result: seq<Token>)
      requires Valid() && SpanOf(n, node) == Span(start, end) && start < end < n && l <= end && start <= r
      ensures result == found + TokensIn(Max(l, start), Min(r, end))
      decreases end - start, 0
    {
      hide SpanOf, TokensIn, NodeOk, Covers;
      ChildSpans(n, node);
      var mid := (start + end) / 2;
      InnerTokens(start, mid, end, l, r, found);
      var left := QueryAt(2 * node, start, mid, l, r, found);
      result := QueryAt(2 * node + 1, mid + 1, end, l, r, left);
    }

    lemma InnerTokens(start: nat, mid: nat, end: nat, l: int, r: int, found: seq<Token>)
      requires start <= mid < end < n && |given| == n && l <= end && start <= r
      ensures found + TokensIn(Max(l, start), Min(r, end)) ==
              found + TokensIn(Max(l, start), Min(r, mid)) + TokensIn(Max(l, mid + 1), Min(r, end))
    {
      if l <= mid && mid < r { TokensInSplit(Max(l, start), mid, Min(r, end)); }
    }

    /** The positions under node such that every filter from node down to their leaf passes kw. */
    ghost function Reached(node: nat, kw: string): set<nat>
      requires Structured() && SpanOf(n, node).Span?
      reads this, tree, filters
      decreases SpanOf(n, node).hi - SpanOf(n, node).lo
    {
      NodeBelow(n, node);
      assert NodeOk(node);
      if !Passes(tree[node].bf, kw) then {}
      else if !IsInner(n, node) then {SpanOf(n, node).lo}
      else
        ChildSpans(n, node);
        Reached(2 * node, kw) + Reached(2 * node + 1, kw)
    }

    lemma ReachedInSpan(node: nat, kw: string)
      requires Structured() && SpanOf(n, node).Span?
      ensures forall i :: i in Reached(node, kw) ==> SpanOf(n, node).lo <= i <= SpanOf(n, node).hi
      decreases SpanOf(n, node).hi - SpanOf(n, node).lo
    {
      if IsInner(n, node) {
        ChildSpans(n, node);
        ReachedInSpan(2 * node, kw);
        ReachedInSpan(2 * node + 1, kw);
      }
    }

    method CandidatesAt(node: nat, start: nat, end: nat, l: int, r: int, kw: string, found: seq<Interval>)
      returns (result: seq<Interval>)
      requires Valid() && SpanOf(n, node) == Span(start, end) && end < n
      ensures result == found + Listing(given, Reached(node, kw), Max(l, start), Min(r, end))
      decreases end - start, 1
    {
      NodeBelow(n, node);
      if r < start || l > end || node >= tree.Length { return found; }
      assert NodeOk(node);
      ListingOfNone(given, Max(l, start), Min(r, end));
      if tree[node].bf == null { return found; }
      var pass := tree[node].bf.Lookup(kw);
      if !pass { return found; }
      if start == end && l <= start && start <= r {
        ListingOfOne(given, start);
        if tree[node].tokens != [] { return found + [Interval(start, end, tree[node].tokens)]; }
        return found;
      }
      if l <= start && r >= end && tree[node].tokens != [] {
        assert false; // inner nodes carry no tokens
      }
      result := CandidatesBelow(node, start, end, l, r, kw, found);
    }

    method CandidatesBelow(node: nat, start: nat, end: nat, l: int, r: int, kw: string, found: seq<Interval>)
      returns (result: seq<Interval>)
      requires Valid() && SpanOf(n, node) == Span(start, end) && start < end < n && node < 4 * n
      requires Passes(tree[node].bf, kw) && l <= end && start <= r
      ensures result == found + Listing(given, Reached(node, kw), Max(l, start), Min(r, end))
      decreases end - start, 0
    {
      hide SpanOf, Listing, Reached, Covers, NodeOk, Passes;
      var mid := (start + end) / 2;
      InnerListing(node, start, end, l, r, kw, found);
      var left := CandidatesAt(2 * node, start, mid, l, r, kw, found);
      result := CandidatesAt(2 * node + 1, mid + 1, end, l, r, kw, left);
    }

    lemma ReachedInner(node: nat, kw: string)
      requires Structured() && IsInner(n, node) && node < 4 * n && Passes(tree[node].bf, kw)
      ensures SpanOf(n, 2 * node).Span? && SpanOf(n, 2 * node + 1).Span?
      ensures Reached(node, kw) == Reached(2 * node, kw) + Reached(2 * node + 1, kw)
    {
      ChildSpans(n, node);
    }

    lemma InnerListing(node: nat, start: nat, end: nat, l: int, r: int, kw: string, found: seq<Interval>)
      requires Structured() && SpanOf(n, node) == Span(start, end) && start < end < n && node < 4 * n
      requires Passes(tree[node].bf, kw) && l <= end && start <= r
      ensures var mid := (start + end) / 2;
              && SpanOf(n, 2 * node) == Span(start, mid) && SpanOf(n, 2 * node + 1) == Span(mid + 1, end)
              && found + Listing(given, Reached(node, kw), Max(l, start), Min(r, end)) ==
                 found + Listing(given, Reached(2 * node, kw), Max(l, start), Min(r, mid))
                 + Listing(given, Reached(2 * node + 1, kw), Max(l, mid + 1), Min(r, end))
    {
      hide SpanOf, Reached, Listing, NodeOk;
      ChildSpans(n, node);
      ReachedInner(node, kw);
      ReachedInSpan(2 * node, kw);
      ReachedInSpan(2 * node + 1, kw);
      ListingSplit(given, Reached(2 * node, kw), Reached(2 * node + 1, kw), start, (start + end) / 2, end, l, r, found);
    }

    /** The candidates for a keyword in [l, r]: exactly the positions there that have tokens
        and are reached from the root, each once with all its tokens, in increasing order;
        among them every position the keyword was given to. There are none unless every digest of the
        keyword falls together with a digest of a keyword that was given. */
    method GetCandidateIntervals(l: int, r: int, kw: string) returns (result: seq<Interval>)
      requires Valid()
      ensures result == Listing(given, Reached(1, kw), Max(l, 0), Min(r, n - 1))
      ensures forall i: nat :: l <= i <= r && i < n && kw in keywords[i] ==> Interval(i, i, given[i]) in result
      ensures forall x :: x in result ==>
                l <= x.left == x.right <= r && 0 <= x.left < n && x.tokens == given[x.left] != []
      ensures forall a, b :: 0 <= a < b < |result| ==> result[a].left < result[b].left
      ensures result != [] ==> shape.CellsOf(kw) <= SetCells() && shape.MayHave(kw, Keywords())
    {
      hide Reached, SetCells, Covers, NodeOk, Listing, Shape.MayHave;
      result := CandidatesAt(1, 0, n - 1, l, r, kw, []);
      ListingContents(given, Reached(1, kw), Max(l, 0), Min(r, n - 1));
      forall i: nat | l <= i <= r && i < n && kw in keywords[i] ensures Interval(i, i, given[i]) in result {
        NoFalseNegative(1, i, kw);
      }
      if result != [] {
        ReachedHasCells(l, r, kw);
        CellsAmong(shape, kw, Keywords());
      }
    }

    /** Nothing is reached for a keyword with a cell that is set nowhere. */
    lemma ReachedHasCells(l: int, r: int, kw: string)
      requires Valid() && Listing(given, Reached(1, kw), Max(l, 0), Min(r, n - 1)) != []
      ensures shape.CellsOf(kw) <= SetCells()
    {
      ListingOfNone(given, Max(l, 0), Min(r, n - 1));
      assert NodeOk(1) && Passes(tree[1].bf, kw);
      forall c | c in shape.CellsOf(kw) ensures c in SetCells() {
        assert tree[1].bf.bits[c];
      }
    }

    /** No filter on the way down rejects a keyword that was given to a position. */
    lemma NoFalseNegative(node: nat, i: nat, kw: string)
      requires Valid() && i < n && kw in keywords[i]
      requires SpanOf(n, node).Span? && SpanOf(n, node).lo <= i <= SpanOf(n, node).hi
      ensures given[i] != [] && i in Reached(node, kw)
      decreases SpanOf(n, node).hi - SpanOf(n, node).lo
    {
      NodeBelow(n, node);
      assert Covers(node);
      if IsInner(n, node) {
        ChildSpans(n, node);
        NoFalseNegative(if i <= (SpanOf(n, node).lo + SpanOf(n, node).hi) / 2 then 2 * node else 2 * node + 1, i, kw);
      }
    }
  }
}
