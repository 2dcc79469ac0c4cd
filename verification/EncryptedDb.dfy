/** The encrypted spatial database: an index that maps points to labels, and an encrypted multimap that
    holds the postings of the labels. */
module EncryptedDb {
  import opened Arith
  import opened Coordinates
  import opened Emm
  import opened Grid
  import opened Octree
  import opened OctreeCover
  import opened Postings
  import opened QuadTrees
  import opened Sequences
  import O = Qdag
  import T = TdagSrc3D

  /** What a query gives; outside the trees of the second index it throws. */
  datatype Answer = Threw | Answered(ids: seq<int>)

  /** The two indexes of points in space. */
  datatype Scheme3D = Octree(tree: QuadTree) | Trees(index: T.Index) {
    /** The entries that the index can map: a descent never ends for a point far outside. */
    predicate Maps(entries: seq<Entry<Point>>) {
      match this
      case Octree(_) => true
      case Trees(index) => forall e :: e in entries && e.ids != [] ==> index.InReach(e.point)
    }

    /** m is the keyword map of the entries. */
    ghost predicate MappedTo(entries: seq<Entry<Point>>, m: KeywordMap) {
      match this
      case Octree(tree) =>
        && O.Cubes(tree.height).Posted(map[], entries, m)
        && SameOutside(map[], m, O.Cubes(tree.height).AllNames())
      case Trees(index) =>
        index.Covers().Posted(map[], entries, m) && SameOutside(map[], m, index.Covers().AllNames())
    }

    /** The labels of a query, or the exception. */
    ghost function LabelsOf(query: Rect): T.Queried
      requires query.Ordered()
    {
      match this
      case Octree(tree) =>
        AdjustedSides(query, Pow2(tree.height));
        T.Labels([O.Label(CoverOf(tree.height, Adjusted(query, Pow2(tree.height))))])
      case Trees(index) => T.GetQueryLabels(index, query)
    }

    /** A point that a query asks for; the second index takes the end of the box as inclusive. */
    ghost predicate Asked(query: Rect, p: Point) {
      match this
      case Octree(tree) => RectHas(query, p) && Root(tree.height).ContainsPoint(p)
      case Trees(index) => T.Between(query, p)
    }

    /** The ids are those of the entries in one region, which has every point that is asked for: the cube
        that the cover search finds, or the product of the shortest ranges of the trees. */
    ghost predicate Retrieved(entries: seq<Entry<Point>>, query: Rect, ids: multiset<int>)
      requires query.Ordered()
    {
      match this
      case Octree(tree) =>
        AdjustedSides(query, Pow2(tree.height));
        var cube := CoverOf(tree.height, Adjusted(query, Pow2(tree.height)));
        && CoversQuery(tree.height, query, cube) && (forall p :: Asked(query, p) ==> cube.ContainsPoint(p))
        && ids == multiset(O.Cubes(tree.height).IdsIn(entries, cube))
      case Trees(index) =>
        exists c :: T.ShortestCover(index, query, c) && (forall p :: Asked(query, p) ==> c.Has(p))
                    && ids == multiset(index.Covers().IdsIn(entries, c))
    }
  }

  lemma LabelRetrieves(s: Scheme3D, entries: seq<Entry<Point>>, m: KeywordMap, query: Rect)
    requires query.Ordered() && s.MappedTo(entries, m) && s.LabelsOf(query).Labels?
    ensures Distinct(s.LabelsOf(query).labels) && s.Retrieved(entries, query, Bag(m, s.LabelsOf(query).labels))
  {
    match s
    case Octree(tree) =>
      var a := Adjusted(query, Pow2(tree.height));
      O.QueryAnswer(tree.height, entries, m, query);
      QueryCovered(tree.height, query);
      var cube := CoverOf(tree.height, a);
      BagOfOne(m, O.Label(cube));
      forall p | s.Asked(query, p) ensures cube.ContainsPoint(p) { O.AdjustedKeeps(query, Pow2(tree.height), p); }
    case Trees(index) =>
      var c := T.QueryAnswer(index, entries, m, query);
      BagOfOne(m, T.Serialize(c));
  }

  /** No entry is lost: the ids at every point that is asked for are among those retrieved. */
  lemma EntryRetrieved(s: Scheme3D, entries: seq<Entry<Point>>, query: Rect, ids: multiset<int>, i: nat, id: int)
    requires query.Ordered() && s.Retrieved(entries, query, ids) && i < |entries| && id in entries[i].ids
    requires s.Asked(query, entries[i].point) && (s.Trees? ==> s.index.InDomain(entries[i].point))
    ensures id in ids
  {
    match s
    case Octree(tree) =>
      AdjustedSides(query, Pow2(tree.height));
      var cube := CoverOf(tree.height, Adjusted(query, Pow2(tree.height)));
      IdsInHas(O.Cubes(tree.height), entries, cube, i);
    case Trees(index) =>
      var c :| T.ShortestCover(index, query, c) && (forall p :: s.Asked(query, p) ==> c.Has(p))
               && ids == multiset(index.Covers().IdsIn(entries, c));
      T.UnderIsHas(index, c, entries[i].point);
      IdsInHas(index.Covers(), entries, c, i);
  }

  class EncryptedSpatialDb {
    const spatialScheme: Scheme3D
    const emmEngine: StandardEmm
    ghost var entries: seq<Entry<Point>>
    ghost var keywordMap: KeywordMap

    /** The multimap holds the postings of all labels of the entries. */
    ghost predicate Holds()
      reads this, emmEngine
    {
      spatialScheme.MappedTo(entries, keywordMap) && emmEngine.keys.Holds(keywordMap, keywordMap.Keys, emmEngine.tset)
    }

    constructor (spatialScheme: Scheme3D, emmEngine: StandardEmm)
      ensures this.spatialScheme == spatialScheme && this.emmEngine == emmEngine
    {
      this.spatialScheme, this.emmEngine := spatialScheme, emmEngine;
      entries, keywordMap := [], map[];
    }

    /** Maps the entries to labels and encrypts the map. */
    method Build(points: seq<Entry<Point>>)
      requires spatialScheme.Maps(points) && (spatialScheme.Octree? ==> spatialScheme.tree.Valid())
      requires forall m :: spatialScheme.MappedTo(points, m) ==> Apart(emmEngine.keys, m, {})
      modifies this, emmEngine
      ensures Holds() && entries == points
    {
      hide Apart, EmmKeys.Holds;
      var m;
      match spatialScheme {
        case Octree(tree) => m := O.MapPointsToLabels(tree, points);
        case Trees(index) => m := T.MapPointsToLabels(index, points);
      }
      emmEngine.BuildEmm(m);
      entries, keywordMap := points, m;
    }

    /** A query through the encrypted multimap: it throws exactly if a corner lies outside the trees;
        otherwise it gives the ids of one region of the index, every id asked for among them. */
    method Query(query: Rect) returns (r: Answer)
      requires query.Ordered() && Holds() && emmEngine.keys.crypto.Inverse()
      requires spatialScheme.LabelsOf(query).Labels? ==>
                 Apart(emmEngine.keys, keywordMap, set k | k in spatialScheme.LabelsOf(query).labels)
      ensures r == Threw <==> spatialScheme.Trees? && !(spatialScheme.index.InDomain(query.start)
                                                        && spatialScheme.index.InDomain(query.end))
      ensures r.Answered? ==> spatialScheme.Retrieved(entries, query, multiset(r.ids))
    {
      hide Apart, EmmKeys.Holds, Crypto.Inverse, Scheme3D.Retrieved, Scheme3D.MappedTo;
      var labels;
      match spatialScheme {
        case Octree(tree) =>
          labels := O.GetQueryLabels(tree.height, query);
        case Trees(index) =>
          T.QueryHasLabels(index, query);
          match T.GetQueryLabels(index, query)
          case NoLabels => return Threw;
          case Labels(some) => labels := some;
      }
      LabelRetrieves(spatialScheme, entries, keywordMap, query);
      var ids := emmEngine.Ask(labels, keywordMap);
      r := Answered(ids);
    }
  }
}
