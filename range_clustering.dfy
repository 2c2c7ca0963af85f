/**
 * The "closest points within range" component
 * (ClosestPointsWithinRange/ClosestPointsWithinRangeComponent.cs).
 *
 * Search point `i` is inserted into a spatial index under id `i`; then,
 * for every focus point in turn, one sphere search with the shared radius
 * collects the ids it reports into a fresh list, and those ids become the
 * branch of the output tree at path `{i}` (an empty branch when there are
 * none).
 *
 * Rhino's R-tree is modelled by what its search reports: the ids of the
 * inserted points lying within the sphere, in an order left unspecified.
 * The output tree is a sequence of branches indexed by focus.
 */
module RangeClustering {
  import opened Geometry

  /** `p` lies in the closed ball of radius `radius` around `centre`; the
    * ball is closed, so at radius 0 it holds exactly the centre. Only a
    * non-negative radius is meaningful (see `ClosestPointsWithinRange`). */
  predicate Within(p: Point3, centre: Point3, radius: real)
    ensures radius == 0.0 ==> (Within(p, centre, radius) <==> p == centre)
  {
    (SqDist(p, centre) as real) <= radius * radius
  }

  /** One point of the index with the id it was inserted under. */
  datatype Entry = Entry(point: Point3, id: int)

  /** The ids of the entries that lie within the sphere, in entry order;
    * at most one per entry. */
  function Hits(entries: seq<Entry>, centre: Point3, radius: real): (h: seq<int>)
    ensures |h| <= |entries|
  {
    if entries == [] then []
    else
      var rest, last := entries[..|entries| - 1], entries[|entries| - 1];
      Hits(rest, centre, radius) + if Within(last.point, centre, radius) then [last.id] else []
  }

  /** An id is reported exactly when some entry within the sphere carries it. */
  lemma {:induction false} HitsMembers(entries: seq<Entry>, centre: Point3, radius: real, id: int)
    ensures id in Hits(entries, centre, radius) <==>
              exists k :: 0 <= k < |entries| && entries[k].id == id && Within(entries[k].point, centre, radius)
  {
    if entries != [] {
      var rest, last := entries[..|entries| - 1], entries[|entries| - 1];
      assert entries == rest + [last];
      HitsMembers(rest, centre, radius, id);
      if id in Hits(rest, centre, radius) {
        var k :| 0 <= k < |rest| && rest[k].id == id && Within(rest[k].point, centre, radius);
        assert entries[k] == rest[k];
      }
    }
  }

  /** The entries of an index built by inserting `points[i]` under id `i`. */
  function Indexed(points: seq<Point3>): (entries: seq<Entry>)
    ensures |entries| == |points|
    ensures forall k :: 0 <= k < |points| ==> entries[k] == Entry(points[k], k)
  {
    seq(|points|, k requires 0 <= k < |points| => Entry(points[k], k))
  }

  /** What the search around `centre` reports on the index of `points`:
    * at most one id per search point. */
  function Neighbours(points: seq<Point3>, centre: Point3, radius: real): (n: seq<int>)
    ensures |n| <= |points|
  {
    Hits(Indexed(points), centre, radius)
  }

  /** Id `j` is reported exactly when it is a valid index into `points`
    * and that point lies within the radius. */
  lemma NeighboursWithin(points: seq<Point3>, centre: Point3, radius: real, j: int)
    ensures j in Neighbours(points, centre, radius) <==> 0 <= j < |points| && Within(points[j], centre, radius)
  {
    var es := Indexed(points);
    HitsMembers(es, centre, radius, j);
    if 0 <= j < |points| && Within(points[j], centre, radius) {
      assert es[j].id == j && Within(es[j].point, centre, radius);
    }
  }

  predicate Increasing(s: seq<int>)
  {
    forall a, b :: 0 <= a < b < |s| ==> s[a] < s[b]
  }

  lemma {:induction false} HitsIncreasing(entries: seq<Entry>, centre: Point3, radius: real)
    requires forall a, b :: 0 <= a < b < |entries| ==> entries[a].id < entries[b].id
    ensures Increasing(Hits(entries, centre, radius))
  {
    if entries != [] {
      var rest, last := entries[..|entries| - 1], entries[|entries| - 1];
      assert entries == rest + [last];
      HitsIncreasing(rest, centre, radius);
      var h := Hits(rest, centre, radius);
      forall x | x in h
        ensures x < last.id
      {
        HitsMembers(rest, centre, radius, x);
        var k :| 0 <= k < |rest| && rest[k].id == x && Within(rest[k].point, centre, radius);
        assert entries[k] == rest[k];
      }
      var r := Hits(entries, centre, radius);
      assert r == h + if Within(last.point, centre, radius) then [last.id] else [];
      forall a, b | 0 <= a < b < |r|
        ensures r[a] < r[b]
      {
        if b >= |h| {
          assert r[a] == h[a] && h[a] in h;
        }
      }
    }
  }

  /** The search reports every id once, in increasing order. */
  lemma NeighboursIncreasing(points: seq<Point3>, centre: Point3, radius: real)
    ensures Increasing(Neighbours(points, centre, radius))
  {
    HitsIncreasing(Indexed(points), centre, radius);
  }

  /** The spatial index: built by insertion, then only searched. */
  class RTree {
    var entries: seq<Entry>

    constructor ()
      ensures entries == []
    {
      entries := [];
    }

    method Insert(point: Point3, id: int)
      modifies this
      ensures entries == old(entries) + [Entry(point, id)]
    {
      entries := entries + [Entry(point, id)];
    }

    /** The search with the callback that collects each reported id. The
      * ids are those of `Hits`, in some order. */
    method Search(centre: Point3, radius: real) returns (found: seq<int>)
      requires 0.0 <= radius
      ensures multiset(found) == multiset(Hits(entries, centre, radius))
    {
      found := [];
      for k := 0 to |entries|
        invariant found == Hits(entries[..k], centre, radius)
      {
        assert entries[..k + 1][..k] == entries[..k];
        if Within(entries[k].point, centre, radius) {
          found := found + [entries[k].id];
        }
      }
      assert entries[..|entries|] == entries;
    }
  }

  /*
   * The output tree as a sequence of branches; paths arrive in order
   * 0, 1, 2, ..., so the path to be created is always the next one.
   */

  /** Grasshopper's `EnsurePath`: create the branch at `path` if missing. */
  function EnsurePath(tree: seq<seq<int>>, path: nat): (t: seq<seq<int>>)
    requires path <= |tree|
    ensures |t| == if path < |tree| then |tree| else |tree| + 1
    ensures t[..|tree|] == tree && t[path] == (if path < |tree| then tree[path] else [])
  {
    if path < |tree| then tree else tree + [[]]
  }

  /** Grasshopper's `Add`: append `item` to the branch at `path`, creating
    * it first if missing; no other branch changes. */
  function Add(tree: seq<seq<int>>, item: int, path: nat): (t: seq<seq<int>>)
    requires path <= |tree|
    ensures |t| == if path < |tree| then |tree| else |tree| + 1
    ensures t[path] == (if path < |tree| then tree[path] else []) + [item]
    ensures forall q :: 0 <= q < |tree| && q != path ==> t[q] == tree[q]
  {
    if path < |tree| then tree[path := tree[path] + [item]] else tree + [[item]]
  }

  /** Every id in a branch that holds the reported ids, in any order, is
    * a valid index of a point within the radius, and every such point's
    * id is in it. */
  lemma BranchMembers(points: seq<Point3>, centre: Point3, radius: real, branch: seq<int>)
    requires multiset(branch) == multiset(Neighbours(points, centre, radius))
    ensures forall j :: j in branch <==> 0 <= j < |points| && Within(points[j], centre, radius)
  {
    forall j
      ensures j in branch <==> 0 <= j < |points| && Within(points[j], centre, radius)
    {
      NeighboursWithin(points, centre, radius, j);
      assert j in branch <==> j in multiset(branch);
      assert j in Neighbours(points, centre, radius) <==> j in multiset(Neighbours(points, centre, radius));
    }
  }

  /** The index build: search point `i` inserted under id `i`. */
  method BuildIndex(points: seq<Point3>) returns (rtree: RTree)
    ensures fresh(rtree) && rtree.entries == Indexed(points)
  {
    rtree := new RTree();
    for i := 0 to |points|
      invariant rtree.entries == Indexed(points[..i])
    {
      rtree.Insert(points[i], i);
    }
    assert points[..|points|] == points;
  }

  /** The reported ids of focus `i` become the branch at path `{i}`,
    * created empty when there are none; the earlier branches stay as they
    * were. */
  method Group(neighbourTree: seq<seq<int>>, neighbours: seq<int>, i: nat) returns (t: seq<seq<int>>)
    requires |neighbourTree| == i
    ensures t == neighbourTree + [neighbours]
  {
    t := neighbourTree;
    if |neighbours| == 0 {
      t := EnsurePath(t, i);
    } else {
      for n := 0 to |neighbours|
        invariant |t| == if n == 0 then i else i + 1
        invariant t[..i] == neighbourTree
        invariant 0 < n ==> t[i] == neighbours[..n]
      {
        t := Add(t, neighbours[n], i);
      }
      assert neighbours[..|neighbours|] == neighbours;
    }
  }

  /** The component: one branch per focus, branch `i` holding what the
    * search around `foci[i]` with the shared radius reported. */
  method ClosestPointsWithinRange(points: seq<Point3>, foci: seq<Point3>, distance: real)
    returns (neighbourTree: seq<seq<int>>)
    requires 0.0 <= distance
    ensures |neighbourTree| == |foci|
    ensures forall i :: 0 <= i < |foci| ==>
              multiset(neighbourTree[i]) == multiset(Neighbours(points, foci[i], distance))
    ensures forall i, j :: 0 <= i < |foci| ==>
              (j in neighbourTree[i] <==> 0 <= j < |points| && Within(points[j], foci[i], distance))
  {
    var rtree := BuildIndex(points);
    neighbourTree := [];
    for i := 0 to |foci|
      invariant rtree.entries == Indexed(points)
      invariant |neighbourTree| == i
      invariant forall k :: 0 <= k < i ==>
                  multiset(neighbourTree[k]) == multiset(Neighbours(points, foci[k], distance))
    {
      ghost var before := neighbourTree;
      var neighbours := rtree.Search(foci[i], distance);
      neighbourTree := Group(neighbourTree, neighbours, i);
      assert neighbourTree[i] == neighbours;
      assert forall k :: 0 <= k < i ==> neighbourTree[k] == before[k];
    }
    forall i | 0 <= i < |foci|
      ensures forall j :: j in neighbourTree[i] <==> 0 <= j < |points| && Within(points[j], foci[i], distance)
    {
      BranchMembers(points, foci[i], distance, neighbourTree[i]);
    }
  }
}
