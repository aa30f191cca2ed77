/** What the row-by-row flood-fill scan establishes about the walkable cells:
    a list of regions that partitions them into maximal connected parts. */
module Regions {
  import opened Grid

  /** The cells of all regions of the list. */
  ghost function Union(rs: seq<set<Vector2Int>>): set<Vector2Int>
  {
    if rs == [] then {} else rs[0] + Union(rs[1..])
  }

  /** A region of the walkable cells `open`: non-empty, walkable, connected
      inside itself, and maximal (no walkable neighbour left out). */
  ghost predicate IsRegion(open: set<Vector2Int>, r: set<Vector2Int>)
  {
    r != {} && r <= open && Connected(r) && Closed(open, r)
  }

  ghost predicate PairwiseDisjoint(rs: seq<set<Vector2Int>>)
  {
    forall i, j :: 0 <= i < j < |rs| ==> rs[i] !! rs[j]
  }

  /** `rs` are the regions found so far and `done` the cells visited so far. */
  ghost predicate Labelled(open: set<Vector2Int>, done: set<Vector2Int>, rs: seq<set<Vector2Int>>)
  {
    (forall i :: 0 <= i < |rs| ==> IsRegion(open, rs[i])) &&
    PairwiseDisjoint(rs) &&
    Union(rs) == done &&
    done <= open &&
    Closed(open, done)
  }

  /** The root region: the largest, the first of them on a tie. */
  ghost predicate IsRoot(rs: seq<set<Vector2Int>>, k: int)
  {
    0 <= k < |rs| &&
    (forall j :: 0 <= j < |rs| ==> |rs[j]| <= |rs[k]|) &&
    (forall j :: 0 <= j < k ==> |rs[j]| < |rs[k]|)
  }

  lemma {:induction false} UnionAppend(rs: seq<set<Vector2Int>>, a: set<Vector2Int>)
    ensures Union(rs + [a]) == Union(rs) + a
  {
    if rs != [] {
      assert (rs + [a])[1..] == rs[1..] + [a];
      UnionAppend(rs[1..], a);
    }
  }

  lemma {:induction false} UnionHas(rs: seq<set<Vector2Int>>, i: nat)
    requires i < |rs|
    ensures rs[i] <= Union(rs)
  {
    if i > 0 {
      UnionHas(rs[1..], i - 1);
    }
  }

  /** A cell of the union lies in one of the regions. */
  lemma {:induction false} UnionMember(rs: seq<set<Vector2Int>>, c: Vector2Int) returns (i: nat)
    requires c in Union(rs)
    ensures i < |rs| && c in rs[i]
  {
    if c in rs[0] {
      i := 0;
    } else {
      var j := UnionMember(rs[1..], c);
      i := j + 1;
    }
  }

  lemma {:induction false} UnionWithout(rs: seq<set<Vector2Int>>, k: nat)
    requires k < |rs|
    ensures Union(rs) == rs[k] + Union(rs[..k] + rs[k + 1..])
  {
    if k > 0 {
      UnionWithout(rs[1..], k - 1);
      assert rs[1..][..k - 1] + rs[1..][k..] == (rs[..k] + rs[k + 1..])[1..];
    } else {
      assert rs[..0] + rs[1..] == rs[1..];
    }
  }

  /** One flood fill adds a region: `a` holds the walkable, not yet visited
      cells reachable from `seed` and every neighbour it left out is a wall or
      was visited before. The found regions and the visited cells stay a
      partial partition. */
  lemma AddRegion(open: set<Vector2Int>, done: set<Vector2Int>, rs: seq<set<Vector2Int>>,
                  a: set<Vector2Int>, seed: Vector2Int)
    requires Labelled(open, done, rs)
    requires a <= open - done && seed in a
    requires forall c :: c in a ==> Reaches(a, seed, c)
    requires forall c, d :: c in a && d in open && Adjacent(c, d) ==> d in a || d in done
    ensures Labelled(open, done + a, rs + [a])
  {
    forall c, d | c in a && d in open && Adjacent(c, d)
      ensures d in a
    {
      assert Adjacent(d, c);
    }
    forall b, c | b in a && c in a
      ensures Reaches(a, b, c)
    {
      ReachesSym(a, seed, b);
      ReachesTrans(a, b, seed, c);
    }
    forall i | 0 <= i < |rs|
      ensures rs[i] !! a
    {
      UnionHas(rs, i);
    }
    UnionAppend(rs, a);
    var rs' := rs + [a];
    assert forall i :: 0 <= i < |rs| ==> rs'[i] == rs[i];
  }

  /** `c` comes before `d` in the scan, which runs over x and, for each x,
      over y. */
  predicate ScanBefore(c: Vector2Int, d: Vector2Int)
  {
    c.x < d.x || (c.x == d.x && c.y < d.y)
  }

  /** `a` holds a cell that comes before every cell of `b` in the scan. */
  ghost predicate ScannedBefore(a: set<Vector2Int>, b: set<Vector2Int>)
  {
    exists s :: s in a && forall d :: d in b ==> ScanBefore(s, d)
  }

  /** The regions are listed in scan order: each holds a cell that comes
      before every cell of every later region. */
  ghost predicate ScanOrdered(rs: seq<set<Vector2Int>>)
  {
    forall i, j :: 0 <= i < j < |rs| ==> ScannedBefore(rs[i], rs[j])
  }

  /** `seeds[i]` is the first cell of `rs[i]` in the scan, and the seeds come
      in scan order. */
  ghost predicate Seeded(rs: seq<set<Vector2Int>>, seeds: seq<Vector2Int>)
  {
    |seeds| == |rs| &&
    (forall i :: 0 <= i < |rs| ==>
      seeds[i] in rs[i] && forall d :: d in rs[i] && d != seeds[i] ==> ScanBefore(seeds[i], d)) &&
    forall i, j :: 0 <= i < j < |rs| ==> ScanBefore(seeds[i], seeds[j])
  }

  /** A flood fill seeded at `c`, the first walkable cell not yet visited,
      appends a region whose first cell is `c`, after every earlier seed. */
  lemma AddSeed(open: set<Vector2Int>, done: set<Vector2Int>, rs: seq<set<Vector2Int>>,
                seeds: seq<Vector2Int>, a: set<Vector2Int>, c: Vector2Int)
    requires Seeded(rs, seeds) && forall i :: 0 <= i < |seeds| ==> ScanBefore(seeds[i], c)
    requires c in a && a <= open - done
    requires forall d :: d in open && ScanBefore(d, c) ==> d in done
    ensures Seeded(rs + [a], seeds + [c])
  {
    var rs', seeds' := rs + [a], seeds + [c];
    assert forall i :: 0 <= i < |rs| ==> rs'[i] == rs[i] && seeds'[i] == seeds[i];
    forall d | d in a && d != c
      ensures ScanBefore(c, d)
    {
      assert !ScanBefore(d, c);
    }
  }

  /** Seeds in scan order put their regions in scan order. */
  lemma SeededOrdered(rs: seq<set<Vector2Int>>, seeds: seq<Vector2Int>)
    requires Seeded(rs, seeds)
    ensures ScanOrdered(rs)
  {
    forall i, j | 0 <= i < j < |rs|
      ensures ScannedBefore(rs[i], rs[j])
    {
      var s := seeds[i];
      forall d | d in rs[j]
        ensures ScanBefore(s, d)
      {
        assert ScanBefore(s, seeds[j]);
      }
      assert s in rs[i];
    }
  }

  /** The walkable cells of a grid split into regions; once they are
      connected, a new scan finds exactly one region. */
  lemma OneRegionWhenConnected(open: set<Vector2Int>, rs: seq<set<Vector2Int>>)
    requires Labelled(open, open, rs) && Connected(open) && open != {}
    ensures |rs| == 1
  {
    if |rs| == 0 {
      assert false;
    } else if |rs| > 1 {
      var r0, r1 := rs[0], rs[1];
      assert IsRegion(open, r0) && IsRegion(open, r1) && r0 !! r1;
      var c :| c in r0;
      var d :| d in r1;
      assert Reaches(open, c, d);
      var p :| IsPath(open, p) && p[0] == c && p[|p| - 1] == d;
      PathStaysIn(open, r0, p);
      assert false;
    }
  }

  /** Every walkable cell linked to one connected region makes the walkable
      cells connected. */
  lemma LinkedToConnected(open: set<Vector2Int>, root: set<Vector2Int>)
    requires root <= open && Connected(root)
    requires forall c :: c in open ==> Linked(open, c, root)
    ensures Connected(open)
  {
    forall a, b | a in open && b in open
      ensures Reaches(open, a, b)
    {
      ReachesThroughRoot(open, root, a, b);
    }
  }

  lemma ReachesThroughRoot(open: set<Vector2Int>, root: set<Vector2Int>, a: Vector2Int, b: Vector2Int)
    requires root <= open && Connected(root)
    requires Linked(open, a, root) && Linked(open, b, root)
    ensures Reaches(open, a, b)
  {
    var ra :| ra in root && Reaches(open, a, ra);
    var rb :| rb in root && Reaches(open, b, rb);
    assert Reaches(root, ra, rb);
    ReachesMono(root, open, ra, rb);
    ReachesSym(open, b, rb);
    ReachesTrans(open, a, ra, rb);
    ReachesTrans(open, a, rb, b);
  }

  /** Every cell of `r` reaches `root` through cells of `open`. */
  ghost predicate AllLinked(open: set<Vector2Int>, r: set<Vector2Int>, root: set<Vector2Int>)
  {
    forall c :: c in r ==> Linked(open, c, root)
  }

  lemma AllLinkedMono(open: set<Vector2Int>, open': set<Vector2Int>, r: set<Vector2Int>, root: set<Vector2Int>)
    requires open <= open' && AllLinked(open, r, root)
    ensures AllLinked(open', r, root)
  {
    forall c | c in r
      ensures Linked(open', c, root)
    {
      LinkedMono(open, open', c, root);
    }
  }

  /** One cell of a connected region linked to the root links all of it. */
  lemma RegionLinked(open: set<Vector2Int>, r: set<Vector2Int>, c: Vector2Int, root: set<Vector2Int>)
    requires r <= open && Connected(r) && c in r && Linked(open, c, root)
    ensures AllLinked(open, r, root)
  {
    forall d | d in r
      ensures Linked(open, d, root)
    {
      ReachesMono(r, open, d, c);
      LinkedVia(open, d, c, root);
    }
  }

  /** Removing the root from the region list leaves the other regions, each
      disjoint from the root, and together with the root they still cover
      every labelled cell. */
  lemma Others(open: set<Vector2Int>, rs: seq<set<Vector2Int>>, k: nat)
    requires Labelled(open, open, rs) && k < |rs|
    ensures rs[k] !in rs[..k]
    ensures var others := rs[..k] + rs[k + 1..];
      (forall i :: 0 <= i < |others| ==> IsRegion(open, others[i]) && others[i] !! rs[k]) &&
      open == rs[k] + Union(others)
  {
    forall i | 0 <= i < k
      ensures rs[i] != rs[k]
    {
      assert IsRegion(open, rs[k]) && rs[i] !! rs[k];
    }
    var others := rs[..k] + rs[k + 1..];
    forall i | 0 <= i < |others|
      ensures IsRegion(open, others[i]) && others[i] !! rs[k]
    {
      if i < k {
        assert others[i] == rs[i];
      } else {
        assert others[i] == rs[i + 1];
      }
    }
    UnionWithout(rs, k);
  }

  /** When every other region and every newly walkable cell is linked to a
      connected root, the walkable cells are connected. */
  lemma RepairedConnected(open0: set<Vector2Int>, open: set<Vector2Int>, root: set<Vector2Int>,
                          others: seq<set<Vector2Int>>)
    requires open0 <= open && root <= open0 && Connected(root) && open0 == root + Union(others)
    requires forall i :: 0 <= i < |others| ==> AllLinked(open, others[i], root)
    requires forall d :: d in open - open0 ==> Linked(open, d, root)
    ensures Connected(open)
  {
    forall c | c in open
      ensures Linked(open, c, root)
    {
      if c in root {
        ReachesRefl(open, c);
      } else if c in open0 {
        var i := UnionMember(others, c);
      }
    }
    LinkedToConnected(open, root);
  }

  /** `open` grows from `open0`, and every newly walkable cell lies outside
      the root and reaches it. */
  ghost predicate Grown(open0: set<Vector2Int>, open: set<Vector2Int>, root: set<Vector2Int>)
  {
    open0 <= open && forall d :: d in open - open0 ==> d !in root && Linked(open, d, root)
  }

  lemma GrownTrans(open0: set<Vector2Int>, open1: set<Vector2Int>, open2: set<Vector2Int>, root: set<Vector2Int>)
    requires Grown(open0, open1, root) && Grown(open1, open2, root)
    ensures Grown(open0, open2, root)
  {
    forall d | d in open2 - open0
      ensures d !in root && Linked(open2, d, root)
    {
      if d in open1 {
        LinkedMono(open1, open2, d, root);
      }
    }
  }
}
