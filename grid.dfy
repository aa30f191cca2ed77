/** Cell coordinates of the arena's interior, their 4-neighbourhood, and
    walkable paths between cells. */
module Grid {

  /** A cell coordinate (or a scaled world position), as Unity's Vector2Int. */
  datatype Vector2Int = Vector2Int(x: int, y: int)

  /** Vector2Int.zero: cell (0, 0), which the repair search also uses to mean
      "no predecessor recorded". */
  const Zero: Vector2Int := Vector2Int(0, 0)

  predicate InBounds(c: Vector2Int, size: Vector2Int)
  {
    0 <= c.x < size.x && 0 <= c.y < size.y
  }

  /** Up, down, left or right of each other (no diagonals, no wraparound). */
  predicate Adjacent(a: Vector2Int, b: Vector2Int)
  {
    (a.x == b.x && (a.y + 1 == b.y || b.y + 1 == a.y)) ||
    (a.y == b.y && (a.x + 1 == b.x || b.x + 1 == a.x))
  }

  /** Every cell of a size.x by size.y grid. */
  ghost function Cells(size: Vector2Int): (s: set<Vector2Int>)
    ensures forall c :: c in s <==> InBounds(c, size)
  {
    var s := set x, y | 0 <= x < size.x && 0 <= y < size.y :: Vector2Int(x, y);
    assert forall c :: InBounds(c, size) ==> c == Vector2Int(c.x, c.y);
    s
  }

  /** The cells of a boolean grid that hold `v` (the walkable cells of a wall
      grid for v == false, the visited cells of a visited grid for v == true). */
  ghost function CellsWhere(a: array2<bool>, v: bool): (s: set<Vector2Int>)
    reads a
    ensures forall c :: c in s <==> InBounds(c, Vector2Int(a.Length0, a.Length1)) && a[c.x, c.y] == v
  {
    var s := set x, y | 0 <= x < a.Length0 && 0 <= y < a.Length1 && a[x, y] == v :: Vector2Int(x, y);
    assert forall c :: InBounds(c, Vector2Int(a.Length0, a.Length1)) ==> c == Vector2Int(c.x, c.y);
    s
  }

  /** A non-empty sequence of cells of `s`, each one adjacent to the next. */
  ghost predicate IsPath(s: set<Vector2Int>, p: seq<Vector2Int>)
  {
    |p| > 0 &&
    (forall i :: 0 <= i < |p| ==> p[i] in s) &&
    (forall i :: 0 <= i < |p| - 1 ==> Adjacent(p[i], p[i + 1]))
  }

  ghost predicate Reaches(s: set<Vector2Int>, a: Vector2Int, b: Vector2Int)
  {
    exists p :: IsPath(s, p) && p[0] == a && p[|p| - 1] == b
  }

  /** `a` reaches some cell of `target` through cells of `s`. */
  ghost predicate Linked(s: set<Vector2Int>, a: Vector2Int, target: set<Vector2Int>)
  {
    exists b :: b in target && Reaches(s, a, b)
  }

  /** Every two cells of `s` are joined by a path inside `s`. */
  ghost predicate Connected(s: set<Vector2Int>)
  {
    forall a, b :: a in s && b in s ==> Reaches(s, a, b)
  }

  /** No cell of `r` has a neighbour in `open` outside `r`. */
  ghost predicate Closed(open: set<Vector2Int>, r: set<Vector2Int>)
  {
    forall c, d :: c in r && d in open && Adjacent(c, d) ==> d in r
  }

  function Distance(a: Vector2Int, b: Vector2Int): nat
  {
    (if a.x < b.x then b.x - a.x else a.x - b.x) + (if a.y < b.y then b.y - a.y else a.y - b.y)
  }

  lemma ReachesRefl(s: set<Vector2Int>, a: Vector2Int)
    requires a in s
    ensures Reaches(s, a, a)
  {
    assert IsPath(s, [a]);
  }

  lemma ReachesStep(s: set<Vector2Int>, a: Vector2Int, b: Vector2Int, c: Vector2Int)
    requires Reaches(s, a, b) && c in s && Adjacent(b, c)
    ensures Reaches(s, a, c)
  {
    var p :| IsPath(s, p) && p[0] == a && p[|p| - 1] == b;
    var q := p + [c];
    assert IsPath(s, q);
  }

  lemma ReachesMono(s: set<Vector2Int>, t: set<Vector2Int>, a: Vector2Int, b: Vector2Int)
    requires s <= t && Reaches(s, a, b)
    ensures Reaches(t, a, b)
  {
    var p :| IsPath(s, p) && p[0] == a && p[|p| - 1] == b;
    assert IsPath(t, p);
  }

  lemma ReachesSym(s: set<Vector2Int>, a: Vector2Int, b: Vector2Int)
    requires Reaches(s, a, b)
    ensures Reaches(s, b, a)
  {
    var p :| IsPath(s, p) && p[0] == a && p[|p| - 1] == b;
    var q := seq(|p|, i requires 0 <= i < |p| => p[|p| - 1 - i]);
    forall i | 0 <= i < |q| - 1
      ensures Adjacent(q[i], q[i + 1])
    {
      assert q[i] == p[|p| - 1 - i] && q[i + 1] == p[|p| - 2 - i];
    }
    assert IsPath(s, q);
  }

  lemma ReachesTrans(s: set<Vector2Int>, a: Vector2Int, b: Vector2Int, c: Vector2Int)
    requires Reaches(s, a, b) && Reaches(s, b, c)
    ensures Reaches(s, a, c)
  {
    var p :| IsPath(s, p) && p[0] == a && p[|p| - 1] == b;
    var q :| IsPath(s, q) && q[0] == b && q[|q| - 1] == c;
    var r := p + q[1..];
    assert forall i :: |p| <= i < |r| ==> r[i] == q[i - |p| + 1];
    assert forall i :: 0 <= i < |r| ==> r[i] in s;
    assert IsPath(s, r);
  }

  /** A path stays a path in a larger set and can be extended by a
      neighbour of its last cell. */
  lemma PathGrow(s: set<Vector2Int>, t: set<Vector2Int>, p: seq<Vector2Int>, c: Vector2Int)
    requires IsPath(s, p) && s <= t && c in t && Adjacent(p[|p| - 1], c)
    ensures IsPath(t, p + [c])
  {
    var q := p + [c];
    forall i | 0 <= i < |q| - 1
      ensures Adjacent(q[i], q[i + 1])
    {
      if i < |p| - 1 {
        assert q[i] == p[i] && q[i + 1] == p[i + 1];
      }
    }
  }

  lemma LinkedMono(s: set<Vector2Int>, t: set<Vector2Int>, a: Vector2Int, target: set<Vector2Int>)
    requires s <= t && Linked(s, a, target)
    ensures Linked(t, a, target)
  {
    var b :| b in target && Reaches(s, a, b);
    ReachesMono(s, t, a, b);
  }

  lemma LinkedVia(s: set<Vector2Int>, a: Vector2Int, b: Vector2Int, target: set<Vector2Int>)
    requires Reaches(s, a, b) && Linked(s, b, target)
    ensures Linked(s, a, target)
  {
    var e :| e in target && Reaches(s, b, e);
    ReachesTrans(s, a, b, e);
  }

  /** Every cell of a path that ends in `target` is linked to `target`. */
  lemma PathLinked(s: set<Vector2Int>, p: seq<Vector2Int>, target: set<Vector2Int>)
    requires IsPath(s, p) && p[|p| - 1] in target
    ensures forall i :: 0 <= i < |p| ==> Linked(s, p[i], target)
  {
    forall i | 0 <= i < |p|
      ensures Linked(s, p[i], target)
    {
      var q := p[i..];
      assert IsPath(s, q);
    }
  }

  /** A path that starts in a closed part of `open` never leaves it. */
  lemma {:induction false} PathStaysIn(open: set<Vector2Int>, r: set<Vector2Int>, p: seq<Vector2Int>)
    requires Closed(open, r) && IsPath(open, p) && p[0] in r
    ensures p[|p| - 1] in r
    decreases |p|
  {
    if |p| > 1 {
      var q := p[..|p| - 1];
      assert IsPath(open, q);
      PathStaysIn(open, r, q);
      assert Adjacent(p[|p| - 2], p[|p| - 1]);
    }
  }

  /** A neighbour of `c` one step closer to `d`. */
  function StepToward(c: Vector2Int, d: Vector2Int): (n: Vector2Int)
    requires c != d
    ensures Adjacent(c, n) && Distance(n, d) + 1 == Distance(c, d)
  {
    if c.x < d.x then Vector2Int(c.x + 1, c.y)
    else if c.x > d.x then Vector2Int(c.x - 1, c.y)
    else if c.y < d.y then Vector2Int(c.x, c.y + 1)
    else Vector2Int(c.x, c.y - 1)
  }

  /** Within a rectangle every cell reaches every other one. */
  lemma {:induction false} GridReaches(size: Vector2Int, a: Vector2Int, b: Vector2Int, n: nat)
    requires InBounds(a, size) && InBounds(b, size) && n == Distance(b, a)
    ensures Reaches(Cells(size), a, b)
    decreases n
  {
    if n == 0 {
      assert a == b;
      ReachesRefl(Cells(size), a);
    } else {
      var c := StepToward(b, a);
      assert InBounds(c, size);
      GridReaches(size, a, c, n - 1);
      ReachesStep(Cells(size), a, c, b);
    }
  }

  lemma GridConnected(size: Vector2Int)
    ensures Connected(Cells(size))
  {
    forall a, b | a in Cells(size) && b in Cells(size)
      ensures Reaches(Cells(size), a, b)
    {
      GridReaches(size, a, b, Distance(b, a));
    }
  }

  /** A set of cells that contains one cell of a rectangle and is closed under
      in-bounds neighbours holds the whole rectangle. */
  lemma ClosedGridIsFull(size: Vector2Int, done: set<Vector2Int>, start: Vector2Int)
    requires start in done && InBounds(start, size) && Closed(Cells(size), done)
    ensures Cells(size) <= done
  {
    GridConnected(size);
    forall c | c in Cells(size)
      ensures c in done
    {
      assert Reaches(Cells(size), start, c);
      var p :| IsPath(Cells(size), p) && p[0] == start && p[|p| - 1] == c;
      PathStaysIn(Cells(size), done, p);
    }
  }
}
