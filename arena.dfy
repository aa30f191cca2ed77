/** The value-level pieces of one generation: the engine's integer random
    draw, the sampled arena size, the choice of the root region, and the
    world positions of the interior cells in scan order. */
module Arena {
  import opened Grid
  import opened Lists
  import opened Regions

  /** The edge length of one cell in world units. */
  const WallSize: int := 4

  /** Random.Range(lo, hi) on integers: a value in [lo, hi); for an empty
      range the engine returns `lo`, for an inverted one a value in (hi, lo]. */
  method RandomRange(lo: int, hi: int) returns (r: int)
    ensures lo < hi ==> lo <= r < hi
    ensures hi == lo ==> r == lo
    ensures hi < lo ==> hi < r <= lo
  {
    if lo < hi {
      r :| lo <= r < hi;
    } else if hi < lo {
      r :| hi < r <= lo;
    } else {
      r := lo;
    }
  }

  /** The arena size: width and height drawn independently, each from the
      inclusive configured range. */
  method SampleSize(minSize: Vector2Int, maxSize: Vector2Int) returns (size: Vector2Int)
    ensures minSize.x <= maxSize.x ==> minSize.x <= size.x <= maxSize.x
    ensures minSize.y <= maxSize.y ==> minSize.y <= size.y <= maxSize.y
    ensures 0 <= minSize.x && 0 <= maxSize.x ==> 0 <= size.x
    ensures 0 <= minSize.y && 0 <= maxSize.y ==> 0 <= size.y
  {
    var w := RandomRange(minSize.x, maxSize.x + 1);
    var h := RandomRange(minSize.y, maxSize.y + 1);
    size := Vector2Int(w, h);
  }

  /** The root region: the first region, replaced by every later one that is
      strictly larger than the current choice. */
  method Largest(areas: seq<set<Vector2Int>>) returns (k: nat)
    requires areas != []
    ensures IsRoot(areas, k)
  {
    k := 0;
    for i := 0 to |areas|
      invariant k < |areas| && (i == 0 ==> k == 0) && (i > 0 ==> k < i)
      invariant forall j :: 0 <= j < i ==> |areas[j]| <= |areas[k]|
      invariant forall j :: 0 <= j < k ==> |areas[j]| < |areas[k]|
    {
      if |areas[i]| > |areas[k]| {
        k := i;
      }
    }
  }

  /** The world position of the centre of interior cell `c` (the border ring
      occupies world coordinate 0). */
  function WorldPos(c: Vector2Int): Vector2Int
  {
    Vector2Int(WallSize + c.x * WallSize, WallSize + c.y * WallSize)
  }

  /** Distinct cells have distinct world positions. */
  lemma WorldPosInjective(c: Vector2Int, d: Vector2Int)
    requires WorldPos(c) == WorldPos(d)
    ensures c == d
  {
  }

  /** The world positions of a list of cells, in order. */
  function WorldPositions(cs: seq<Vector2Int>): (ps: seq<Vector2Int>)
    ensures |ps| == |cs| && forall i :: 0 <= i < |cs| ==> ps[i] == WorldPos(cs[i])
  {
    seq(|cs|, i requires 0 <= i < |cs| => WorldPos(cs[i]))
  }

  /** Mapping cells to world positions keeps them distinct and keeps
      membership. */
  lemma WorldPositionsDistinct(cs: seq<Vector2Int>)
    requires Distinct(cs)
    ensures Distinct(WorldPositions(cs))
    ensures forall c :: c in cs <==> WorldPos(c) in WorldPositions(cs)
  {
    var ps := WorldPositions(cs);
    forall c | WorldPos(c) in ps
      ensures c in cs
    {
      var i :| 0 <= i < |ps| && ps[i] == WorldPos(c);
      WorldPosInjective(cs[i], c);
    }
    forall i, j | 0 <= i < j < |ps|
      ensures ps[i] != ps[j]
    {
      if ps[i] == ps[j] {
        WorldPosInjective(cs[i], cs[j]);
      }
    }
  }

  /** The cells (x, 0) .. (x, y - 1) that hold `v`, in scan order. */
  function ScanColumn(a: array2<bool>, v: bool, x: nat, y: nat): seq<Vector2Int>
    reads a
    requires x < a.Length0 && y <= a.Length1
  {
    if y == 0 then []
    else ScanColumn(a, v, x, y - 1) + (if a[x, y - 1] == v then [Vector2Int(x, y - 1)] else [])
  }

  /** The cells of columns 0 .. x - 1 that hold `v`, in scan order. */
  function ScanRows(a: array2<bool>, v: bool, x: nat): seq<Vector2Int>
    reads a
    requires x <= a.Length0
  {
    if x == 0 then []
    else ScanRows(a, v, x - 1) + ScanColumn(a, v, x - 1, a.Length1)
  }

  /** All cells that hold `v`, in scan order. */
  function Scan(a: array2<bool>, v: bool): seq<Vector2Int>
    reads a
  {
    ScanRows(a, v, a.Length0)
  }

  /** `s` lists, each once, exactly the cells `c` of `a` holding `v` with
      x0 <= c.x < x1 and c.y < y1. */
  ghost predicate Enumerates(a: array2<bool>, v: bool, s: seq<Vector2Int>, x0: int, x1: int, y1: int)
    reads a
  {
    Distinct(s) &&
    forall c :: c in s <==>
      (InBounds(c, Vector2Int(a.Length0, a.Length1)) && a[c.x, c.y] == v && x0 <= c.x < x1 && c.y < y1)
  }

  lemma {:induction false} ScanColumnEnumerates(a: array2<bool>, v: bool, x: nat, y: nat)
    requires x < a.Length0 && y <= a.Length1
    ensures Enumerates(a, v, ScanColumn(a, v, x, y), x, x + 1, y)
  {
    if y > 0 {
      ScanColumnEnumerates(a, v, x, y - 1);
      var s := ScanColumn(a, v, x, y - 1);
      if a[x, y - 1] == v {
        var c := Vector2Int(x, y - 1);
        assert c !in s;
        DistinctAppend(s, [c]);
      }
    }
  }

  lemma {:induction false} ScanRowsEnumerates(a: array2<bool>, v: bool, x: nat)
    requires x <= a.Length0
    ensures Enumerates(a, v, ScanRows(a, v, x), 0, x, a.Length1)
  {
    if x > 0 {
      ScanRowsEnumerates(a, v, x - 1);
      ScanColumnEnumerates(a, v, x - 1, a.Length1);
      var s := ScanRows(a, v, x - 1);
      var col := ScanColumn(a, v, x - 1, a.Length1);
      forall i, j | 0 <= i < |s| && 0 <= j < |col|
        ensures s[i] != col[j]
      {
        assert s[i] in s && col[j] in col;
      }
      DistinctAppend(s, col);
    }
  }

  /** The scan lists every cell holding `v` exactly once, and nothing else. */
  lemma ScanEnumerates(a: array2<bool>, v: bool)
    ensures Enumerates(a, v, Scan(a, v), 0, a.Length0, a.Length1)
  {
    ScanRowsEnumerates(a, v, a.Length0);
  }

  /** Mapping a list of cells to world positions commutes with appending. */
  lemma WorldPositionsAppend(cs: seq<Vector2Int>, ds: seq<Vector2Int>)
    ensures WorldPositions(cs + ds) == WorldPositions(cs) + WorldPositions(ds)
  {
  }

  /** A list without duplicates that holds exactly the elements of a set is
      as long as the set is large. */
  lemma {:induction false} DistinctCard(s: seq<Vector2Int>, t: set<Vector2Int>)
    requires Distinct(s) && forall c :: c in s <==> c in t
    ensures |s| == |t|
  {
    if s != [] {
      var rest := s[1..];
      forall c
        ensures c in rest <==> c in t - {s[0]}
      {
        if c in rest {
          var i :| 0 <= i < |rest| && rest[i] == c;
          assert s[i + 1] == c;
        }
        if c in s && c != s[0] {
          var i :| 0 <= i < |s| && s[i] == c;
          assert rest[i - 1] == c;
        }
      }
      DistinctCard(rest, t - {s[0]});
    } else {
      assert t == {};
    }
  }

  /** The interior scan lists the world position of every cell holding `v`,
      each exactly once. */
  lemma ScanListsCells(a: array2<bool>, v: bool)
    ensures Distinct(WorldPositions(Scan(a, v)))
    ensures |WorldPositions(Scan(a, v))| == |CellsWhere(a, v)|
  {
    ScanEnumerates(a, v);
    WorldPositionsDistinct(Scan(a, v));
    DistinctCard(Scan(a, v), CellsWhere(a, v));
  }

  /** The world position of the corner of ring cell `r`; the interior cell
      `c` is the ring cell (c.x + 1, c.y + 1). */
  function Scaled(r: Vector2Int): Vector2Int
  {
    Vector2Int(r.x * WallSize, r.y * WallSize)
  }

  /** The world positions of a list of ring cells, in order. */
  function BlockPositions(rs: seq<Vector2Int>): (ps: seq<Vector2Int>)
    ensures |ps| == |rs| && forall i :: 0 <= i < |rs| ==> ps[i] == Scaled(rs[i])
  {
    seq(|rs|, i requires 0 <= i < |rs| => Scaled(rs[i]))
  }

  lemma BlockPositionsAppend(rs: seq<Vector2Int>, ts: seq<Vector2Int>)
    ensures BlockPositions(rs + ts) == BlockPositions(rs) + BlockPositions(ts)
  {
  }

  /** The cells of the border ring around a size.x by size.y interior. */
  predicate OnRing(size: Vector2Int, r: Vector2Int)
  {
    0 <= r.x <= size.x + 1 && 0 <= r.y <= size.y + 1 &&
    (r.x == 0 || r.x == size.x + 1 || r.y == 0 || r.y == size.y + 1)
  }

  /** The first border loop: for x = 1 .. n, the bottom cell (x, 0) and the
      top cell (x, size.y + 1). */
  function RowPairs(size: Vector2Int, n: nat): seq<Vector2Int>
  {
    if n == 0 then [] else RowPairs(size, n - 1) + [Vector2Int(n, 0), Vector2Int(n, size.y + 1)]
  }

  /** The cells (x, 0) .. (x, h - 1), bottom to top. */
  function Column(x: int, h: nat): seq<Vector2Int>
  {
    if h == 0 then [] else Column(x, h - 1) + [Vector2Int(x, h - 1)]
  }

  /** The border ring in the order it is instantiated: the bottom and top
      rows without corners, then the left and the right column. */
  function Border(size: Vector2Int): seq<Vector2Int>
    requires 0 <= size.x && 0 <= size.y
  {
    RowPairs(size, size.x) + Column(0, size.y + 2) + Column(size.x + 1, size.y + 2)
  }

  lemma {:induction false} RowPairsCells(size: Vector2Int, n: nat)
    requires 0 <= size.y
    ensures Distinct(RowPairs(size, n))
    ensures forall r :: r in RowPairs(size, n) <==> 1 <= r.x <= n && (r.y == 0 || r.y == size.y + 1)
  {
    if n > 0 {
      RowPairsCells(size, n - 1);
      var s := RowPairs(size, n - 1);
      var t := [Vector2Int(n, 0), Vector2Int(n, size.y + 1)];
      forall i, j | 0 <= i < |s| && 0 <= j < |t|
        ensures s[i] != t[j]
      {
        assert s[i] in s;
      }
      DistinctAppend(s, t);
    }
  }

  lemma {:induction false} ColumnCells(x: int, h: nat)
    ensures Distinct(Column(x, h))
    ensures forall r :: r in Column(x, h) <==> r.x == x && 0 <= r.y < h
  {
    if h > 0 {
      ColumnCells(x, h - 1);
      DistinctAppend(Column(x, h - 1), [Vector2Int(x, h - 1)]);
    }
  }

  /** The border walls cover the ring exactly, each cell once. */
  lemma BorderRing(size: Vector2Int)
    requires 0 <= size.x && 0 <= size.y
    ensures Distinct(Border(size))
    ensures forall r :: r in Border(size) <==> OnRing(size, r)
  {
    var rows, left, right := RowPairs(size, size.x), Column(0, size.y + 2), Column(size.x + 1, size.y + 2);
    RowPairsCells(size, size.x);
    ColumnCells(0, size.y + 2);
    ColumnCells(size.x + 1, size.y + 2);
    var b := Border(size);
    assert b == rows + left + right;
    BorderDistinct(rows, left, right, size);
    forall r
      ensures r in b <==> OnRing(size, r)
    {
      assert r in b <==> r in rows || r in left || r in right;
    }
  }

  lemma BorderDistinct(rows: seq<Vector2Int>, left: seq<Vector2Int>, right: seq<Vector2Int>, size: Vector2Int)
    requires 0 <= size.x && Distinct(rows) && Distinct(left) && Distinct(right)
    requires forall r :: r in rows ==> 1 <= r.x <= size.x
    requires forall r :: r in left ==> r.x == 0
    requires forall r :: r in right ==> r.x == size.x + 1
    ensures Distinct(rows + left + right)
  {
    forall i, j | 0 <= i < |rows| && 0 <= j < |left|
      ensures rows[i] != left[j]
    {
      assert rows[i] in rows && left[j] in left;
    }
    DistinctAppend(rows, left);
    var rl := rows + left;
    forall i, j | 0 <= i < |rl| && 0 <= j < |right|
      ensures rl[i] != right[j]
    {
      assert rl[i] in rows || rl[i] in left;
      assert right[j] in right;
    }
    DistinctAppend(rl, right);
  }

  /** Scaling is injective, and an interior cell's world position is never
      that of a border wall. */
  lemma ScaledApart(size: Vector2Int, r: Vector2Int, c: Vector2Int)
    ensures Scaled(r) == Scaled(c) ==> r == c
    ensures OnRing(size, r) && InBounds(c, size) ==> Scaled(r) != WorldPos(c)
  {
  }

  /** The wall blocks of one generation, the border ring followed by one
      block per interior wall cell, all stand at distinct world positions. */
  lemma WallsApart(size: Vector2Int, cs: seq<Vector2Int>)
    requires 0 <= size.x && 0 <= size.y && Distinct(cs)
    requires forall c :: c in cs ==> InBounds(c, size)
    ensures Distinct(BlockPositions(Border(size)))
    ensures Distinct(BlockPositions(Border(size)) + WorldPositions(cs))
  {
    BorderRing(size);
    var b := Border(size);
    var bs, ws := BlockPositions(b), WorldPositions(cs);
    forall i, j | 0 <= i < j < |bs|
      ensures bs[i] != bs[j]
    {
      ScaledApart(size, b[i], b[j]);
    }
    WorldPositionsDistinct(cs);
    forall i, j | 0 <= i < |bs| && 0 <= j < |ws|
      ensures bs[i] != ws[j]
    {
      assert b[i] in b && cs[j] in cs;
      ScaledApart(size, b[i], cs[j]);
    }
    DistinctAppend(bs, ws);
  }
}
