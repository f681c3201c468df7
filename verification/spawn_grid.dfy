/**
 The grid of spawn points built when the server starts, its shuffle, and the
 round-robin cursor that hands the points out one after another.
 */
module SpawnGrid {
  import opened Geometry

  /** Points per side of the grid. */
  const GridSize: nat := 5
  /** Distance between neighbouring grid points. */
  const Spacing: nat := 200
  /** Number of grid points. */
  const GridCount: nat := 25

  /** The point in row `i`, column `j`; the grid is centred on the origin. */
  function GridPoint(i: int, j: int): Vec3
  {
    Vec3((i - GridSize / 2) * Spacing, 0, (j - GridSize / 2) * Spacing)
  }

  /** The points in the order the two nested loops push them. */
  function GridPoints(): seq<Vec3>
  {
    seq(GridCount, k requires 0 <= k < GridCount => GridPoint(k / GridSize, k % GridSize))
  }

  /** A coordinate of the grid: one of -400, -200, 0, 200, 400. */
  predicate IsGridCoordinate(c: int)
  {
    -(GridSize / 2) * Spacing <= c <= (GridSize / 2) * Spacing && c % Spacing == 0
  }

  predicate NoDuplicates<T(==)>(s: seq<T>)
  {
    forall a, b :: 0 <= a < b < |s| ==> s[a] != s[b]
  }

  /** The grid has 25 distinct points, all on the ground plane, at every
      combination of the five grid coordinates. */
  lemma GridPointsShape()
    ensures |GridPoints()| == GridSize * GridSize
    ensures forall p :: p in GridPoints() ==> p.y == 0 && IsGridCoordinate(p.x) && IsGridCoordinate(p.z)
    ensures forall i, j :: 0 <= i < GridSize && 0 <= j < GridSize ==> GridPoint(i, j) in GridPoints()
    ensures NoDuplicates(GridPoints())
  {
    var g := GridPoints();
    forall p | p in g
      ensures p.y == 0 && IsGridCoordinate(p.x) && IsGridCoordinate(p.z)
    {
      var k :| 0 <= k < |g| && g[k] == p;
      var i, j := k / GridSize, k % GridSize;
      assert 0 <= i < GridSize && 0 <= j < GridSize;
      assert p == GridPoint(i, j);
    }
    forall i, j | 0 <= i < GridSize && 0 <= j < GridSize
      ensures GridPoint(i, j) in g
    {
      var k := i * GridSize + j;
      assert k / GridSize == i && k % GridSize == j;
      assert g[k] == GridPoint(i, j);
    }
    forall a, b | 0 <= a < b < |g|
      ensures g[a] != g[b]
    {
      if a / GridSize == b / GridSize {
        assert a % GridSize != b % GridSize;
        assert g[a].z != g[b].z;
      } else {
        assert g[a].x != g[b].x;
      }
    }
  }

  /** One transposition performed while the points are shuffled. */
  datatype Swap = Swap(i: nat, j: nat)

  /** Exchanges two entries; a transposition outside the sequence changes nothing. */
  function SwapAt<T(==)>(s: seq<T>, t: Swap): (r: seq<T>)
    ensures |r| == |s|
    ensures multiset(r) == multiset(s)
    ensures NoDuplicates(s) ==> NoDuplicates(r)
  {
    if t.i < |s| && t.j < |s| then
      var r := s[t.i := s[t.j]][t.j := s[t.i]];
      assert NoDuplicates(s) ==> NoDuplicates(r) by {
        if NoDuplicates(s) {
          forall a, b | 0 <= a < b < |r| ensures r[a] != r[b] {
            var a' := if a == t.i then t.j else if a == t.j then t.i else a;
            var b' := if b == t.i then t.j else if b == t.j then t.i else b;
            assert r[a] == s[a'] && r[b] == s[b'] && a' != b';
          }
        }
      }
      r
    else
      s
  }

  /** The shuffle: the transpositions applied in order. */
  function Shuffle<T(==)>(s: seq<T>, swaps: seq<Swap>): (r: seq<T>)
    ensures |r| == |s|
    ensures multiset(r) == multiset(s)
    ensures NoDuplicates(s) ==> NoDuplicates(r)
    decreases |swaps|
  {
    if swaps == [] then s else Shuffle(SwapAt(s, swaps[0]), swaps[1..])
  }

  /** A permutation of the grid, as `generateSpawnPoints` returns it. */
  predicate IsShuffledGrid(points: seq<Vec3>)
  {
    multiset(points) == multiset(GridPoints())
  }

  /**
   Builds the 5x5 grid row by row and shuffles it. The random comparator of
   the shuffle is represented by `swaps`, the transpositions it causes.
   */
  method GenerateSpawnPoints(swaps: seq<Swap>) returns (points: seq<Vec3>)
    ensures points == Shuffle(GridPoints(), swaps)
    ensures IsShuffledGrid(points)
    ensures |points| == GridSize * GridSize
    ensures forall p :: p in points ==> p.y == 0 && IsGridCoordinate(p.x) && IsGridCoordinate(p.z)
    ensures forall i, j :: 0 <= i < GridSize && 0 <= j < GridSize ==> GridPoint(i, j) in points
    ensures NoDuplicates(points)
  {
    points := [];
    for i := 0 to GridSize
      invariant points == GridPoints()[..i * GridSize]
    {
      for j := 0 to GridSize
        invariant points == GridPoints()[..i * GridSize + j]
      {
        points := points + [Vec3((i - GridSize / 2) * Spacing, 0, (j - GridSize / 2) * Spacing)];
      }
    }
    assert points == GridPoints();
    GridPointsShape();
    points := Shuffle(points, swaps);
    assert forall p :: p in points <==> p in GridPoints() by {
      forall p ensures p in points <==> p in GridPoints() {
        assert p in points <==> p in multiset(points);
      }
    }
  }

  /** The cursor after one call of `getNextSpawnPoint`: one step on, wrapping
      to the first point after the last. */
  function Advance(cursor: nat, count: nat): (next: nat)
    requires cursor < count
    ensures next < count
    ensures next == if cursor + 1 == count then 0 else cursor + 1
  {
    (cursor + 1) % count
  }

  /** The cursor after `n` calls. */
  function CursorAfter(cursor: nat, count: nat, n: nat): (after: nat)
    requires cursor < count
    ensures after < count
    decreases n
  {
    if n == 0 then cursor else CursorAfter(Advance(cursor, count), count, n - 1)
  }

  /** The points that `n` consecutive calls return, starting at `cursor`. */
  function Issued<T>(points: seq<T>, cursor: nat, n: nat): (r: seq<T>)
    requires cursor < |points|
    ensures |r| == n
    decreases n
  {
    if n == 0 then [] else [points[cursor]] + Issued(points, Advance(cursor, |points|), n - 1)
  }

  /** `n + m` calls hand out what `n` calls do, then what `m` more calls do
      from where those left the cursor. */
  lemma {:induction false} IssuedSplit<T>(points: seq<T>, cursor: nat, n: nat, m: nat)
    requires cursor < |points|
    ensures Issued(points, cursor, n + m)
         == Issued(points, cursor, n) + Issued(points, CursorAfter(cursor, |points|, n), m)
    decreases n
  {
    if n > 0 {
      IssuedSplit(points, Advance(cursor, |points|), n - 1, m);
    }
  }

  /** Until the cursor wraps, the calls return the points in stored order. */
  lemma {:induction false} IssuedInOrder<T>(points: seq<T>, cursor: nat, n: nat)
    requires cursor + n <= |points| && cursor < |points|
    ensures Issued(points, cursor, n) == points[cursor..cursor + n]
    ensures cursor + n < |points| ==> CursorAfter(cursor, |points|, n) == cursor + n
    ensures cursor + n == |points| ==> CursorAfter(cursor, |points|, n) == 0
    decreases n
  {
    if n > 0 && cursor + 1 < |points| {
      IssuedInOrder(points, cursor + 1, n - 1);
    }
  }

  /** A full round of `|points|` calls from any cursor hands out the stored
      points rotated to start at the cursor, and brings the cursor back. */
  lemma {:induction false} FullRound<T>(points: seq<T>, cursor: nat)
    requires cursor < |points|
    ensures Issued(points, cursor, |points|) == points[cursor..] + points[..cursor]
    ensures CursorAfter(cursor, |points|, |points|) == cursor
  {
    var L := |points|;
    IssuedSplit(points, cursor, L - cursor, cursor);
    IssuedInOrder(points, cursor, L - cursor);
    IssuedInOrder(points, 0, cursor);
    CursorAfterSplit(cursor, L, L - cursor, cursor);
    if cursor == 0 {
      assert points[..0] == [];
    }
  }

  lemma {:induction false} CursorAfterSplit(cursor: nat, count: nat, n: nat, m: nat)
    requires cursor < count
    ensures CursorAfter(cursor, count, n + m) == CursorAfter(CursorAfter(cursor, count, n), count, m)
    decreases n
  {
    if n > 0 {
      CursorAfterSplit(Advance(cursor, count), count, n - 1, m);
    }
  }

  /** In a sequence without duplicates every member occurs exactly once. */
  lemma {:induction false} OccursOnce<T>(s: seq<T>, p: T)
    requires NoDuplicates(s) && p in s
    ensures multiset(s)[p] == 1
  {
    assert s == [s[0]] + s[1..];
    if s[0] == p {
      assert p !in s[1..];
    } else {
      OccursOnce(s[1..], p);
    }
  }

  /** Any `|points|` consecutive calls return every stored point, and when the
      points are distinct (as the grid's are) each one exactly once. */
  lemma RoundCoversEachPointOnce<T>(points: seq<T>, cursor: nat)
    requires cursor < |points|
    ensures multiset(Issued(points, cursor, |points|)) == multiset(points)
    ensures NoDuplicates(points) ==>
      forall p :: p in points ==> multiset(Issued(points, cursor, |points|))[p] == 1
  {
    FullRound(points, cursor);
    assert points == points[..cursor] + points[cursor..];
    if NoDuplicates(points) {
      forall p | p in points ensures multiset(Issued(points, cursor, |points|))[p] == 1 {
        OccursOnce(points, p);
      }
    }
  }

  /**
   The module-level state behind `getNextSpawnPoint`: the shuffled grid and the
   index of the next point to hand out. `issued` records every point returned
   since the server started.
   */
  class SpawnCursor {
    const spawnPoints: seq<Vec3>
    var currentSpawnIndex: nat
    ghost var issued: seq<Vec3>

    ghost predicate Valid()
      reads this
    {
      && IsShuffledGrid(spawnPoints)
      && |spawnPoints| == GridCount
      && currentSpawnIndex < |spawnPoints|
      && issued == Issued(spawnPoints, 0, |issued|)
      && currentSpawnIndex == CursorAfter(0, |spawnPoints|, |issued|)
    }

    /** Start-up: the shuffled grid is generated once and the cursor set to its first point. */
    constructor (swaps: seq<Swap>)
      ensures Valid()
      ensures spawnPoints == Shuffle(GridPoints(), swaps)
      ensures NoDuplicates(spawnPoints)
      ensures currentSpawnIndex == 0 && issued == []
    {
      var points := GenerateSpawnPoints(swaps);
      spawnPoints := points;
      currentSpawnIndex := 0;
      issued := [];
    }

    /** Returns the point under the cursor and moves the cursor on, wrapping
        around at the end of the grid. */
    method GetNextSpawnPoint() returns (spawnPoint: Vec3)
      requires Valid()
      modifies this
      ensures Valid()
      ensures spawnPoint == spawnPoints[old(currentSpawnIndex)]
      ensures currentSpawnIndex == (old(currentSpawnIndex) + 1) % |spawnPoints|
      ensures issued == old(issued) + [spawnPoint]
    {
      spawnPoint := spawnPoints[currentSpawnIndex];
      currentSpawnIndex := (currentSpawnIndex + 1) % |spawnPoints|;
      IssuedSplit(spawnPoints, 0, |issued|, 1);
      CursorAfterSplit(0, |spawnPoints|, |issued|, 1);
      issued := issued + [spawnPoint];
    }

    /** Every run of 25 consecutive points this cursor has handed out, wherever
        it starts, contains each of the 25 grid points exactly once. */
    lemma RoundsCoverGrid(start: nat)
      requires Valid()
      requires start + GridCount <= |issued|
      ensures multiset(issued[start..start + GridCount]) == multiset(GridPoints())
      ensures forall i, j :: 0 <= i < GridSize && 0 <= j < GridSize ==>
        multiset(issued[start..start + GridCount])[GridPoint(i, j)] == 1
    {
      EveryRoundCoversGrid(spawnPoints, issued, start);
    }
  }

  /** Every run of 25 consecutive `getNextSpawnPoint` calls, wherever it starts,
      returns each of the 25 grid points exactly once. */
  lemma {:induction false} EveryRoundCoversGrid(spawnPoints: seq<Vec3>, issued: seq<Vec3>, start: nat)
    requires IsShuffledGrid(spawnPoints) && |spawnPoints| == GridCount
    requires issued == Issued(spawnPoints, 0, |issued|)
    requires start + GridCount <= |issued|
    ensures multiset(issued[start..start + GridCount]) == multiset(GridPoints())
    ensures forall i, j :: 0 <= i < GridSize && 0 <= j < GridSize ==>
      multiset(issued[start..start + GridCount])[GridPoint(i, j)] == 1
  {
    var L := |spawnPoints|;
    var rest := |issued| - start - L;
    IssuedSplit(spawnPoints, 0, start, L + rest);
    var c := CursorAfter(0, L, start);
    IssuedSplit(spawnPoints, c, L, rest);
    var round := Issued(spawnPoints, c, L);
    var before := Issued(spawnPoints, 0, start);
    assert issued == before + (round + Issued(spawnPoints, CursorAfter(c, L, L), rest));
    assert issued[start..start + L] == round;
    RoundCoversEachPointOnce(spawnPoints, c);
    assert multiset(round) == multiset(GridPoints());
    forall i, j | 0 <= i < GridSize && 0 <= j < GridSize
      ensures multiset(round)[GridPoint(i, j)] == 1
    {
      GridPointOnce(i, j);
    }
  }

  /** Each grid point occurs in the grid exactly once. */
  lemma GridPointOnce(i: int, j: int)
    requires 0 <= i < GridSize && 0 <= j < GridSize
    ensures multiset(GridPoints())[GridPoint(i, j)] == 1
  {
    GridPointsShape();
    OccursOnce(GridPoints(), GridPoint(i, j));
  }
}
