/** Counting cells of the board: the facts behind "a body shorter than the
    board leaves a free cell", which is what makes food placement terminate. */
module Grid {
  import opened SnakeTypes

  /** Row-major position of a cell on the board. */
  function Index(p: Point): int {
    p.y * GridSize + p.x
  }

  /** The cell at row-major position i. */
  function CellAt(i: nat): Point {
    Point(i % GridSize, i / GridSize)
  }

  /** The first n cells in row-major order. */
  ghost function Cells(n: nat): set<Point> {
    if n == 0 then {} else Cells(n - 1) + {CellAt(n - 1)}
  }

  /** Every cell of the board. */
  ghost function AllCells(): set<Point> {
    Cells(GridCells)
  }

  /** The cell at position i (on the board) has index i. */
  lemma CellAtIndex(i: nat)
    requires i < GridCells
    ensures InBounds(CellAt(i)) && Index(CellAt(i)) == i
  {
  }

  /** An on-board cell is determined by its index. */
  lemma IndexDetermines(p: Point, i: nat)
    requires InBounds(p) && Index(p) == i
    ensures p == CellAt(i)
  {
    assert i / GridSize == p.y;
    assert i % GridSize == p.x;
  }

  /** The first n cells are exactly the on-board cells of index below n, and
      there are n of them. */
  lemma {:induction false} CellsCount(n: nat)
    requires n <= GridCells
    ensures forall p :: p in Cells(n) <==> InBounds(p) && Index(p) < n
    ensures |Cells(n)| == n
  {
    if n > 0 {
      CellsCount(n - 1);
      CellAtIndex(n - 1);
      forall p | InBounds(p) && Index(p) == n - 1
        ensures p == CellAt(n - 1)
      {
        IndexDetermines(p, n - 1);
      }
      assert CellAt(n - 1) !in Cells(n - 1);
    }
  }

  /** The board holds exactly the in-bounds cells, GridCells of them. */
  lemma AllCellsFacts()
    ensures forall p :: p in AllCells() <==> InBounds(p)
    ensures |AllCells()| == GridCells
  {
    CellsCount(GridCells);
  }

  /** A sequence that contains every element of a set is at least as long as
      the set is large. */
  lemma {:induction false} CoverNeedsLength(cells: set<Point>, s: seq<Point>)
    requires forall p :: p in cells ==> p in s
    ensures |cells| <= |s|
  {
    if s != [] {
      var rest := cells - {s[0]};
      forall p | p in rest
        ensures p in s[1..]
      {
        assert p in s && p != s[0];
      }
      CoverNeedsLength(rest, s[1..]);
    } else {
      assert forall p :: p !in cells;
    }
  }

  /** Pigeonhole: a body shorter than the board leaves some cell free. */
  lemma FreeCellExists(body: seq<Point>)
    requires |body| < GridCells
    ensures exists p :: InBounds(p) && p !in body
  {
    AllCellsFacts();
    if forall p :: InBounds(p) ==> p in body {
      CoverNeedsLength(AllCells(), body);
      assert false;
    }
  }

  /** Pairwise different cells of a sequence. */
  predicate Distinct(s: seq<Point>) {
    forall i, j :: 0 <= i < j < |s| ==> s[i] != s[j]
  }

  /** A sequence of pairwise different elements of a set is no longer than
      the set is large. */
  lemma {:induction false} DistinctFits(s: seq<Point>, cells: set<Point>)
    requires Distinct(s)
    requires forall i :: 0 <= i < |s| ==> s[i] in cells
    ensures |s| <= |cells|
  {
    if s != [] {
      var rest := cells - {s[0]};
      forall i | 0 <= i < |s[1..]|
        ensures s[1..][i] in rest
      {
        assert s[1..][i] == s[i + 1] && s[i + 1] != s[0];
      }
      DistinctFits(s[1..], rest);
    }
  }
}
