/** The value types and the grid constant that the engine's header declares. */
module SnakeTypes {

  /** Side of the square play area. */
  const GridSize: int := 30

  /** Number of cells on the board. */
  const GridCells: int := GridSize * GridSize

  /** A grid cell (x to the right, y upwards). */
  datatype Point = Point(x: int, y: int)

  /** The four moves and the pre-movement sentinel. */
  datatype Direction = Up | Down | Left | Right | None

  /** The header's coordinate-wise equality operator on points. */
  function PointEq(a: Point, b: Point): (r: bool)
    ensures r <==> a == b
  {
    a.x == b.x && a.y == b.y
  }

  /** The cell lies on the board, inside [0, GridSize - 1] in both coordinates. */
  predicate InBounds(p: Point) {
    0 <= p.x < GridSize && 0 <= p.y < GridSize
  }

  /** The five directions are the only ones, and they are pairwise different. */
  lemma DirectionValues(d: Direction)
    ensures d == Up || d == Down || d == Left || d == Right || d == None
    ensures |{Up, Down, Left, Right, None}| == 5
  {
  }
}
