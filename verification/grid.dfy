/** The cell grid shared by the generation stages: `height` rows of `width`
    cells, initially all wall. Rows are indexed by y and columns by x, as in
    `grid[y][x]` in the source. */
module Grids {

  /** The four cell kinds; `Code` gives the number the output grid holds. */
  datatype Cell = Wall | Floor | Door | RoomCenter

  function Code(c: Cell): nat {
    match c
    case Wall => 0
    case Floor => 1
    case Door => 2
    case RoomCenter => 3
  }

  datatype Point = Point(x: int, y: int)

  type Grid = seq<seq<Cell>>

  predicate IsGrid(g: Grid, width: int, height: int) {
    |g| == height && forall y | 0 <= y < |g| :: |g[y]| == width
  }

  predicate InBounds(p: Point, width: int, height: int) {
    0 <= p.x < width && 0 <= p.y < height
  }

  /** p names a cell of g. */
  predicate InGrid(g: Grid, p: Point) {
    0 <= p.y < |g| && 0 <= p.x < |g[p.y]|
  }

  predicate SameShape(g: Grid, g': Grid) {
    |g'| == |g| && forall y | 0 <= y < |g| :: |g'[y]| == |g[y]|
  }

  function At(g: Grid, p: Point): Cell
    requires InGrid(g, p)
  {
    g[p.y][p.x]
  }

  /** The grid with the cell at p replaced by c. */
  function Set(g: Grid, p: Point, c: Cell): (g': Grid)
    requires InGrid(g, p)
    ensures SameShape(g, g')
    ensures forall q | InGrid(g, q) :: At(g', q) == if q == p then c else At(g, q)
  {
    g[p.y := g[p.y][p.x := c]]
  }

  /** A grid of height rows of width cells, all wall. */
  function Blank(width: nat, height: nat): (g: Grid)
    ensures IsGrid(g, width, height)
    ensures forall p | InGrid(g, p) :: At(g, p) == Wall
  {
    seq(height, _ => seq(width, _ => Wall))
  }

  /** g' differs from g only where a wall became floor. */
  ghost predicate OnlyWallsToFloor(g: Grid, g': Grid) {
    && SameShape(g, g')
    && forall p | InGrid(g, p) :: At(g', p) == At(g, p) || (At(g, p) == Wall && At(g', p) == Floor)
  }

  /** Every cell that is open (not wall) in g is still open in g'. */
  ghost predicate KeepsOpen(g: Grid, g': Grid) {
    && SameShape(g, g')
    && forall p | InGrid(g, p) && At(g, p) != Wall :: At(g', p) != Wall
  }

  lemma KeepsOpenTransitive(g1: Grid, g2: Grid, g3: Grid)
    requires KeepsOpen(g1, g2) && KeepsOpen(g2, g3)
    ensures KeepsOpen(g1, g3)
  {
    forall p | InGrid(g1, p) && At(g1, p) != Wall
      ensures At(g3, p) != Wall
    {
      assert InGrid(g2, p);
    }
  }

  lemma OnlyWallsToFloorTransitive(g1: Grid, g2: Grid, g3: Grid)
    requires OnlyWallsToFloor(g1, g2) && OnlyWallsToFloor(g2, g3)
    ensures OnlyWallsToFloor(g1, g3)
  {
    forall p | InGrid(g1, p)
      ensures At(g3, p) == At(g1, p) || (At(g1, p) == Wall && At(g3, p) == Floor)
    {
      assert InGrid(g2, p);
    }
  }

  /** Orthogonal neighbours. */
  predicate Adjacent(p: Point, q: Point) {
    (p.x == q.x && (p.y - q.y == 1 || q.y - p.y == 1))
    || (p.y == q.y && (p.x - q.x == 1 || q.x - p.x == 1))
  }

  /** A walk of orthogonal steps through open cells of g. */
  predicate IsOpenWalk(g: Grid, walk: seq<Point>) {
    && |walk| >= 1
    && (forall i | 0 <= i < |walk| :: InGrid(g, walk[i]) && At(g, walk[i]) != Wall)
    && (forall i | 0 <= i < |walk| - 1 :: Adjacent(walk[i], walk[i + 1]))
  }

  /** An open walk from a to b exists. */
  ghost predicate Connected(g: Grid, a: Point, b: Point) {
    exists walk :: IsOpenWalk(g, walk) && walk[0] == a && walk[|walk| - 1] == b
  }

  /** An open walk connects its two ends. */
  lemma WalkConnects(g: Grid, walk: seq<Point>)
    requires IsOpenWalk(g, walk)
    ensures Connected(g, walk[0], walk[|walk| - 1])
  {
  }

  function Reverse(walk: seq<Point>): (r: seq<Point>)
    ensures |r| == |walk|
    ensures forall i | 0 <= i < |walk| :: r[i] == walk[|walk| - 1 - i]
  {
    seq(|walk|, i requires 0 <= i < |walk| => walk[|walk| - 1 - i])
  }

  /** Open walks can be walked backwards, so connection is symmetric. */
  lemma ConnectedSymmetric(g: Grid, a: Point, b: Point)
    requires Connected(g, a, b)
    ensures Connected(g, b, a)
  {
    var walk :| IsOpenWalk(g, walk) && walk[0] == a && walk[|walk| - 1] == b;
    var r := Reverse(walk);
    forall i | 0 <= i < |r| - 1
      ensures Adjacent(r[i], r[i + 1])
    {
      assert Adjacent(walk[|walk| - 2 - i], walk[|walk| - 1 - i]);
    }
    assert IsOpenWalk(g, r);
  }

  /** Two open walks sharing an end join into one: connection is
      transitive. */
  lemma ConnectedTransitive(g: Grid, a: Point, b: Point, c: Point)
    requires Connected(g, a, b) && Connected(g, b, c)
    ensures Connected(g, a, c)
  {
    var w1 :| IsOpenWalk(g, w1) && w1[0] == a && w1[|w1| - 1] == b;
    var w2 :| IsOpenWalk(g, w2) && w2[0] == b && w2[|w2| - 1] == c;
    var w := w1 + w2[1..];
    forall i | 0 <= i < |w| - 1
      ensures Adjacent(w[i], w[i + 1])
    {
      if i < |w1| - 1 {
        assert w[i] == w1[i] && w[i + 1] == w1[i + 1];
      } else {
        assert w[i] == w2[i - |w1| + 1] && w[i + 1] == w2[i - |w1| + 2];
      }
    }
    forall i | 0 <= i < |w|
      ensures InGrid(g, w[i]) && At(g, w[i]) != Wall
    {
      if i >= |w1| {
        assert w[i] == w2[i - |w1| + 1];
      }
    }
    assert w[|w| - 1] == c;
  }

  /** Connection survives any change that keeps open cells open. */
  lemma ConnectedKept(g: Grid, g': Grid, a: Point, b: Point)
    requires KeepsOpen(g, g') && Connected(g, a, b)
    ensures Connected(g', a, b)
  {
    var walk :| IsOpenWalk(g, walk) && walk[0] == a && walk[|walk| - 1] == b;
    forall i | 0 <= i < |walk|
      ensures InGrid(g', walk[i]) && At(g', walk[i]) != Wall
    {
      assert InGrid(g, walk[i]);
    }
    assert IsOpenWalk(g', walk);
  }
}
