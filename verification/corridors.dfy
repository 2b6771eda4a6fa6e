/** Corridor carving (`createCorridor`) and the corridor stage of the
    pipeline (`generateCorridors`). */
module Corridors {
  import opened Options
  import opened Grids
  import opened SeededRandom
  import opened Rooms
  import opened SpanningTree

  datatype Orientation = HorizontalFirst | VerticalFirst

  datatype Corridor = Corridor(start: Point, end: Point, path: seq<Point>, width: int, orientation: Orientation)

  /** The cells one step of a horizontal leg visits: column x and cw rows
      starting half the width (rounded down) above row y0. */
  function ColumnBand(x: int, y0: int, cw: int): (cells: seq<Point>)
    ensures forall p :: p in cells <==> p.x == x && y0 - cw / 2 <= p.y < y0 - cw / 2 + cw
  {
    var n := if cw < 0 then 0 else cw;
    var cells := seq(n, w requires 0 <= w < n => Point(x, y0 + w - cw / 2));
    assert forall p: Point | p.x == x && y0 - cw / 2 <= p.y < y0 - cw / 2 + cw :: cells[p.y - y0 + cw / 2] == p;
    cells
  }

  /** The cells one step of a vertical leg visits: row y and cw columns
      starting half the width (rounded down) left of column x0. */
  function RowBand(y: int, x0: int, cw: int): (cells: seq<Point>)
    ensures forall p :: p in cells <==> p.y == y && x0 - cw / 2 <= p.x < x0 - cw / 2 + cw
  {
    var n := if cw < 0 then 0 else cw;
    var cells := seq(n, w requires 0 <= w < n => Point(x0 + w - cw / 2, y));
    assert forall p: Point | p.y == y && x0 - cw / 2 <= p.x < x0 - cw / 2 + cw :: cells[p.x - x0 + cw / 2] == p;
    cells
  }

  /** A horizontal leg: x runs from lo to hi at row y0. */
  function HorizontalLeg(lo: int, hi: int, y0: int, cw: int): (cells: seq<Point>)
    ensures forall p :: p in cells <==> lo <= p.x <= hi && y0 - cw / 2 <= p.y < y0 - cw / 2 + cw
    decreases hi - lo
  {
    if lo > hi then [] else ColumnBand(lo, y0, cw) + HorizontalLeg(lo + 1, hi, y0, cw)
  }

  /** A vertical leg: y runs from lo to hi at column x0. */
  function VerticalLeg(lo: int, hi: int, x0: int, cw: int): (cells: seq<Point>)
    ensures forall p :: p in cells <==> lo <= p.y <= hi && x0 - cw / 2 <= p.x < x0 - cw / 2 + cw
    decreases hi - lo
  {
    if lo > hi then [] else RowBand(lo, x0, cw) + VerticalLeg(lo + 1, hi, x0, cw)
  }

  /** A corridor runs horizontally first only when the ends are strictly
      farther apart in x than in y; ties go vertically first. */
  function OrientationOf(x1: int, y1: int, x2: int, y2: int): Orientation {
    if Abs(x2 - x1) > Abs(y2 - y1) then HorizontalFirst else VerticalFirst
  }

  /** The cells `createCorridor` visits, in order: the first leg at the
      start's perpendicular coordinate, the second at the end's. */
  function CorridorCells(x1: int, y1: int, x2: int, y2: int, cw: int): seq<Point> {
    match OrientationOf(x1, y1, x2, y2)
    case HorizontalFirst =>
      HorizontalLeg(Min(x1, x2), Max(x1, x2), y1, cw) + VerticalLeg(Min(y1, y2), Max(y1, y2), x2, cw)
    case VerticalFirst =>
      VerticalLeg(Min(y1, y2), Max(y1, y2), x1, cw) + HorizontalLeg(Min(x1, x2), Max(x1, x2), y2, cw)
  }

  /** The L-shaped region a corridor may carve: both legs, each `cw` cells
      thick. */
  predicate InLShape(x1: int, y1: int, x2: int, y2: int, cw: int, p: Point) {
    var bandLo := - (cw / 2);
    match OrientationOf(x1, y1, x2, y2)
    case HorizontalFirst =>
      || (Min(x1, x2) <= p.x <= Max(x1, x2) && y1 + bandLo <= p.y < y1 + bandLo + cw)
      || (Min(y1, y2) <= p.y <= Max(y1, y2) && x2 + bandLo <= p.x < x2 + bandLo + cw)
    case VerticalFirst =>
      || (Min(y1, y2) <= p.y <= Max(y1, y2) && x1 + bandLo <= p.x < x1 + bandLo + cw)
      || (Min(x1, x2) <= p.x <= Max(x1, x2) && y2 + bandLo <= p.y < y2 + bandLo + cw)
  }

  lemma CorridorCellsAreLShape(x1: int, y1: int, x2: int, y2: int, cw: int)
    ensures forall p :: p in CorridorCells(x1, y1, x2, y2, cw) <==> InLShape(x1, y1, x2, y2, cw, p)
  {
  }

  predicate NoRepeats(ps: seq<Point>) {
    forall i, j | 0 <= i < j < |ps| :: ps[i] != ps[j]
  }

  /** The outcome of carving: the new grid and the cells it converted, in
      order. */
  datatype Carving = Carving(grid: Grid, path: seq<Point>)

  /** Visit the cells in order; a cell inside the grid that is a wall
      becomes floor and is appended to the path. Every other cell is left
      alone, so the path is exactly the set of converted cells, each once. */
  function Carve(g: Grid, cells: seq<Point>): (r: Carving)
    ensures SameShape(g, r.grid)
    ensures forall p | InGrid(g, p) ::
      At(r.grid, p) == if p in cells && At(g, p) == Wall then Floor else At(g, p)
    ensures forall p :: p in r.path <==> InGrid(g, p) && p in cells && At(g, p) == Wall
    ensures NoRepeats(r.path)
  {
    if |cells| == 0 then Carving(g, [])
    else
      var pre := Carve(g, cells[..|cells| - 1]);
      var p := cells[|cells| - 1];
      assert forall q :: q in cells <==> q in cells[..|cells| - 1] || q == p by {
        assert cells == cells[..|cells| - 1] + [p];
      }
      if InGrid(pre.grid, p) && At(pre.grid, p) == Wall then
        Carving(Set(pre.grid, p, Floor), pre.path + [p])
      else
        pre
  }

  /** `createCorridor`: carve an L-shaped corridor of width cw from (x1, y1)
      to (x2, y2). Only walls change, each to floor; the corridor records
      its two ends, its width and which leg comes first. */
  function CreateCorridor(x1: int, y1: int, x2: int, y2: int, g: Grid, cw: int): (r: (Corridor, Grid))
    ensures OnlyWallsToFloor(g, r.1)
    ensures r.0.start == Point(x1, y1) && r.0.end == Point(x2, y2)
    ensures r.0.width == cw && r.0.orientation == OrientationOf(x1, y1, x2, y2)
  {
    var c := Carve(g, CorridorCells(x1, y1, x2, y2, cw));
    (Corridor(Point(x1, y1), Point(x2, y2), c.path, cw, OrientationOf(x1, y1, x2, y2)), c.grid)
  }

  /** The path of a corridor lists exactly the cells it changed, once each:
      the walls of the grid inside the L shape. */
  lemma CreateCorridorPath(x1: int, y1: int, x2: int, y2: int, g: Grid, cw: int)
    ensures var r := CreateCorridor(x1, y1, x2, y2, g, cw);
      && (forall p | InGrid(g, p) :: At(r.1, p) != At(g, p) <==> p in r.0.path)
      && NoRepeats(r.0.path)
      && (forall p | p in r.0.path :: InGrid(g, p) && At(g, p) == Wall && InLShape(x1, y1, x2, y2, cw, p))
      && (forall p | InGrid(g, p) && At(g, p) == Wall && InLShape(x1, y1, x2, y2, cw, p) :: p in r.0.path)
  {
    CorridorCellsAreLShape(x1, y1, x2, y2, cw);
  }

  /** A straight walk along row y from column x to column x2. */
  function WalkX(x: int, x2: int, y: int): (w: seq<Point>)
    ensures |w| >= 1 && w[0] == Point(x, y) && w[|w| - 1] == Point(x2, y)
    ensures Steps(w)
    ensures forall i | 0 <= i < |w| :: w[i].y == y && Min(x, x2) <= w[i].x <= Max(x, x2)
    decreases Abs(x2 - x)
  {
    if x == x2 then [Point(x, y)]
    else if x < x2 then [Point(x, y)] + WalkX(x + 1, x2, y)
    else [Point(x, y)] + WalkX(x - 1, x2, y)
  }

  /** A straight walk along column x from row y to row y2. */
  function WalkY(y: int, y2: int, x: int): (w: seq<Point>)
    ensures |w| >= 1 && w[0] == Point(x, y) && w[|w| - 1] == Point(x, y2)
    ensures Steps(w)
    ensures forall i | 0 <= i < |w| :: w[i].x == x && Min(y, y2) <= w[i].y <= Max(y, y2)
    decreases Abs(y2 - y)
  {
    if y == y2 then [Point(x, y)]
    else if y < y2 then [Point(x, y)] + WalkY(y + 1, y2, x)
    else [Point(x, y)] + WalkY(y - 1, y2, x)
  }

  predicate Steps(w: seq<Point>) {
    forall i | 0 <= i < |w| - 1 :: Adjacent(w[i], w[i + 1])
  }

  /** Joining two walks that meet at a point gives a walk. */
  lemma StepsJoin(w1: seq<Point>, w2: seq<Point>)
    requires |w1| >= 1 && |w2| >= 1 && w1[|w1| - 1] == w2[0]
    requires Steps(w1) && Steps(w2)
    ensures Steps(w1 + w2[1..])
  {
    var w := w1 + w2[1..];
    forall i | 0 <= i < |w| - 1 ensures Adjacent(w[i], w[i + 1]) {
      if i < |w1| - 1 {
        assert w[i] == w1[i] && w[i + 1] == w1[i + 1];
      } else {
        assert w[i] == w2[i - |w1| + 1] && w[i + 1] == w2[i - |w1| + 2];
      }
    }
  }

  /** The centre line of the corridor from a to b: a walk of orthogonal
      steps along the first leg, then along the second. */
  function CentreLine(a: Point, b: Point): (w: seq<Point>)
    ensures |w| >= 1 && w[0] == a && w[|w| - 1] == b
    ensures Steps(w)
  {
    var legs :=
      match OrientationOf(a.x, a.y, b.x, b.y)
      case HorizontalFirst => (WalkX(a.x, b.x, a.y), WalkY(a.y, b.y, b.x))
      case VerticalFirst => (WalkY(a.y, b.y, a.x), WalkX(a.x, b.x, b.y));
    var first, second := legs.0, legs.1;
    StepsJoin(first, second);
    first + second[1..]
  }

  /** A band at least one cell thick holds its own centre row or column. */
  lemma CentreInBand(cw: int)
    requires cw >= 1
    ensures - (cw / 2) <= 0 < - (cw / 2) + cw
  {
  }

  /** Every cell of a walk along a row stays on that row, between the ends. */
  lemma OnWalkX(x: int, x2: int, y: int, p: Point)
    requires p in WalkX(x, x2, y)
    ensures p.y == y && Min(x, x2) <= p.x <= Max(x, x2)
  {
    var w := WalkX(x, x2, y);
    var i :| 0 <= i < |w| && w[i] == p;
  }

  /** Every cell of a walk along a column stays on that column, between the
      ends. */
  lemma OnWalkY(y: int, y2: int, x: int, p: Point)
    requires p in WalkY(y, y2, x)
    ensures p.x == x && Min(y, y2) <= p.y <= Max(y, y2)
  {
    var w := WalkY(y, y2, x);
    var i :| 0 <= i < |w| && w[i] == p;
  }

  /** The centre line runs along the two legs of the corridor. */
  lemma CentreLineOnLegs(a: Point, b: Point, p: Point)
    requires p in CentreLine(a, b)
    ensures OrientationOf(a.x, a.y, b.x, b.y) == HorizontalFirst ==>
      (p.y == a.y && Min(a.x, b.x) <= p.x <= Max(a.x, b.x)) || (p.x == b.x && Min(a.y, b.y) <= p.y <= Max(a.y, b.y))
    ensures OrientationOf(a.x, a.y, b.x, b.y) == VerticalFirst ==>
      (p.x == a.x && Min(a.y, b.y) <= p.y <= Max(a.y, b.y)) || (p.y == b.y && Min(a.x, b.x) <= p.x <= Max(a.x, b.x))
  {
    if OrientationOf(a.x, a.y, b.x, b.y) == HorizontalFirst {
      var first, second := WalkX(a.x, b.x, a.y), WalkY(a.y, b.y, b.x);
      assert CentreLine(a, b) == first + second[1..];
      if p in first {
        OnWalkX(a.x, b.x, a.y, p);
      } else {
        assert p in second;
        OnWalkY(a.y, b.y, b.x, p);
      }
    } else {
      var first, second := WalkY(a.y, b.y, a.x), WalkX(a.x, b.x, b.y);
      assert CentreLine(a, b) == first + second[1..];
      if p in first {
        OnWalkY(a.y, b.y, a.x, p);
      } else {
        assert p in second;
        OnWalkX(a.x, b.x, b.y, p);
      }
    }
  }

  /** The centre line stays on the two legs, so inside the L shape of any
      corridor at least one cell wide and inside the box spanned by a and b. */
  lemma CentreLineInLShape(a: Point, b: Point, cw: int, p: Point)
    requires cw >= 1 && p in CentreLine(a, b)
    ensures InLShape(a.x, a.y, b.x, b.y, cw, p)
    ensures Min(a.x, b.x) <= p.x <= Max(a.x, b.x) && Min(a.y, b.y) <= p.y <= Max(a.y, b.y)
  {
    CentreInBand(cw);
    CentreLineOnLegs(a, b, p);
  }

  /** Every cell of the grid inside the L shape is open after carving. */
  lemma CorridorOpensCell(a: Point, b: Point, g: Grid, cw: int, q: Point)
    requires InGrid(g, q) && InLShape(a.x, a.y, b.x, b.y, cw, q)
    ensures var g' := CreateCorridor(a.x, a.y, b.x, b.y, g, cw).1;
      InGrid(g', q) && At(g', q) != Wall
  {
    var c := CreateCorridor(a.x, a.y, b.x, b.y, g, cw);
    CreateCorridorPath(a.x, a.y, b.x, b.y, g, cw);
    if At(g, q) == Wall {
      assert q in c.0.path;
    }
  }

  /** A corridor at least one cell wide leaves its centre line open, as long
      as both ends lie in the grid. */
  lemma CorridorOpensCentreLine(a: Point, b: Point, g: Grid, width: int, height: int, cw: int)
    requires IsGrid(g, width, height) && InBounds(a, width, height) && InBounds(b, width, height)
    requires cw >= 1
    ensures IsOpenWalk(CreateCorridor(a.x, a.y, b.x, b.y, g, cw).1, CentreLine(a, b))
  {
    var g' := CreateCorridor(a.x, a.y, b.x, b.y, g, cw).1;
    var w := CentreLine(a, b);
    forall i | 0 <= i < |w|
      ensures InGrid(g', w[i]) && At(g', w[i]) != Wall
    {
      CentreLineInLShape(a, b, cw, w[i]);
      assert InBounds(w[i], width, height);
      CorridorOpensCell(a, b, g, cw, w[i]);
    }
  }

  lemma OpenWalkKept(g: Grid, g': Grid, walk: seq<Point>)
    requires KeepsOpen(g, g') && IsOpenWalk(g, walk)
    ensures IsOpenWalk(g', walk)
  {
    forall i | 0 <= i < |walk| ensures InGrid(g', walk[i]) && At(g', walk[i]) != Wall {
      assert InGrid(g, walk[i]);
    }
  }

  lemma OnlyWallsToFloorKeepsOpen(g: Grid, g': Grid)
    requires OnlyWallsToFloor(g, g')
    ensures KeepsOpen(g, g')
  {
  }

  /** Where a corridor attaches to a room: each recorded centre coordinate,
      unless it is unset or 0 (which JavaScript treats as false), in which
      case the floored centre is computed afresh. Since a recorded centre is
      the computed centre, this is always the computed centre. */
  function CorridorEnd(r: Room): (p: Point)
    ensures r.center.Some? && r.center.value == CentreOf(r) ==> p == CentreOf(r)
    ensures r.center.None? ==> p == CentreOf(r)
  {
    var c := CentreOf(r);
    match r.center
    case Some(q) => Point(if q.x != 0 then q.x else c.x, if q.y != 0 then q.y else c.y)
    case None => c
  }

  /** Every recorded centre is the room's computed centre. */
  predicate CentresRecorded(rooms: seq<Room>) {
    forall i | 0 <= i < |rooms| :: rooms[i].center.Some? ==> rooms[i].center.value == CentreOf(rooms[i])
  }

  /** The corridor between two rooms, from the first room's centre. */
  function Join(rooms: seq<Room>, a: nat, b: nat, g: Grid, cw: int): (r: (Corridor, Grid))
    requires a < |rooms| && b < |rooms|
  {
    var p, q := CorridorEnd(rooms[a]), CorridorEnd(rooms[b]);
    CreateCorridor(p.x, p.y, q.x, q.y, g, cw)
  }

  /** Paths of distinct corridors share no cell. */
  predicate PathsDisjoint(cs: seq<Corridor>) {
    forall k1, k2 | 0 <= k1 < k2 < |cs| :: forall p | p in cs[k1].path :: p !in cs[k2].path
  }

  /** The tree corridors between the centres of the connected rooms, in open
      grid cells of g. */
  ghost predicate TreeLinesOpen(rooms: seq<Room>, conns: seq<Connection>, g: Grid)
    requires ConnectsRooms(rooms, conns)
  {
    forall k | 0 <= k < |conns| ::
      IsOpenWalk(g, CentreLine(CentreOf(rooms[conns[k].from]), CentreOf(rooms[conns[k].to])))
  }

  /** The centres of all rooms lie inside a width x height grid. */
  predicate CentresInBounds(rooms: seq<Room>, width: int, height: int) {
    forall i | 0 <= i < |rooms| :: InBounds(CentreOf(rooms[i]), width, height)
  }

  /** Carving the spanning tree: one corridor per connection, in order. */
  function CarveTree(rooms: seq<Room>, conns: seq<Connection>, g: Grid, cw: int): (r: (seq<Corridor>, Grid))
    requires ConnectsRooms(rooms, conns) && CentresRecorded(rooms)
    ensures |r.0| == |conns|
    ensures forall k | 0 <= k < |conns| ::
      r.0[k].start == CentreOf(rooms[conns[k].from]) && r.0[k].end == CentreOf(rooms[conns[k].to])
    ensures OnlyWallsToFloor(g, r.1)
  {
    if |conns| == 0 then ([], g)
    else
      var n := |conns|;
      var pre := CarveTree(rooms, conns[..n - 1], g, cw);
      var c := conns[n - 1];
      var j := Join(rooms, c.from, c.to, pre.1, cw);
      OnlyWallsToFloorTransitive(g, pre.1, j.1);
      var cs := pre.0 + [j.0];
      forall k | 0 <= k < n
        ensures cs[k].start == CentreOf(rooms[conns[k].from]) && cs[k].end == CentreOf(rooms[conns[k].to])
      {
        if k < n - 1 {
          assert cs[k] == pre.0[k] && conns[k] == conns[..n - 1][k];
        }
      }
      (cs, j.1)
  }

  /** Every path cell of cs was a wall in g and is floor in g'. */
  ghost predicate PathsWereWalls(g: Grid, cs: seq<Corridor>, g': Grid) {
    forall k, p | 0 <= k < |cs| && p in cs[k].path :: InGrid(g, p) && At(g, p) == Wall && InGrid(g', p) && At(g', p) == Floor
  }

  /** Appending a corridor whose path converted walls of g1 keeps the
      path facts of the earlier corridors. */
  lemma PathsWereWallsStep(g: Grid, g1: Grid, g2: Grid, cs: seq<Corridor>, c: Corridor)
    requires PathsWereWalls(g, cs, g1)
    requires OnlyWallsToFloor(g, g1) && OnlyWallsToFloor(g1, g2)
    requires forall p | p in c.path :: InGrid(g1, p) && At(g1, p) == Wall && At(g2, p) == Floor
    ensures PathsWereWalls(g, cs + [c], g2)
  {
    var cs' := cs + [c];
    forall k, p | 0 <= k < |cs'| && p in cs'[k].path
      ensures InGrid(g, p) && At(g, p) == Wall && InGrid(g2, p) && At(g2, p) == Floor
    {
      if k < |cs| {
        assert cs'[k] == cs[k];
        assert InGrid(g1, p) && At(g1, p) == Floor;
      } else {
        assert InGrid(g, p);
      }
    }
  }

  /** Appending a corridor whose path converted walls of g1 keeps the paths
      disjoint, since the earlier paths are floor in g1. */
  lemma PathsDisjointStep(g: Grid, g1: Grid, cs: seq<Corridor>, c: Corridor)
    requires PathsWereWalls(g, cs, g1) && PathsDisjoint(cs)
    requires forall p | p in c.path :: InGrid(g1, p) && At(g1, p) == Wall
    ensures PathsDisjoint(cs + [c])
  {
    var cs' := cs + [c];
    forall k1, k2 | 0 <= k1 < k2 < |cs'|
      ensures forall p | p in cs'[k1].path :: p !in cs'[k2].path
    {
      assert cs'[k1] == cs[k1];
      if k2 < |cs| {
        assert cs'[k2] == cs[k2];
      }
    }
  }

  /** Each tree corridor's path holds cells that were walls before the tree
      was carved and are floor after it, and no cell is in two paths. */
  lemma {:induction false} CarveTreePaths(rooms: seq<Room>, conns: seq<Connection>, g: Grid, cw: int)
    requires ConnectsRooms(rooms, conns) && CentresRecorded(rooms)
    ensures PathsWereWalls(g, CarveTree(rooms, conns, g, cw).0, CarveTree(rooms, conns, g, cw).1)
    ensures PathsDisjoint(CarveTree(rooms, conns, g, cw).0)
  {
    if |conns| > 0 {
      var n := |conns|;
      var pre := CarveTree(rooms, conns[..n - 1], g, cw);
      var c := conns[n - 1];
      var j := Join(rooms, c.from, c.to, pre.1, cw);
      assert (pre.0 + [j.0], j.1) == CarveTree(rooms, conns, g, cw);
      var e1, e2 := CorridorEnd(rooms[c.from]), CorridorEnd(rooms[c.to]);
      CreateCorridorPath(e1.x, e1.y, e2.x, e2.y, pre.1, cw);
      CarveTreePaths(rooms, conns[..n - 1], g, cw);
      PathsWereWallsStep(g, pre.1, j.1, pre.0, j.0);
      PathsDisjointStep(g, pre.1, pre.0, j.0);
    }
  }

  /** Keeping the earlier lines open and opening the last one opens the
      lines of the whole tree. */
  lemma TreeLinesOpenStep(rooms: seq<Room>, conns: seq<Connection>, g1: Grid, g2: Grid)
    requires ConnectsRooms(rooms, conns) && |conns| > 0
    requires TreeLinesOpen(rooms, conns[..|conns| - 1], g1) && KeepsOpen(g1, g2)
    requires IsOpenWalk(g2, CentreLine(CentreOf(rooms[conns[|conns| - 1].from]), CentreOf(rooms[conns[|conns| - 1].to])))
    ensures TreeLinesOpen(rooms, conns, g2)
  {
    var n := |conns|;
    forall k | 0 <= k < n
      ensures IsOpenWalk(g2, CentreLine(CentreOf(rooms[conns[k].from]), CentreOf(rooms[conns[k].to])))
    {
      if k < n - 1 {
        assert conns[k] == conns[..n - 1][k];
        var line := CentreLine(CentreOf(rooms[conns[k].from]), CentreOf(rooms[conns[k].to]));
        assert IsOpenWalk(g1, line);
        OpenWalkKept(g1, g2, line);
      }
    }
  }

  /** Carving the tree leaves the centre line of every tree corridor open. */
  lemma {:induction false} CarveTreeOpensLines(rooms: seq<Room>, conns: seq<Connection>, g: Grid, width: int, height: int, cw: int)
    requires ConnectsRooms(rooms, conns) && CentresRecorded(rooms)
    requires cw >= 1 && IsGrid(g, width, height) && CentresInBounds(rooms, width, height)
    ensures TreeLinesOpen(rooms, conns, CarveTree(rooms, conns, g, cw).1)
  {
    if |conns| > 0 {
      var n := |conns|;
      var pre := CarveTree(rooms, conns[..n - 1], g, cw);
      var c := conns[n - 1];
      var a, b := CentreOf(rooms[c.from]), CentreOf(rooms[c.to]);
      var g2 := Join(rooms, c.from, c.to, pre.1, cw).1;
      assert g2 == CarveTree(rooms, conns, g, cw).1;
      assert g2 == CreateCorridor(a.x, a.y, b.x, b.y, pre.1, cw).1;
      CarveTreeOpensLines(rooms, conns[..n - 1], g, width, height, cw);
      OnlyWallsToFloorKeepsOpen(pre.1, g2);
      assert IsGrid(pre.1, width, height);
      CorridorOpensCentreLine(a, b, pre.1, width, height, cw);
      TreeLinesOpenStep(rooms, conns, pre.1, g2);
    }
  }

  /** Whether the tree already joins rooms a and b directly. */
  predicate AlreadyConnected(conns: seq<Connection>, a: nat, b: nat) {
    exists k | 0 <= k < |conns| :: (conns[k].from == a && conns[k].to == b) || (conns[k].from == b && conns[k].to == a)
  }

  /** One extra loop round: draw two rooms and carve between them when they
      differ and the tree does not join them directly. The corridor carved
      here is not recorded. */
  function ExtraRound(rooms: seq<Room>, conns: seq<Connection>, g: Grid, cw: int, s: nat): (r: Drawn<Grid>)
    requires |rooms| > 0
    ensures OnlyWallsToFloor(g, r.value)
    ensures r.rng == Advance(s, 2)
  {
    var first := Choice(s, rooms);
    var second := Choice(first.rng, rooms);
    var a, b := first.value.value, second.value.value;
    assert second.rng == Advance(s, 2) by {
      assert Advance(s, 1) == Next(Advance(s, 0));
    }
    if a != b && !AlreadyConnected(conns, a.id, b.id) then
      var p, q := CorridorEnd(a), CorridorEnd(b);
      Drawn(CreateCorridor(p.x, p.y, q.x, q.y, g, cw).1, second.rng)
    else Drawn(g, second.rng)
  }

  /** The extra loop corridors: n rounds. */
  function ExtraLoops(rooms: seq<Room>, conns: seq<Connection>, g: Grid, cw: int, s: nat, n: nat): Drawn<Grid>
    requires |rooms| > 0
    decreases n
  {
    if n == 0 then Drawn(g, s)
    else
      var round := ExtraRound(rooms, conns, g, cw, s);
      ExtraLoops(rooms, conns, round.value, cw, round.rng, n - 1)
  }

  /** The n extra rounds turn only walls into floor. */
  lemma {:induction false} ExtraLoopsCarve(rooms: seq<Room>, conns: seq<Connection>, g: Grid, cw: int, s: nat, n: nat)
    requires |rooms| > 0
    ensures OnlyWallsToFloor(g, ExtraLoops(rooms, conns, g, cw, s, n).value)
    decreases n
  {
    if n > 0 {
      var round := ExtraRound(rooms, conns, g, cw, s);
      var r := ExtraLoops(rooms, conns, round.value, cw, round.rng, n - 1);
      ExtraLoopsCarve(rooms, conns, round.value, cw, round.rng, n - 1);
      OnlyWallsToFloorTransitive(g, round.value, r.value);
    }
  }

  /** The n extra rounds consume two draws each. */
  lemma {:induction false} ExtraLoopsDraws(rooms: seq<Room>, conns: seq<Connection>, g: Grid, cw: int, s: nat, n: nat)
    requires |rooms| > 0
    ensures ExtraLoops(rooms, conns, g, cw, s, n).rng == Advance(s, 2 * n)
    decreases n
  {
    if n > 0 {
      var round := ExtraRound(rooms, conns, g, cw, s);
      ExtraLoopsDraws(rooms, conns, round.value, cw, round.rng, n - 1);
      AdvanceAdd(s, 2, 2 * (n - 1));
    }
  }

  /** What `generateCorridors` returns (the corridors), with the grid it
      carved and the generator state after it. */
  datatype CorridorStage = CorridorStage(corridors: seq<Corridor>, grid: Grid, rng: nat)

  /** `generateCorridors`: nothing with fewer than two rooms; otherwise one
      corridor per connection of the tree, in order, followed by
      the smaller of 2 and a third of the rooms (rounded down) extra loop
      attempts that carve but are not
      returned. Walls are the only cells that change, each to floor. */
  function GenerateCorridors(s: nat, rooms: seq<Room>, g: Grid, cw: int): (r: CorridorStage)
    requires IdsAreIndices(rooms) && CentresRecorded(rooms)
    ensures |rooms| < 2 ==> r.corridors == [] && r.grid == g && r.rng == s
    ensures |rooms| >= 2 ==> |r.corridors| == |rooms| - 1
    ensures OnlyWallsToFloor(g, r.grid)
  {
    if |rooms| < 2 then CorridorStage([], g, s)
    else
      var tree := MinimumSpanningTree(rooms, s);
      var carved := CarveTree(rooms, tree.value, g, cw);
      var extra := ExtraLoops(rooms, tree.value, carved.1, cw, tree.rng, Min(2, |rooms| / 3));
      assert OnlyWallsToFloor(g, extra.value) by {
        ExtraLoopsCarve(rooms, tree.value, carved.1, cw, tree.rng, Min(2, |rooms| / 3));
        OnlyWallsToFloorTransitive(g, carved.1, extra.value);
      }
      CorridorStage(carved.0, extra.value, extra.rng)
  }

  /** Later carving keeps floor as floor, so the path facts survive it. */
  lemma PathsStayFloor(g: Grid, cs: seq<Corridor>, g1: Grid, g2: Grid)
    requires PathsWereWalls(g, cs, g1) && OnlyWallsToFloor(g1, g2)
    ensures PathsWereWalls(g, cs, g2)
  {
    forall k, p | 0 <= k < |cs| && p in cs[k].path
      ensures InGrid(g2, p) && At(g2, p) == Floor
    {
      assert InGrid(g1, p) && At(g1, p) == Floor;
    }
  }

  /** The corridors `generateCorridors` returns: the k-th runs from the
      centre of the k-th connection's first room to the centre of its
      second; each path holds cells that were walls before the stage and
      are floor after it; and no cell appears in two paths. */
  lemma CorridorPaths(s: nat, rooms: seq<Room>, g: Grid, cw: int)
    requires IdsAreIndices(rooms) && CentresRecorded(rooms) && |rooms| >= 2
    ensures var r, conns := GenerateCorridors(s, rooms, g, cw), MinimumSpanningTree(rooms, s).value;
      && |r.corridors| == |conns|
      && (forall k | 0 <= k < |r.corridors| ::
            r.corridors[k].start == CentreOf(rooms[conns[k].from]) && r.corridors[k].end == CentreOf(rooms[conns[k].to]))
      && PathsWereWalls(g, r.corridors, r.grid)
      && PathsDisjoint(r.corridors)
  {
    var tree := MinimumSpanningTree(rooms, s);
    var carved := CarveTree(rooms, tree.value, g, cw);
    var extra := ExtraLoops(rooms, tree.value, carved.1, cw, tree.rng, Min(2, |rooms| / 3));
    var r := GenerateCorridors(s, rooms, g, cw);
    assert r.corridors == carved.0 && r.grid == extra.value;
    CarveTreePaths(rooms, tree.value, g, cw);
    ExtraLoopsCarve(rooms, tree.value, carved.1, cw, tree.rng, Min(2, |rooms| / 3));
    PathsStayFloor(g, carved.0, carved.1, extra.value);
  }

  /** After the corridor stage, the centre line between every pair of rooms
      joined by the tree is open, when corridors are at least one cell wide
      and the room centres lie in the grid. */
  lemma TreeCorridorsStayOpen(s: nat, rooms: seq<Room>, g: Grid, width: int, height: int, cw: int)
    requires IdsAreIndices(rooms) && CentresRecorded(rooms) && |rooms| >= 2
    requires cw >= 1 && IsGrid(g, width, height) && CentresInBounds(rooms, width, height)
    ensures TreeLinesOpen(rooms, MinimumSpanningTree(rooms, s).value, GenerateCorridors(s, rooms, g, cw).grid)
  {
    var tree := MinimumSpanningTree(rooms, s);
    var carved := CarveTree(rooms, tree.value, g, cw);
    var extra := ExtraLoops(rooms, tree.value, carved.1, cw, tree.rng, Min(2, |rooms| / 3));
    assert GenerateCorridors(s, rooms, g, cw).grid == extra.value;
    CarveTreeOpensLines(rooms, tree.value, g, width, height, cw);
    ExtraLoopsCarve(rooms, tree.value, carved.1, cw, tree.rng, Min(2, |rooms| / 3));
    OnlyWallsToFloorKeepsOpen(carved.1, extra.value);
    TreeLinesKept(rooms, tree.value, carved.1, extra.value);
  }

  /** Open centre lines stay open when no open cell closes. */
  lemma TreeLinesKept(rooms: seq<Room>, conns: seq<Connection>, g1: Grid, g2: Grid)
    requires ConnectsRooms(rooms, conns) && TreeLinesOpen(rooms, conns, g1) && KeepsOpen(g1, g2)
    ensures TreeLinesOpen(rooms, conns, g2)
  {
    forall k | 0 <= k < |conns|
      ensures IsOpenWalk(g2, CentreLine(CentreOf(rooms[conns[k].from]), CentreOf(rooms[conns[k].to])))
    {
      OpenWalkKept(g1, g2, CentreLine(CentreOf(rooms[conns[k].from]), CentreOf(rooms[conns[k].to])));
    }
  }
}
