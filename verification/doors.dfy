/** Door placement (`placeDoors` and `isRoomCorridorBoundary`): the interior
    of the grid is scanned row by row; a floor cell inside a room that has a
    corridor floor cell (floor outside every room) as an orthogonal neighbour
    draws one number and becomes a door with probability 0.7. */
module Doors {
  import opened Grids
  import opened Rooms
  import opened SeededRandom
  import opened Stamping

  /** A drawn float is below 0.7 exactly when the drawn state is below
      0.7 * 233280 = 163296. */
  const DoorThreshold: nat := 163296

  /** Floor that lies outside every room: a corridor cell. */
  predicate CorridorFloor(g: Grid, rooms: seq<Room>, q: Point) {
    InGrid(g, q) && At(g, q) == Floor && !InSomeRoom(rooms, q)
  }

  /** `isRoomCorridorBoundary`: p is inside a room and one of its four
      orthogonal neighbours (left, right, up, down) is corridor floor. */
  predicate IsBoundary(g: Grid, rooms: seq<Room>, p: Point) {
    && InSomeRoom(rooms, p)
    && (|| CorridorFloor(g, rooms, Point(p.x - 1, p.y))
        || CorridorFloor(g, rooms, Point(p.x + 1, p.y))
        || CorridorFloor(g, rooms, Point(p.x, p.y - 1))
        || CorridorFloor(g, rooms, Point(p.x, p.y + 1)))
  }

  /** A cell for which `placeDoors` draws a number: floor on a boundary. */
  predicate IsCandidate(g: Grid, rooms: seq<Room>, p: Point) {
    InGrid(g, p) && At(g, p) == Floor && IsBoundary(g, rooms, p)
  }

  /** The cells the scan visits: every cell but the outermost ring. */
  predicate Interior(p: Point, width: int, height: int) {
    1 <= p.x < width - 1 && 1 <= p.y < height - 1
  }

  /** p comes at or after (x, y) in row-major order. */
  predicate AtOrAfter(p: Point, y: int, x: int) {
    p.y > y || (p.y == y && p.x >= x)
  }

  /** The candidates of grid g, in scan order, from cell (x, y) to the end
      of the scan. */
  function CandidatesFrom(g: Grid, rooms: seq<Room>, width: int, height: int, y: int, x: int): seq<Point>
    decreases height - y, width - x
  {
    if y >= height - 1 then []
    else if x >= width - 1 then CandidatesFrom(g, rooms, width, height, y + 1, 1)
    else
      var rest := CandidatesFrom(g, rooms, width, height, y, x + 1);
      if IsCandidate(g, rooms, Point(x, y)) then [Point(x, y)] + rest else rest
  }

  /** The candidates from (x, y) on are exactly the interior candidates at
      or after that cell. */
  lemma {:induction false} CandidatesFromMembers(g: Grid, rooms: seq<Room>, width: int, height: int, y: int, x: int)
    requires y >= 1 && x >= 1
    ensures forall p :: p in CandidatesFrom(g, rooms, width, height, y, x) <==>
      IsCandidate(g, rooms, p) && Interior(p, width, height) && AtOrAfter(p, y, x)
    decreases height - y, width - x
  {
    if y >= height - 1 {
    } else if x >= width - 1 {
      CandidatesFromMembers(g, rooms, width, height, y + 1, 1);
    } else {
      CandidatesFromMembers(g, rooms, width, height, y, x + 1);
    }
  }

  /** The scan of `placeDoors` from cell (x, y) on, reading and writing the
      current grid as the source does. */
  function PlaceDoorsFrom(g: Grid, rooms: seq<Room>, width: int, height: int, y: int, x: int, s: nat): (r: Drawn<Grid>)
    ensures SameShape(g, r.value)
    decreases height - y, width - x
  {
    if y >= height - 1 then Drawn(g, s)
    else if x >= width - 1 then PlaceDoorsFrom(g, rooms, width, height, y + 1, 1, s)
    else
      var p := Point(x, y);
      if IsCandidate(g, rooms, p) then
        var s' := Next(s);
        var g' := if s' < DoorThreshold then Set(g, p, Door) else g;
        PlaceDoorsFrom(g', rooms, width, height, y, x + 1, s')
      else PlaceDoorsFrom(g, rooms, width, height, y, x + 1, s)
  }

  /** Turning a room cell into a door changes no other cell's candidacy:
      the neighbour test only looks at cells outside every room. */
  lemma DoorKeepsCandidates(g: Grid, rooms: seq<Room>, p: Point, q: Point)
    requires InGrid(g, p) && InSomeRoom(rooms, p) && q != p
    ensures IsCandidate(Set(g, p, Door), rooms, q) == IsCandidate(g, rooms, q)
  {
    var g' := Set(g, p, Door);
    var ns := [Point(q.x - 1, q.y), Point(q.x + 1, q.y), Point(q.x, q.y - 1), Point(q.x, q.y + 1)];
    forall n | n in ns
      ensures CorridorFloor(g', rooms, n) == CorridorFloor(g, rooms, n)
    {
      if n == p {
        assert !CorridorFloor(g', rooms, n) && !CorridorFloor(g, rooms, n);
      }
    }
    assert ns[0] in ns && ns[1] in ns && ns[2] in ns && ns[3] in ns;
  }

  /** A door at p leaves the candidates after p unchanged. */
  lemma {:induction false} DoorKeepsLaterCandidates(g: Grid, rooms: seq<Room>, p: Point, width: int, height: int, y: int, x: int)
    requires InGrid(g, p) && InSomeRoom(rooms, p) && !AtOrAfter(p, y, x)
    ensures CandidatesFrom(Set(g, p, Door), rooms, width, height, y, x) == CandidatesFrom(g, rooms, width, height, y, x)
    decreases height - y, width - x
  {
    if y >= height - 1 {
    } else if x >= width - 1 {
      DoorKeepsLaterCandidates(g, rooms, p, width, height, y + 1, 1);
    } else {
      DoorKeepsLaterCandidates(g, rooms, p, width, height, y, x + 1);
      DoorKeepsCandidates(g, rooms, p, Point(x, y));
    }
  }

  /** The k-th candidate becomes a door exactly when the k-th draw of the
      scan (state Advance(s, k + 1)) falls below the threshold. */
  function Decision(s: nat, k: nat): Cell {
    if Advance(s, k + 1) < DoorThreshold then Door else Floor
  }

  /** The decisions of one drawing step: if p became what the first draw
      decides and the later candidates what the later draws decide, the
      k-th candidate of [p] + rest became what the k-th draw decides. */
  lemma ScanDecisions(g: Grid, rv: Grid, p: Point, rest: seq<Point>, s: nat)
    requires SameShape(g, rv) && InGrid(g, p) && At(rv, p) == Decision(s, 0)
    requires forall k | 0 <= k < |rest| :: InGrid(g, rest[k]) && At(rv, rest[k]) == Decision(Next(s), k)
    ensures forall k | 0 <= k < |rest| + 1 :: InGrid(g, ([p] + rest)[k]) && At(rv, ([p] + rest)[k]) == Decision(s, k)
  {
    var cs := [p] + rest;
    forall k | 0 <= k < |cs|
      ensures InGrid(g, cs[k]) && At(rv, cs[k]) == Decision(s, k)
    {
      if k > 0 {
        assert cs[k] == rest[k - 1];
        assert Next(s) == Advance(s, 1);
        AdvanceAdd(s, 1, k);
      }
    }
  }

  /** The frame of one drawing step: a cell that is neither p nor a later
      candidate keeps its value. */
  lemma ScanFrame(g: Grid, g': Grid, rv: Grid, p: Point, rest: seq<Point>)
    requires SameShape(g, g') && SameShape(g', rv)
    requires forall q | InGrid(g, q) && q != p :: At(g', q) == At(g, q)
    requires forall q | InGrid(g', q) && q !in rest :: At(rv, q) == At(g', q)
    ensures forall q | InGrid(g, q) && q !in [p] + rest :: At(rv, q) == At(g, q)
  {
    forall q | InGrid(g, q) && q !in [p] + rest
      ensures At(rv, q) == At(g, q)
    {
      assert InGrid(g', q) && q != p;
    }
  }

  /** The scan over candidates cs, from grid g and state s, ended in r:
      one draw per candidate, the k-th candidate became a door or stayed
      floor as the k-th draw decides, and every other cell kept its value. */
  ghost predicate ScanBehaves(g: Grid, cs: seq<Point>, r: Drawn<Grid>, s: nat) {
    && SameShape(g, r.value)
    && r.rng == Advance(s, |cs|)
    && (forall k | 0 <= k < |cs| :: InGrid(g, cs[k]) && At(r.value, cs[k]) == Decision(s, k))
    && (forall q | InGrid(g, q) && q !in cs :: At(r.value, q) == At(g, q))
  }

  /** One drawing step of the scan: p became what the first draw decides,
      giving g', and the rest of the scan from g' and Next(s) behaves. */
  lemma ScanStep(g: Grid, g': Grid, p: Point, rest: seq<Point>, r: Drawn<Grid>, s: nat)
    requires InGrid(g, p) && p !in rest && SameShape(g, g')
    requires At(g', p) == Decision(s, 0)
    requires forall q | InGrid(g, q) && q != p :: At(g', q) == At(g, q)
    requires ScanBehaves(g', rest, r, Next(s))
    ensures ScanBehaves(g, [p] + rest, r, s)
  {
    assert forall k | 0 <= k < |rest| :: InGrid(g, rest[k]);
    ScanDecisions(g, r.value, p, rest, s);
    ScanFrame(g, g', r.value, p, rest);
    assert Next(s) == Advance(s, 1);
    AdvanceAdd(s, 1, |rest|);
  }

  /** What the scan from (x, y) does, stated against the grid it starts
      from. */
  lemma {:induction false} PlaceDoorsFromSpec(g: Grid, rooms: seq<Room>, width: int, height: int, y: int, x: int, s: nat)
    requires y >= 1 && x >= 1
    ensures ScanBehaves(g, CandidatesFrom(g, rooms, width, height, y, x), PlaceDoorsFrom(g, rooms, width, height, y, x, s), s)
    decreases height - y, width - x
  {
    if y >= height - 1 {
    } else if x >= width - 1 {
      PlaceDoorsFromSpec(g, rooms, width, height, y + 1, 1, s);
    } else {
      var p := Point(x, y);
      if IsCandidate(g, rooms, p) {
        var s' := Next(s);
        var g' := if s' < DoorThreshold then Set(g, p, Door) else g;
        var rest := CandidatesFrom(g, rooms, width, height, y, x + 1);
        if s' < DoorThreshold {
          DoorKeepsLaterCandidates(g, rooms, p, width, height, y, x + 1);
        }
        assert CandidatesFrom(g', rooms, width, height, y, x + 1) == rest;
        PlaceDoorsFromSpec(g', rooms, width, height, y, x + 1, s');
        CandidatesFromMembers(g, rooms, width, height, y, x + 1);
        assert At(g', p) == Decision(s, 0) by {
          assert s' == Advance(s, 1);
        }
        ScanStep(g, g', p, rest, PlaceDoorsFrom(g', rooms, width, height, y, x + 1, s'), s);
      } else {
        PlaceDoorsFromSpec(g, rooms, width, height, y, x + 1, s);
      }
    }
  }

  /** The candidates of grid g in scan order. */
  function Candidates(g: Grid, rooms: seq<Room>, width: int, height: int): seq<Point> {
    CandidatesFrom(g, rooms, width, height, 1, 1)
  }

  /** `placeDoors`: scan the interior row by row on the current grid. */
  function PlaceDoors(g: Grid, rooms: seq<Room>, width: int, height: int, s: nat): (r: Drawn<Grid>)
    ensures SameShape(g, r.value)
  {
    PlaceDoorsFrom(g, rooms, width, height, 1, 1, s)
  }

  /** What `placeDoors` does, stated against the grid before the scan: the
      draws are one per candidate (an interior floor cell inside a room next
      to corridor floor), the k-th candidate ends up a door or floor as the
      k-th draw decides, and every other cell keeps its value. */
  lemma PlaceDoorsSpec(g: Grid, rooms: seq<Room>, width: int, height: int, s: nat)
    ensures var cs, r := Candidates(g, rooms, width, height), PlaceDoors(g, rooms, width, height, s);
      && r.rng == Advance(s, |cs|)
      && (forall p :: p in cs <==> IsCandidate(g, rooms, p) && Interior(p, width, height))
      && (forall k | 0 <= k < |cs| :: InGrid(g, cs[k]) && At(r.value, cs[k]) == Decision(s, k))
      && (forall q | InGrid(g, q) && q !in cs :: At(r.value, q) == At(g, q))
  {
    PlaceDoorsFromSpec(g, rooms, width, height, 1, 1, s);
    CandidatesFromMembers(g, rooms, width, height, 1, 1);
  }

  /** Doors replace only interior boundary floor, so every cell either keeps
      its value or was such a floor cell and is now a door; in particular
      walls, room centres and corridor floor are untouched. */
  lemma DoorsOnlyOnBoundaries(g: Grid, rooms: seq<Room>, width: int, height: int, s: nat)
    ensures var r := PlaceDoors(g, rooms, width, height, s).value;
      forall p | InGrid(g, p) ::
        || At(r, p) == At(g, p)
        || (&& At(g, p) == Floor && At(r, p) == Door
            && Interior(p, width, height) && IsBoundary(g, rooms, p))
  {
    var cs := Candidates(g, rooms, width, height);
    var r := PlaceDoors(g, rooms, width, height, s).value;
    PlaceDoorsSpec(g, rooms, width, height, s);
    forall p | InGrid(g, p) && p in cs
      ensures At(r, p) == At(g, p) || (At(g, p) == Floor && At(r, p) == Door)
    {
      var k :| 0 <= k < |cs| && cs[k] == p;
      assert At(r, cs[k]) == Decision(s, k);
    }
  }

  /** Door placement never closes a cell: open cells stay open. */
  lemma DoorsKeepOpen(g: Grid, rooms: seq<Room>, width: int, height: int, s: nat)
    ensures KeepsOpen(g, PlaceDoors(g, rooms, width, height, s).value)
  {
    DoorsOnlyOnBoundaries(g, rooms, width, height, s);
  }
}
