/** Stamping the placed rooms onto the grid (the `rooms.forEach` block of
    `generateDungeon`): every in-bounds cell of a room becomes floor, then
    the room's floored centre becomes a room-centre cell and is recorded in
    the room. */
module Stamping {
  import opened Options
  import opened Grids
  import opened Rooms

  /** Stamp one room: fill its in-bounds cells with floor, then mark the
      centre if it is inside the grid. */
  function StampRoom(g: Grid, r: Room): (g': Grid)
    ensures SameShape(g, g')
    ensures forall p | InGrid(g, p) ::
      At(g', p) == if p == CentreOf(r) then RoomCenter else if Contains(r, p) then Floor else At(g, p)
  {
    var filled := seq(|g|, y requires 0 <= y < |g| =>
      seq(|g[y]|, x requires 0 <= x < |g[y]| => if Contains(r, Point(x, y)) then Floor else g[y][x]));
    assert forall p | InGrid(g, p) :: At(filled, p) == if Contains(r, p) then Floor else At(g, p);
    var c := CentreOf(r);
    if InGrid(filled, c) then Set(filled, c, RoomCenter) else filled
  }

  /** Stamp the rooms in order. */
  function StampRooms(g: Grid, rooms: seq<Room>): (g': Grid)
    ensures SameShape(g, g')
  {
    if |rooms| == 0 then g else StampRoom(StampRooms(g, rooms[..|rooms| - 1]), rooms[|rooms| - 1])
  }

  /** The room with its floored centre recorded, done only when the centre
      is inside the grid. */
  function WithCentre(r: Room, width: int, height: int): (r': Room)
    ensures InBounds(CentreOf(r), width, height) ==> r'.center == Some(CentreOf(r))
    ensures !InBounds(CentreOf(r), width, height) ==> r'.center == r.center
    ensures r' == r.(center := r'.center)
  {
    if InBounds(CentreOf(r), width, height) then r.(center := Some(CentreOf(r))) else r
  }

  /** Every room with its centre recorded when that centre is inside the
      grid: ids, boxes and types are kept, an in-grid centre is set to the
      floored centre, and any other room is left as it was. */
  function WithCentres(rooms: seq<Room>, width: int, height: int): (rs: seq<Room>)
    ensures |rs| == |rooms|
    ensures forall i | 0 <= i < |rooms| :: rs[i] == rooms[i].(center := rs[i].center)
    ensures forall i | 0 <= i < |rooms| && InBounds(CentreOf(rooms[i]), width, height) ::
      rs[i].center == Some(CentreOf(rooms[i]))
    ensures forall i | 0 <= i < |rooms| && !InBounds(CentreOf(rooms[i]), width, height) ::
      rs[i] == rooms[i]
  {
    seq(|rooms|, i requires 0 <= i < |rooms| => WithCentre(rooms[i], width, height))
  }

  /** p is the centre of one of the rooms. */
  predicate IsCentre(rooms: seq<Room>, p: Point) {
    exists i | 0 <= i < |rooms| :: CentreOf(rooms[i]) == p
  }

  predicate InSomeRoom(rooms: seq<Room>, p: Point) {
    exists i | 0 <= i < |rooms| :: Contains(rooms[i], p)
  }

  predicate NonEmpty(rooms: seq<Room>) {
    forall i | 0 <= i < |rooms| :: rooms[i].width >= 1 && rooms[i].height >= 1
  }

  /** A cell of the last room other than its centre is no room's centre,
      when the rooms keep their padding. */
  lemma InLastRoom(rooms: seq<Room>, p: Point)
    requires Apart(rooms) && NonEmpty(rooms) && |rooms| > 0
    requires Contains(rooms[|rooms| - 1], p) && p != CentreOf(rooms[|rooms| - 1])
    ensures InSomeRoom(rooms, p) && !IsCentre(rooms, p)
  {
    forall i | 0 <= i < |rooms| - 1
      ensures CentreOf(rooms[i]) != p
    {
      assert Contains(rooms[i], CentreOf(rooms[i]));
      ApartRoomsAreDisjoint(rooms, |rooms| - 1, i, p);
    }
  }

  /** Outside the last room, the rooms' centres and cells are those of the
      earlier rooms. */
  lemma OutsideLastRoom(rooms: seq<Room>, p: Point)
    requires NonEmpty(rooms) && |rooms| > 0 && !Contains(rooms[|rooms| - 1], p)
    ensures var pre := rooms[..|rooms| - 1];
      IsCentre(rooms, p) == IsCentre(pre, p) && InSomeRoom(rooms, p) == InSomeRoom(pre, p)
  {
    var pre := rooms[..|rooms| - 1];
    assert Contains(rooms[|rooms| - 1], CentreOf(rooms[|rooms| - 1]));
    if IsCentre(rooms, p) {
      var i :| 0 <= i < |rooms| && CentreOf(rooms[i]) == p;
      assert CentreOf(pre[i]) == p;
    }
    if IsCentre(pre, p) {
      var i :| 0 <= i < |pre| && CentreOf(pre[i]) == p;
      assert CentreOf(rooms[i]) == p;
    }
    if InSomeRoom(rooms, p) {
      var i :| 0 <= i < |rooms| && Contains(rooms[i], p);
      assert Contains(pre[i], p);
    }
    if InSomeRoom(pre, p) {
      var i :| 0 <= i < |pre| && Contains(pre[i], p);
      assert Contains(rooms[i], p);
    }
  }

  /** What stamping leaves in each cell: for rooms that keep their padding,
      a room-centre cell exactly at the room centres, floor on the rest of
      every room, and the old cell everywhere else. */
  lemma {:induction false} StampedCells(g: Grid, rooms: seq<Room>)
    requires Apart(rooms) && NonEmpty(rooms)
    ensures forall p | InGrid(g, p) ::
      At(StampRooms(g, rooms), p) ==
        if IsCentre(rooms, p) then RoomCenter
        else if InSomeRoom(rooms, p) then Floor
        else At(g, p)
  {
    if |rooms| > 0 {
      var pre, r := rooms[..|rooms| - 1], rooms[|rooms| - 1];
      assert Apart(pre) && NonEmpty(pre) by {
        assert forall i | 0 <= i < |pre| :: pre[i] == rooms[i];
      }
      StampedCells(g, pre);
      var g1 := StampRooms(g, pre);
      forall p | InGrid(g, p)
        ensures At(StampRooms(g, rooms), p) ==
          if IsCentre(rooms, p) then RoomCenter
          else if InSomeRoom(rooms, p) then Floor
          else At(g, p)
      {
        assert InGrid(g1, p);
        if p == CentreOf(r) {
          assert IsCentre(rooms, p);
        } else if Contains(r, p) {
          InLastRoom(rooms, p);
        } else {
          OutsideLastRoom(rooms, p);
        }
      }
    }
  }
}
