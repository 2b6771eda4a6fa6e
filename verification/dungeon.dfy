/** `generateDungeon`: hash the seed, place the rooms, stamp them onto an
    all-wall grid and record their centres, carve the corridors, place the
    doors and draw the encounters, all from one generator state threaded
    through the stages in that order. */
module Dungeon {
  import opened Options
  import opened SeededRandom
  import opened Grids
  import opened Rooms
  import opened Stamping
  import opened SpanningTree
  import opened Corridors
  import opened Doors
  import opened Encounters

  /** The parameters of `generateDungeon`; the seed is a string, as UTF-16
      code units. */
  datatype Params = Params(
    seed: seq<CodeUnit>, width: nat, height: nat, roomCount: int,
    corridorWidth: int, difficulty: Difficulty, biome: Biome)

  datatype DungeonMap = DungeonMap(
    width: nat, height: nat, grid: Grid, rooms: seq<Room>, corridors: seq<Corridor>,
    encounters: seq<Encounter>, biome: Biome, difficulty: Difficulty)

  /** The intermediate results: the placed rooms, the grid after stamping,
      the rooms with their centres recorded, and the corridor, door and
      encounter stages. */
  datatype Stages = Stages(
    placed: Drawn<seq<Room>>, stamped: Grid, rooms: seq<Room>,
    corridors: CorridorStage, doors: Drawn<Grid>, encounters: Drawn<seq<Encounter>>)

  /** Recording centres changes nothing but the `center` field, and records
      exactly the centres inside the grid. */
  lemma CentredRooms(rooms: seq<Room>, width: int, height: int)
    requires WellPlaced(rooms, width, height)
    ensures var rs := WithCentres(rooms, width, height);
      && IdsAreIndices(rs) && CentresRecorded(rs)
      && (forall i | 0 <= i < |rs| :: rs[i] == rooms[i].(center := rs[i].center))
      && (forall i | 0 <= i < |rs| :: rs[i].center.Some? <==> InBounds(CentreOf(rs[i]), width, height))
  {
  }

  /** The rooms of a dungeon on a width x height grid: ids are positions,
      sides are 4 to 8 cells, padded boxes do not meet, a centre is recorded
      exactly when it lies in the grid, and on grids of at least 10 x 10
      every room keeps a one-cell border and has its centre recorded. */
  predicate DungeonRoomsShape(rs: seq<Room>, width: int, height: int) {
    && IdsAreIndices(rs) && Apart(rs)
    && (forall i | 0 <= i < |rs| :: 4 <= rs[i].width <= 8 && 4 <= rs[i].height <= 8)
    && (forall i | 0 <= i < |rs| :: rs[i].center.Some? <==> InBounds(CentreOf(rs[i]), width, height))
    && (forall i | 0 <= i < |rs| :: rs[i].center.Some? ==> rs[i].center.value == CentreOf(rs[i]))
    && (width >= 10 && height >= 10 ==>
          forall i | 0 <= i < |rs| :: InsideBorder(rs[i], width, height) && rs[i].center == Some(CentreOf(rs[i])))
  }

  /** The placed rooms with their centres recorded keep every guarantee of
      placement except the unset centres. */
  lemma CentredRoomsPlaced(rooms: seq<Room>, width: int, height: int)
    requires WellPlaced(rooms, width, height)
    ensures DungeonRoomsShape(WithCentres(rooms, width, height), width, height)
  {
    var rs := WithCentres(rooms, width, height);
    CentredRooms(rooms, width, height);
    assert Apart(rs) by {
      forall i, j | 0 <= i < |rs| && 0 <= j < |rs| && i != j
        ensures !Overlaps(rs[i], rs[j])
      {
        assert !Overlaps(rooms[i], rooms[j]);
      }
    }
    if width >= 10 && height >= 10 {
      forall i | 0 <= i < |rs|
        ensures InsideBorder(rs[i], width, height) && InBounds(CentreOf(rs[i]), width, height)
      {
        assert InsideBorder(rooms[i], width, height);
      }
    }
  }

  /** Rooms that differ only in their recorded centres have the same centres
      and cover the same cells. */
  lemma SameBoxes(rooms: seq<Room>, rs: seq<Room>, q: Point)
    requires |rs| == |rooms| && forall i | 0 <= i < |rs| :: rs[i] == rooms[i].(center := rs[i].center)
    ensures IsCentre(rs, q) == IsCentre(rooms, q) && InSomeRoom(rs, q) == InSomeRoom(rooms, q)
  {
    if IsCentre(rooms, q) {
      var i :| 0 <= i < |rooms| && CentreOf(rooms[i]) == q;
      assert CentreOf(rs[i]) == q;
    }
    if IsCentre(rs, q) {
      var i :| 0 <= i < |rs| && CentreOf(rs[i]) == q;
      assert CentreOf(rooms[i]) == q;
    }
    if InSomeRoom(rooms, q) {
      var i :| 0 <= i < |rooms| && Contains(rooms[i], q);
      assert Contains(rs[i], q);
    }
    if InSomeRoom(rs, q) {
      var i :| 0 <= i < |rs| && Contains(rs[i], q);
      assert Contains(rooms[i], q);
    }
  }

  /** Stamping the placed rooms onto an all-wall grid, described with the
      rooms whose centres are recorded. */
  lemma StampedPlaced(rooms: seq<Room>, width: nat, height: nat)
    requires WellPlaced(rooms, width, height)
    ensures var g, rs := StampRooms(Blank(width, height), rooms), WithCentres(rooms, width, height);
      && IsGrid(g, width, height)
      && (forall q | InGrid(g, q) ::
            At(g, q) ==
              if IsCentre(rs, q) then RoomCenter
              else if InSomeRoom(rs, q) then Floor
              else Wall)
  {
    var blank := Blank(width, height);
    var g, rs := StampRooms(blank, rooms), WithCentres(rooms, width, height);
    CentredRooms(rooms, width, height);
    StampedCells(blank, rooms);
    forall q | InGrid(g, q)
      ensures IsCentre(rs, q) == IsCentre(rooms, q) && InSomeRoom(rs, q) == InSomeRoom(rooms, q)
    {
      SameBoxes(rooms, rs, q);
    }
    forall q | InGrid(g, q)
      ensures InGrid(blank, q)
    {
    }
  }

  function Run(p: Params): (st: Stages)
    ensures IdsAreIndices(st.rooms) && CentresRecorded(st.rooms)
  {
    var placed := GenerateRooms(HashString(p.seed), p.width, p.height, p.roomCount);
    var stamped := StampRooms(Blank(p.width, p.height), placed.value);
    var rooms := WithCentres(placed.value, p.width, p.height);
    CentredRooms(placed.value, p.width, p.height);
    var corridors := GenerateCorridors(placed.rng, rooms, stamped, p.corridorWidth);
    var doors := PlaceDoors(corridors.grid, rooms, p.width, p.height, corridors.rng);
    var encounters := GenerateEncounters(doors.rng, rooms, p.difficulty, p.biome);
    Stages(placed, stamped, rooms, corridors, doors, encounters)
  }

  /** `generateDungeon`: the grid is width x height, there are at most
      `roomCount` rooms, one corridor fewer than rooms (none for fewer than
      two rooms), and at most one encounter per room. */
  function GenerateDungeon(p: Params): (d: DungeonMap)
    ensures IsGrid(d.grid, p.width, p.height)
    ensures |d.rooms| <= Max(0, p.roomCount)
    ensures |d.corridors| == Max(0, |d.rooms| - 1)
    ensures |d.encounters| <= |d.rooms|
  {
    var st := Run(p);
    DungeonMap(p.width, p.height, st.doors.value, st.rooms, st.corridors.corridors,
               st.encounters.value, p.biome, p.difficulty)
  }

  /** The rooms of a dungeon have the shape `DungeonRoomsShape` states. */
  lemma DungeonRooms(p: Params)
    ensures DungeonRoomsShape(GenerateDungeon(p).rooms, p.width, p.height)
  {
    var st := Run(p);
    assert GenerateDungeon(p).rooms == st.rooms == WithCentres(st.placed.value, p.width, p.height);
    CentredRoomsPlaced(st.placed.value, p.width, p.height);
  }

  /** Which cells of the stamped grid are room centres, floor or wall, in
      terms of the rooms with their centres recorded. */
  lemma StampedGrid(p: Params)
    ensures var st := Run(p);
      && IsGrid(st.stamped, p.width, p.height)
      && (forall q | InGrid(st.stamped, q) ::
            At(st.stamped, q) ==
              if IsCentre(st.rooms, q) then RoomCenter
              else if InSomeRoom(st.rooms, q) then Floor
              else Wall)
  {
    var st := Run(p);
    assert st.stamped == StampRooms(Blank(p.width, p.height), st.placed.value);
    assert st.rooms == WithCentres(st.placed.value, p.width, p.height);
    StampedPlaced(st.placed.value, p.width, p.height);
  }

  /** The corridor stage on the stamped grid turns only walls into floor,
      so after it a cell is a room centre exactly when it is the centre of a
      room, and no cell is a door. */
  lemma CorridorCells(placed: seq<Room>, rooms: seq<Room>, width: nat, height: nat, s: nat, cw: int)
    requires WellPlaced(placed, width, height) && rooms == WithCentres(placed, width, height)
    requires IdsAreIndices(rooms) && CentresRecorded(rooms)
    ensures var g1 := StampRooms(Blank(width, height), placed);
      var g2 := GenerateCorridors(s, rooms, g1, cw).grid;
      && IsGrid(g2, width, height) && KeepsOpen(g1, g2)
      && (forall q | InGrid(g2, q) :: && (At(g2, q) == RoomCenter <==> IsCentre(rooms, q)) && At(g2, q) != Door)
  {
    var g1 := StampRooms(Blank(width, height), placed);
    var g2 := GenerateCorridors(s, rooms, g1, cw).grid;
    StampedPlaced(placed, width, height);
    OnlyWallsToFloorKeepsOpen(g1, g2);
    forall q | InGrid(g2, q)
      ensures (At(g2, q) == RoomCenter <==> IsCentre(rooms, q)) && At(g2, q) != Door
    {
      assert InGrid(g1, q);
    }
  }

  /** The corridor stage keeps every open cell of the stamped grid open;
      after it the room centres are exactly the room-centre cells and no
      cell is a door. */
  lemma CorridorGrid(p: Params)
    ensures var st := Run(p);
      && IsGrid(st.corridors.grid, p.width, p.height)
      && KeepsOpen(st.stamped, st.corridors.grid)
      && (forall q | InGrid(st.corridors.grid, q) ::
            && (At(st.corridors.grid, q) == RoomCenter <==> IsCentre(st.rooms, q))
            && At(st.corridors.grid, q) != Door)
  {
    var st := Run(p);
    CorridorCells(st.placed.value, st.rooms, p.width, p.height, st.placed.rng, p.corridorWidth);
  }

  /** Door placement on a grid without doors whose room-centre cells are the
      room centres keeps them so, closes no open cell, and puts each door on
      an interior cell inside a room next to corridor floor, where the grid
      had floor. */
  lemma DoorCells(g2: Grid, rooms: seq<Room>, width: int, height: int, s: nat)
    requires forall q | InGrid(g2, q) :: (At(g2, q) == RoomCenter <==> IsCentre(rooms, q)) && At(g2, q) != Door
    ensures var g3 := PlaceDoors(g2, rooms, width, height, s).value;
      && KeepsOpen(g2, g3)
      && (forall q | InGrid(g3, q) :: At(g3, q) == RoomCenter <==> IsCentre(rooms, q))
      && (forall q | InGrid(g3, q) && At(g3, q) == Door ::
            && Interior(q, width, height)
            && InSomeRoom(rooms, q)
            && At(g2, q) == Floor
            && IsBoundary(g2, rooms, q))
  {
    var g3 := PlaceDoors(g2, rooms, width, height, s).value;
    DoorsOnlyOnBoundaries(g2, rooms, width, height, s);
    DoorsKeepOpen(g2, rooms, width, height, s);
    forall q | InGrid(g3, q)
      ensures (At(g3, q) == RoomCenter <==> IsCentre(rooms, q))
      ensures At(g3, q) == Door ==> Interior(q, width, height) && At(g2, q) == Floor && IsBoundary(g2, rooms, q)
    {
      assert InGrid(g2, q);
    }
  }

  /** In the finished grid a cell is a room centre exactly when it is the
      centre of a room, and every door lies on an interior cell inside a
      room next to corridor floor, where the corridor stage left floor. */
  lemma FinalCells(p: Params)
    ensures var st, d := Run(p), GenerateDungeon(p);
      && KeepsOpen(st.corridors.grid, d.grid)
      && (forall q | InGrid(d.grid, q) :: At(d.grid, q) == RoomCenter <==> IsCentre(d.rooms, q))
      && (forall q | InGrid(d.grid, q) && At(d.grid, q) == Door ::
            && Interior(q, p.width, p.height)
            && InSomeRoom(d.rooms, q)
            && At(st.corridors.grid, q) == Floor
            && IsBoundary(st.corridors.grid, d.rooms, q))
  {
    var st := Run(p);
    CorridorCells(st.placed.value, st.rooms, p.width, p.height, st.placed.rng, p.corridorWidth);
    DoorCells(st.corridors.grid, st.rooms, p.width, p.height, st.corridors.rng);
  }

  /** The encounters of a dungeon: the k-th has id k and belongs to a room
      whose id increases with k; it is named after that room's type, its
      description is built from that type and its entries, it has one to
      three entries drawn from the biome's vocabulary with counts from 1 to
      the difficulty's maximum, and its rating is from 1 to
      max(1, floor(1.5 * b)). */
  lemma DungeonEncounters(p: Params)
    ensures var d := GenerateDungeon(p);
      && (forall k | 0 <= k < |d.encounters| ::
            && d.encounters[k].roomId < |d.rooms|
            && Fits(d.encounters[k], d.rooms[d.encounters[k].roomId], k, p.difficulty, p.biome))
      && (forall k1, k2 | 0 <= k1 < k2 < |d.encounters| :: d.encounters[k1].roomId < d.encounters[k2].roomId)
  {
    var st := Run(p);
    EncountersByRoomId(st.doors.rng, st.rooms, p.difficulty, p.biome);
  }

  /** An open centre line connects its two ends, both ways. */
  lemma LineConnects(g: Grid, c1: Point, c2: Point)
    requires IsOpenWalk(g, CentreLine(c1, c2))
    ensures Connected(g, c1, c2) && Connected(g, c2, c1)
  {
    WalkConnects(g, CentreLine(c1, c2));
    ConnectedSymmetric(g, c1, c2);
  }

  /** Rooms joined by a connection have connected centres, when the centre
      lines of all connections are open. */
  lemma JoinedRoomsConnected(rooms: seq<Room>, conns: seq<Connection>, g: Grid, a: nat, b: nat)
    requires ConnectsRooms(rooms, conns) && TreeLinesOpen(rooms, conns, g)
    requires a < |rooms| && b < |rooms| && Joined(conns, a, b)
    ensures Connected(g, CentreOf(rooms[a]), CentreOf(rooms[b]))
  {
    var k :| 0 <= k < |conns| && ((conns[k].from == a && conns[k].to == b) || (conns[k].from == b && conns[k].to == a));
    var c := conns[k];
    LineConnects(g, CentreOf(rooms[c.from]), CentreOf(rooms[c.to]));
  }

  /** Every two rooms joined by a connection have connected centres. */
  ghost predicate JoinedCentresConnected(rooms: seq<Room>, conns: seq<Connection>, g: Grid) {
    forall a: nat, b: nat | a < |rooms| && b < |rooms| && Joined(conns, a, b) ::
      Connected(g, CentreOf(rooms[a]), CentreOf(rooms[b]))
  }

  /** The centres of all rooms along a walk over the connections are
      connected in the grid. */
  lemma {:induction false} RoomWalkConnected(rooms: seq<Room>, conns: seq<Connection>, g: Grid, walk: seq<nat>)
    requires ConnectsRooms(rooms, conns) && JoinedCentresConnected(rooms, conns, g)
    requires forall i | 0 <= i < |rooms| :: InGrid(g, CentreOf(rooms[i])) && At(g, CentreOf(rooms[i])) != Wall
    requires IsRoomWalk(conns, walk) && walk[0] < |rooms|
    ensures walk[|walk| - 1] < |rooms|
    ensures Connected(g, CentreOf(rooms[walk[0]]), CentreOf(rooms[walk[|walk| - 1]]))
    decreases |walk|
  {
    var c0 := CentreOf(rooms[walk[0]]);
    if |walk| == 1 {
      WalkConnects(g, [c0]);
    } else {
      var pre := walk[..|walk| - 1];
      assert IsRoomWalk(conns, pre) by {
        forall i | 0 <= i < |pre| - 1
          ensures Joined(conns, pre[i], pre[i + 1])
        {
          assert Joined(conns, walk[i], walk[i + 1]);
        }
      }
      RoomWalkConnected(rooms, conns, g, pre);
      var a, b := walk[|walk| - 2], walk[|walk| - 1];
      assert Joined(conns, a, b);
      var k :| 0 <= k < |conns| && ((conns[k].from == a && conns[k].to == b) || (conns[k].from == b && conns[k].to == a));
      assert Connected(g, CentreOf(rooms[a]), CentreOf(rooms[b]));
      ConnectedTransitive(g, c0, CentreOf(rooms[a]), CentreOf(rooms[b]));
    }
  }

  /** The corridor stage joins the centres of every two rooms that the tree
      connects. */
  lemma TreeCentresConnected(s: nat, rooms: seq<Room>, g: Grid, width: int, height: int, cw: int)
    requires IdsAreIndices(rooms) && CentresRecorded(rooms) && |rooms| >= 2
    requires cw >= 1 && IsGrid(g, width, height) && CentresInBounds(rooms, width, height)
    ensures JoinedCentresConnected(rooms, MinimumSpanningTree(rooms, s).value, GenerateCorridors(s, rooms, g, cw).grid)
  {
    var conns, g' := MinimumSpanningTree(rooms, s).value, GenerateCorridors(s, rooms, g, cw).grid;
    TreeCorridorsStayOpen(s, rooms, g, width, height, cw);
    forall a: nat, b: nat | a < |rooms| && b < |rooms| && Joined(conns, a, b)
      ensures Connected(g', CentreOf(rooms[a]), CentreOf(rooms[b]))
    {
      JoinedRoomsConnected(rooms, conns, g', a, b);
    }
  }

  /** When the tree's joined centres are connected and every centre is open,
      every two centres are connected, through room 0. */
  lemma AllCentresConnected(s: nat, rooms: seq<Room>, g: Grid, i: nat, j: nat)
    requires IdsAreIndices(rooms) && i < |rooms| && j < |rooms|
    requires JoinedCentresConnected(rooms, MinimumSpanningTree(rooms, s).value, g)
    requires forall r | 0 <= r < |rooms| :: InGrid(g, CentreOf(rooms[r])) && At(g, CentreOf(rooms[r])) != Wall
    ensures Connected(g, CentreOf(rooms[i]), CentreOf(rooms[j]))
  {
    var conns := MinimumSpanningTree(rooms, s).value;
    EveryRoomReachable(rooms, s, i);
    EveryRoomReachable(rooms, s, j);
    var wi :| IsRoomWalk(conns, wi) && wi[0] == 0 && wi[|wi| - 1] == i;
    var wj :| IsRoomWalk(conns, wj) && wj[0] == 0 && wj[|wj| - 1] == j;
    RoomWalkConnected(rooms, conns, g, wi);
    RoomWalkConnected(rooms, conns, g, wj);
    var c0, ci, cj := CentreOf(rooms[0]), CentreOf(rooms[i]), CentreOf(rooms[j]);
    ConnectedSymmetric(g, c0, ci);
    ConnectedTransitive(g, ci, c0, cj);
  }

  /** Centres of rooms inside the border of a width x height grid, in which
      every room centre is a room-centre cell, are in the grid and open. */
  lemma OpenCentres(rs: seq<Room>, g: Grid, width: int, height: int)
    requires IsGrid(g, width, height)
    requires forall i | 0 <= i < |rs| :: InsideBorder(rs[i], width, height) && rs[i].width >= 1 && rs[i].height >= 1
    requires forall q | InGrid(g, q) :: At(g, q) == RoomCenter <==> IsCentre(rs, q)
    ensures CentresInBounds(rs, width, height)
    ensures forall r | 0 <= r < |rs| :: InGrid(g, CentreOf(rs[r])) && At(g, CentreOf(rs[r])) != Wall
  {
    forall r | 0 <= r < |rs|
      ensures InBounds(CentreOf(rs[r]), width, height)
    {
      assert InsideBorder(rs[r], width, height);
    }
    forall r | 0 <= r < |rs|
      ensures InGrid(g, CentreOf(rs[r])) && At(g, CentreOf(rs[r])) != Wall
    {
      assert InBounds(CentreOf(rs[r]), width, height);
      assert IsCentre(rs, CentreOf(rs[r]));
    }
  }

  /** The stages from the corridors on keep every two room centres
      connected: the tree corridors join the rooms the tree connects, the
      tree reaches every room, and door placement closes no cell. */
  lemma StagesConnected(s: nat, rs: seq<Room>, g1: Grid, g2: Grid, g3: Grid, width: int, height: int, cw: int, i: nat, j: nat)
    requires IdsAreIndices(rs) && CentresRecorded(rs) && CentresInBounds(rs, width, height)
    requires cw >= 1 && IsGrid(g1, width, height) && g2 == GenerateCorridors(s, rs, g1, cw).grid
    requires forall r | 0 <= r < |rs| :: InGrid(g2, CentreOf(rs[r])) && At(g2, CentreOf(rs[r])) != Wall
    requires KeepsOpen(g2, g3) && i < |rs| && j < |rs|
    ensures Connected(g3, CentreOf(rs[i]), CentreOf(rs[j]))
  {
    var ci, cj := CentreOf(rs[i]), CentreOf(rs[j]);
    if |rs| == 1 {
      assert i == 0 && j == 0;
      WalkConnects(g2, [ci]);
    } else {
      TreeCentresConnected(s, rs, g1, width, height, cw);
      AllCentresConnected(s, rs, g2, i, j);
    }
    ConnectedKept(g2, g3, ci, cj);
  }

  /** On a grid of at least 10 x 10, the room centres lie in the grid and
      are open after the corridor stage. */
  lemma CorridorCentresOpen(placed: seq<Room>, rooms: seq<Room>, width: nat, height: nat, s: nat, cw: int)
    requires WellPlaced(placed, width, height) && rooms == WithCentres(placed, width, height)
    requires IdsAreIndices(rooms) && CentresRecorded(rooms) && width >= 10 && height >= 10
    ensures var g1 := StampRooms(Blank(width, height), placed);
      var g2 := GenerateCorridors(s, rooms, g1, cw).grid;
      && IsGrid(g1, width, height) && CentresInBounds(rooms, width, height)
      && forall r | 0 <= r < |rooms| :: InGrid(g2, CentreOf(rooms[r])) && At(g2, CentreOf(rooms[r])) != Wall
  {
    var g1 := StampRooms(Blank(width, height), placed);
    var g2 := GenerateCorridors(s, rooms, g1, cw).grid;
    StampedPlaced(placed, width, height);
    CorridorCells(placed, rooms, width, height, s, cw);
    CentredRoomsPlaced(placed, width, height);
    OpenCentres(rooms, g2, width, height);
  }

  /** From the placed rooms on: on a grid of at least 10 x 10 with corridors
      at least one cell wide, every two room centres are connected in any
      grid that keeps the corridor stage's open cells open. */
  lemma PipelineConnected(placed: seq<Room>, rooms: seq<Room>, width: nat, height: nat, s: nat, cw: int,
                          g3: Grid, i: nat, j: nat)
    requires WellPlaced(placed, width, height) && rooms == WithCentres(placed, width, height)
    requires IdsAreIndices(rooms) && CentresRecorded(rooms)
    requires width >= 10 && height >= 10 && cw >= 1 && i < |rooms| && j < |rooms|
    requires KeepsOpen(GenerateCorridors(s, rooms, StampRooms(Blank(width, height), placed), cw).grid, g3)
    ensures Connected(g3, CentreOf(rooms[i]), CentreOf(rooms[j]))
  {
    var g1 := StampRooms(Blank(width, height), placed);
    CorridorCentresOpen(placed, rooms, width, height, s, cw);
    StagesConnected(s, rooms, g1, GenerateCorridors(s, rooms, g1, cw).grid, g3, width, height, cw, i, j);
  }

  /** On a grid of at least 10 x 10 with corridors at least one cell wide,
      every two room centres of the dungeon are joined by a walk of
      orthogonal steps through open cells (floor, door or room centre). */
  lemma RoomsConnected(p: Params, i: nat, j: nat)
    requires p.width >= 10 && p.height >= 10 && p.corridorWidth >= 1
    ensures var d := GenerateDungeon(p);
      i < |d.rooms| && j < |d.rooms| ==> Connected(d.grid, CentreOf(d.rooms[i]), CentreOf(d.rooms[j]))
  {
    var st := Run(p);
    if i < |st.rooms| && j < |st.rooms| {
      DoorsKeepOpen(st.corridors.grid, st.rooms, p.width, p.height, st.corridors.rng);
      PipelineConnected(st.placed.value, st.rooms, p.width, p.height, st.placed.rng, p.corridorWidth,
                        st.doors.value, i, j);
    }
  }
}
