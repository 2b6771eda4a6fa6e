/** Room placement: `generateRooms` and the room types `getRoomType` draws
    from. Stamping the placed rooms onto the grid is in module Stamping. */
module Rooms {
  import opened Options
  import opened Grids
  import opened SeededRandom

  datatype RoomType =
    | Chamber | Hall | Treasury | Barracks | Library
    | Armory | Kitchen | ThroneRoom | Chapel | Laboratory

  /** The vocabulary `getRoomType` draws from, in its order. */
  const RoomTypes: seq<RoomType> :=
    [Chamber, Hall, Treasury, Barracks, Library, Armory, Kitchen, ThroneRoom, Chapel, Laboratory]

  function TypeName(t: RoomType): string {
    match t
    case Chamber => "Chamber"
    case Hall => "Hall"
    case Treasury => "Treasury"
    case Barracks => "Barracks"
    case Library => "Library"
    case Armory => "Armory"
    case Kitchen => "Kitchen"
    case ThroneRoom => "Throne Room"
    case Chapel => "Chapel"
    case Laboratory => "Laboratory"
  }

  /** A room; `center` is unset until the room is stamped, and stays unset if
      its centre falls outside the grid. */
  datatype Room = Room(id: nat, x: int, y: int, width: int, height: int, kind: RoomType, center: Option<Point>)

  /** The floored centre of a room: x is an integer, so the centre column is
      x plus the floored half width, and likewise for y. */
  function CentreOf(r: Room): Point {
    Point(r.x + r.width / 2, r.y + r.height / 2)
  }

  predicate Contains(r: Room, p: Point) {
    r.x <= p.x < r.x + r.width && r.y <= p.y < r.y + r.height
  }

  /** The overlap test of `generateRooms`: the two boxes, each grown by two
      cells to the right and downwards, intersect. */
  predicate Overlaps(a: Room, b: Room) {
    && a.x < b.x + b.width + 2
    && a.x + a.width + 2 > b.x
    && a.y < b.y + b.height + 2
    && a.y + a.height + 2 > b.y
  }

  /** The box of r grown by two cells on its far sides. */
  predicate InPadded(r: Room, p: Point) {
    r.x <= p.x < r.x + r.width + 2 && r.y <= p.y < r.y + r.height + 2
  }

  /** The overlap test means exactly that the padded boxes share a cell. */
  lemma OverlapsIffPaddedBoxesMeet(a: Room, b: Room)
    requires a.width >= 0 && a.height >= 0 && b.width >= 0 && b.height >= 0
    ensures Overlaps(a, b) <==> exists p :: InPadded(a, p) && InPadded(b, p)
  {
    if Overlaps(a, b) {
      var p := Point(if a.x < b.x then b.x else a.x, if a.y < b.y then b.y else a.y);
      assert InPadded(a, p) && InPadded(b, p);
    }
  }

  /** No two distinct rooms overlap in the padded sense. */
  predicate Apart(rooms: seq<Room>) {
    forall i, j | 0 <= i < |rooms| && 0 <= j < |rooms| && i != j :: !Overlaps(rooms[i], rooms[j])
  }

  /** Rooms that are apart share no cell. */
  lemma ApartRoomsAreDisjoint(rooms: seq<Room>, i: int, j: int, p: Point)
    requires Apart(rooms)
    requires 0 <= i < |rooms| && 0 <= j < |rooms| && i != j
    requires Contains(rooms[i], p)
    ensures !Contains(rooms[j], p)
  {
    assert !Overlaps(rooms[i], rooms[j]);
  }

  /** The room keeps one cell of wall on every side of the grid. */
  predicate InsideBorder(r: Room, width: int, height: int) {
    1 <= r.x && r.x + r.width <= width - 1 && 1 <= r.y && r.y + r.height <= height - 1
  }

  predicate IdsAreIndices(rooms: seq<Room>) {
    forall i | 0 <= i < |rooms| :: rooms[i].id == i
  }

  /** What `generateRooms` guarantees of every room list it builds. The border
      holds whenever both sides have at least 10 cells, the smallest size
      the generator's callers allow. */
  predicate WellPlaced(rooms: seq<Room>, width: int, height: int) {
    && IdsAreIndices(rooms)
    && (forall i | 0 <= i < |rooms| ::
          4 <= rooms[i].width <= 8 && 4 <= rooms[i].height <= 8 && rooms[i].center.None?)
    && (width >= 10 && height >= 10 ==> forall i | 0 <= i < |rooms| :: InsideBorder(rooms[i], width, height))
    && Apart(rooms)
  }

  /** One placement attempt: width, height, x, y and type, drawn in the
      source's order. */
  function Candidate(s: nat, width: int, height: int, id: nat): (r: Drawn<Room>)
    ensures r.value.id == id && r.value.center.None?
    ensures 4 <= r.value.width <= 8 && 4 <= r.value.height <= 8
    ensures width >= 10 && height >= 10 ==> InsideBorder(r.value, width, height)
    ensures r.rng == Advance(s, 5)
  {
    var w := NextInt(s, 4, 8);
    var h := NextInt(w.rng, 4, 8);
    var x := NextInt(h.rng, 1, width - w.value - 1);
    var y := NextInt(x.rng, 1, height - h.value - 1);
    var t := Choice(y.rng, RoomTypes);
    assert t.rng == Advance(s, 5) by {
      assert Advance(s, 1) == w.rng;
      assert Advance(s, 2) == h.rng;
      assert Advance(s, 3) == x.rng;
      assert Advance(s, 4) == y.rng;
    }
    Drawn(Room(id, x.value, y.value, w.value, h.value, t.value.value, None), t.rng)
  }

  function Max(a: int, b: int): int {
    if a < b then b else a
  }

  function Min(a: int, b: int): int {
    if a < b then a else b
  }

  /** Accepting a candidate that overlaps no accepted room keeps the list
      well placed. */
  lemma AcceptKeepsWellPlaced(rooms: seq<Room>, c: Room, width: int, height: int)
    requires WellPlaced(rooms, width, height)
    requires c.id == |rooms| && c.center.None? && 4 <= c.width <= 8 && 4 <= c.height <= 8
    requires width >= 10 && height >= 10 ==> InsideBorder(c, width, height)
    requires forall k | 0 <= k < |rooms| :: !Overlaps(c, rooms[k])
    ensures WellPlaced(rooms + [c], width, height)
  {
    var rs := rooms + [c];
    forall i, j | 0 <= i < |rs| && 0 <= j < |rs| && i != j
      ensures !Overlaps(rs[i], rs[j])
    {
      if i == |rooms| {
        assert !Overlaps(c, rooms[j]);
      } else if j == |rooms| {
        assert !Overlaps(c, rooms[i]);
      } else {
        assert rs[i] == rooms[i] && rs[j] == rooms[j];
      }
    }
  }

  /** One attempt of `generateRooms`: draw a candidate and keep it unless
      it overlaps an accepted room. */
  function Attempt(s: nat, width: int, height: int, rooms: seq<Room>): (r: Drawn<seq<Room>>)
    requires WellPlaced(rooms, width, height)
    ensures WellPlaced(r.value, width, height)
    ensures rooms <= r.value && |r.value| <= |rooms| + 1
    ensures r.rng == Advance(s, 5)
  {
    var c := Candidate(s, width, height, |rooms|);
    var overlaps := exists k | 0 <= k < |rooms| :: Overlaps(c.value, rooms[k]);
    if overlaps then Drawn(rooms, c.rng)
    else
      AcceptKeepsWellPlaced(rooms, c.value, width, height);
      Drawn(rooms + [c.value], c.rng)
  }

  /** Five draws and then k rounds of five are k + 1 rounds of five. */
  lemma AttemptsAdvance(s: nat, a: nat, k: nat)
    requires a == Advance(s, 5)
    ensures Advance(a, 5 * k) == Advance(s, 5 * (k + 1))
  {
    AdvanceAdd(s, 5, 5 * k);
  }

  /** The loop of `generateRooms` from attempt i on; it ends when roomCount
      rooms are accepted or the attempts are used up. */
  function PlaceRooms(s: nat, width: int, height: int, roomCount: int, attempts: int, i: int, rooms: seq<Room>)
    : (r: Drawn<seq<Room>>)
    requires WellPlaced(rooms, width, height)
    ensures WellPlaced(r.value, width, height)
    ensures rooms <= r.value
    ensures |r.value| <= Max(|rooms|, roomCount)
    ensures |r.value| < roomCount && i <= attempts ==> r.rng == Advance(s, 5 * (attempts - i))
    decreases attempts - i
  {
    if i < attempts && |rooms| < roomCount then
      var a := Attempt(s, width, height, rooms);
      var r := PlaceRooms(a.rng, width, height, roomCount, attempts, i + 1, a.value);
      assert |r.value| < roomCount ==> r.rng == Advance(s, 5 * (attempts - i)) by {
        AttemptsAdvance(s, a.rng, attempts - (i + 1));
      }
      r
    else
      Drawn(rooms, s)
  }

  /** `generateRooms`: at most roomCount rooms, well placed, from at most
      roomCount * 10 attempts; fewer rooms only once every attempt was made. */
  function GenerateRooms(s: nat, width: int, height: int, roomCount: int): (r: Drawn<seq<Room>>)
    ensures WellPlaced(r.value, width, height)
    ensures |r.value| <= Max(0, roomCount)
    ensures 0 < roomCount && |r.value| < roomCount ==> r.rng == Advance(s, 50 * roomCount)
  {
    PlaceRooms(s, width, height, roomCount, roomCount * 10, 0, [])
  }
}
