/** The connection tree of `createMinimumSpanningTree`: Prim-style growth
    from room 0, joining at each step the closest (connected, unconnected)
    pair of room centres by Manhattan distance, and on ties the first such
    pair the scan meets. Room ids are indices into the room list, as
    `generateRooms` builds it. */
module SpanningTree {
  import opened Options
  import opened Grids
  import opened SeededRandom
  import opened Rooms

  datatype Connection = Connection(from: nat, to: nat)

  /** The best pair found so far in a scan. */
  datatype Edge = Edge(from: nat, to: nat, distance: nat)

  function Abs(a: int): nat {
    if a < 0 then -a else a
  }

  /** The Manhattan distance between the recorded centres of rooms a and b.
      A room whose centre was never recorded makes the source compute NaN,
      which compares false with everything; that is `None` here. */
  function Distance(rooms: seq<Room>, a: nat, b: nat): Option<nat>
    requires a < |rooms| && b < |rooms|
  {
    match (rooms[a].center, rooms[b].center)
    case (Some(p), Some(q)) => Some(Abs(p.x - q.x) + Abs(p.y - q.y))
    case _ => None
  }

  /** A defined distance strictly below the best so far improves on it; no
      best pair yet stands for an infinite best distance. */
  predicate Improves(d: Option<nat>, best: Option<Edge>) {
    d.Some? && (best.None? || d.value < best.value.distance)
  }

  predicate Indices(rooms: seq<Room>, xs: seq<nat>) {
    forall i | 0 <= i < |xs| :: xs[i] < |rooms|
  }

  /** best is a pair from c to one of us at its true distance. */
  predicate EdgeFrom(rooms: seq<Room>, cs: seq<nat>, us: seq<nat>, e: Edge)
    requires Indices(rooms, cs) && Indices(rooms, us)
  {
    e.from in cs && e.to in us && Distance(rooms, e.from, e.to) == Some(e.distance)
  }

  /** The inner loop of the scan, over the unconnected rooms for one
      connected room c; a pair replaces the best one only if strictly
      closer, so ties keep the first pair found. */
  function ScanRow(rooms: seq<Room>, c: nat, us: seq<nat>, best: Option<Edge>): (r: Option<Edge>)
    requires c < |rooms| && Indices(rooms, us)
    ensures r.Some? ==> r == best || EdgeFrom(rooms, [c], us, r.value)
    ensures best.Some? ==> r.Some? && r.value.distance <= best.value.distance
    ensures forall u | u in us && Distance(rooms, c, u).Some? ::
      r.Some? && r.value.distance <= Distance(rooms, c, u).value
    decreases |us|
  {
    if |us| == 0 then best
    else
      var d := Distance(rooms, c, us[0]);
      var best' := if Improves(d, best) then Some(Edge(c, us[0], d.value)) else best;
      ScanRow(rooms, c, us[1..], best')
  }

  /** The two nested loops of the scan: connected rooms outside,
      unconnected rooms inside. */
  function Scan(rooms: seq<Room>, cs: seq<nat>, us: seq<nat>, best: Option<Edge>): (r: Option<Edge>)
    requires Indices(rooms, cs) && Indices(rooms, us)
    ensures r.Some? ==> r == best || EdgeFrom(rooms, cs, us, r.value)
    ensures best.Some? ==> r.Some? && r.value.distance <= best.value.distance
    ensures forall c, u | c in cs && u in us && Distance(rooms, c, u).Some? ::
      r.Some? && r.value.distance <= Distance(rooms, c, u).value
    decreases |cs|
  {
    if |cs| == 0 then best
    else
      var row := ScanRow(rooms, cs[0], us, best);
      var r := Scan(rooms, cs[1..], us, row);
      assert r.Some? && r != best && r != row ==> EdgeFrom(rooms, cs, us, r.value) by {
        if r.Some? && r != best && r != row {
          assert EdgeFrom(rooms, cs[1..], us, r.value);
        }
      }
      r
  }

  /** e is the pair (cs[i], us[j]) at its defined distance, and every pair
      the scan meets before it (an earlier connected room, or the same one
      and an earlier unconnected room) is undefined or strictly farther. */
  predicate FirstAt(rooms: seq<Room>, cs: seq<nat>, us: seq<nat>, i: nat, j: nat, e: Edge)
    requires Indices(rooms, cs) && Indices(rooms, us)
  {
    && i < |cs| && j < |us|
    && e == Edge(cs[i], us[j], e.distance)
    && Distance(rooms, cs[i], us[j]) == Some(e.distance)
    && forall i', j' | 0 <= i' < |cs| && 0 <= j' < |us| && (i' < i || (i' == i && j' < j))
         && Distance(rooms, cs[i'], us[j']).Some? ::
         e.distance < Distance(rooms, cs[i'], us[j']).value
  }

  /** A first pair of a row's tail stays first in the whole row when it is
      strictly closer than the row's head pair, if that one is defined. */
  lemma FirstAtRowCons(rooms: seq<Room>, c: nat, us: seq<nat>, j: nat, e: Edge)
    requires c < |rooms| && Indices(rooms, us) && |us| > 0
    requires FirstAt(rooms, [c], us[1..], 0, j, e)
    requires Distance(rooms, c, us[0]).Some? ==> e.distance < Distance(rooms, c, us[0]).value
    ensures FirstAt(rooms, [c], us, 0, j + 1, e)
  {
    var tail := us[1..];
    forall j' | 0 <= j' < j + 1 && Distance(rooms, c, us[j']).Some?
      ensures e.distance < Distance(rooms, c, us[j']).value
    {
      if j' > 0 {
        assert us[j'] == tail[j' - 1];
      }
    }
    assert us[j + 1] == tail[j];
  }

  /** The pair a row's tail ends on, strictly closer than the best pair
      after the row's head, is closer than the best pair before it and
      stays first in the whole row. */
  lemma RowFirstLater(rooms: seq<Room>, c: nat, us: seq<nat>, best: Option<Edge>, e: Edge)
    requires c < |rooms| && Indices(rooms, us) && |us| > 0
    requires var d := Distance(rooms, c, us[0]);
      Improves(Some(e.distance), if Improves(d, best) then Some(Edge(c, us[0], d.value)) else best)
    requires exists j :: FirstAt(rooms, [c], us[1..], 0, j, e)
    ensures Improves(Some(e.distance), best) && exists j :: FirstAt(rooms, [c], us, 0, j, e)
  {
    var j: nat :| FirstAt(rooms, [c], us[1..], 0, j, e);
    FirstAtRowCons(rooms, c, us, j, e);
  }

  /** A row scan that replaces its starting best pair ends on the first
      pair of the row that is closest, and closer than that best. */
  lemma {:induction false} ScanRowFirst(rooms: seq<Room>, c: nat, us: seq<nat>, best: Option<Edge>)
    requires c < |rooms| && Indices(rooms, us)
    ensures var r := ScanRow(rooms, c, us, best);
      r != best ==>
        r.Some? && Improves(Some(r.value.distance), best) && exists j :: FirstAt(rooms, [c], us, 0, j, r.value)
    decreases |us|
  {
    var r := ScanRow(rooms, c, us, best);
    if |us| > 0 && r != best {
      var d := Distance(rooms, c, us[0]);
      var best' := if Improves(d, best) then Some(Edge(c, us[0], d.value)) else best;
      assert r == ScanRow(rooms, c, us[1..], best');
      ScanRowFirst(rooms, c, us[1..], best');
      if r != best' {
        RowFirstLater(rooms, c, us, best, r.value);
      } else {
        assert FirstAt(rooms, [c], us, 0, 0, r.value);
      }
    }
  }

  /** A first pair of the scan over the later connected rooms stays first
      in the whole scan when it is strictly closer than every defined pair
      of the first connected room. */
  lemma ScanFirstLater(rooms: seq<Room>, cs: seq<nat>, us: seq<nat>, i: nat, j: nat, e: Edge)
    requires Indices(rooms, cs) && Indices(rooms, us) && |cs| > 0
    requires FirstAt(rooms, cs[1..], us, i, j, e)
    requires forall u | u in us && Distance(rooms, cs[0], u).Some? :: e.distance < Distance(rooms, cs[0], u).value
    ensures FirstAt(rooms, cs, us, i + 1, j, e)
  {
    var tail := cs[1..];
    forall i', j' | 0 <= i' < |cs| && 0 <= j' < |us| && (i' < i + 1 || (i' == i + 1 && j' < j))
      && Distance(rooms, cs[i'], us[j']).Some?
      ensures e.distance < Distance(rooms, cs[i'], us[j']).value
    {
      if i' > 0 {
        assert cs[i'] == tail[i' - 1];
      } else {
        assert us[j'] in us;
      }
    }
    assert cs[i + 1] == tail[i];
  }

  /** A first pair of the first connected room's row is first in the
      whole scan. */
  lemma ScanFirstRow(rooms: seq<Room>, cs: seq<nat>, us: seq<nat>, j: nat, e: Edge)
    requires Indices(rooms, cs) && Indices(rooms, us) && |cs| > 0
    requires FirstAt(rooms, [cs[0]], us, 0, j, e)
    ensures FirstAt(rooms, cs, us, 0, j, e)
  {
  }

  /** A scan that replaces its starting best pair ends on the first pair,
      in scan order, that is closest, and closer than that best. */
  lemma {:induction false} ScanFirst(rooms: seq<Room>, cs: seq<nat>, us: seq<nat>, best: Option<Edge>)
    requires Indices(rooms, cs) && Indices(rooms, us)
    ensures var r := Scan(rooms, cs, us, best);
      r != best ==>
        r.Some? && Improves(Some(r.value.distance), best) && exists i, j :: FirstAt(rooms, cs, us, i, j, r.value)
    decreases |cs|
  {
    var r := Scan(rooms, cs, us, best);
    if |cs| > 0 && r != best {
      var row := ScanRow(rooms, cs[0], us, best);
      assert r == Scan(rooms, cs[1..], us, row);
      ScanFirst(rooms, cs[1..], us, row);
      if r != row {
        var i: nat, j: nat :| FirstAt(rooms, cs[1..], us, i, j, r.value);
        ScanFirstLater(rooms, cs, us, i, j, r.value);
      } else {
        ScanRowFirst(rooms, cs[0], us, best);
        var j: nat :| FirstAt(rooms, [cs[0]], us, 0, j, r.value);
        ScanFirstRow(rooms, cs, us, j, r.value);
      }
    }
  }

  /** The whole scan: the closest pair with a defined distance, or None
      exactly when no pair has one. Since a pair replaces the best one
      only when strictly closer, ties go to the first pair scanned. */
  function Closest(rooms: seq<Room>, cs: seq<nat>, us: seq<nat>): (r: Option<Edge>)
    requires Indices(rooms, cs) && Indices(rooms, us)
    ensures r.Some? ==> EdgeFrom(rooms, cs, us, r.value)
    ensures forall c, u | c in cs && u in us && Distance(rooms, c, u).Some? ::
      r.Some? && r.value.distance <= Distance(rooms, c, u).value
    ensures r.Some? ==> exists i, j :: FirstAt(rooms, cs, us, i, j, r.value)
  {
    ScanFirst(rooms, cs, us, None);
    Scan(rooms, cs, us, None)
  }

  /** Removing a room from the unconnected set keeps the order of the
      others. */
  function Without(us: seq<nat>, v: nat): (r: seq<nat>)
    ensures forall x :: x in r <==> x in us && x != v
    ensures |r| <= |us|
    ensures v in us ==> |r| < |us|
    ensures v !in us ==> r == us
  {
    if |us| == 0 then []
    else if us[0] == v then Without(us[1..], v)
    else [us[0]] + Without(us[1..], v)
  }

  /** The tail of a list without duplicates has none and lacks the head. */
  lemma NoDuplicatesTail(us: seq<nat>)
    requires |us| > 0 && NoDuplicates(us)
    ensures NoDuplicates(us[1..]) && us[0] !in us[1..]
  {
    var tail := us[1..];
    forall i, j | 0 <= i < j < |tail| ensures tail[i] != tail[j] {
      assert tail[i] == us[i + 1] && tail[j] == us[j + 1];
    }
    forall j | 0 <= j < |tail| ensures tail[j] != us[0] {
      assert tail[j] == us[j + 1];
    }
  }

  /** A new head in front of a list without duplicates leaves none. */
  lemma NoDuplicatesCons(x: nat, rt: seq<nat>)
    requires NoDuplicates(rt) && x !in rt
    ensures NoDuplicates([x] + rt)
  {
    var r := [x] + rt;
    forall i, j | 0 <= i < j < |r| ensures r[i] != r[j] {
      if i == 0 {
        assert r[j] == rt[j - 1];
      } else {
        assert r[i] == rt[i - 1] && r[j] == rt[j - 1];
      }
    }
  }

  /** On a list without duplicates, removing a member removes exactly one
      element and leaves no duplicates. */
  lemma {:induction false} WithoutOnce(us: seq<nat>, v: nat)
    requires NoDuplicates(us)
    ensures NoDuplicates(Without(us, v))
    ensures v in us ==> |Without(us, v)| == |us| - 1
  {
    if |us| > 0 {
      var tail := us[1..];
      NoDuplicatesTail(us);
      WithoutOnce(tail, v);
      if us[0] != v {
        assert Without(us, v) == [us[0]] + Without(tail, v);
        NoDuplicatesCons(us[0], Without(tail, v));
      }
    }
  }

  predicate NoDuplicates(xs: seq<nat>) {
    forall i, j | 0 <= i < j < |xs| :: xs[i] != xs[j]
  }

  /** Room 0 and the rooms joined by the first k connections. */
  function Reached(conns: seq<Connection>, k: nat): set<nat>
    requires k <= |conns|
  {
    {0} + set j | 0 <= j < k :: conns[j].to
  }

  /** Every connection leaves an already reached room for a new one. */
  ghost predicate TreeOrder(conns: seq<Connection>) {
    forall k | 0 <= k < |conns| :: conns[k].from in Reached(conns, k) && conns[k].to !in Reached(conns, k)
  }

  predicate ConnectsRooms(rooms: seq<Room>, conns: seq<Connection>) {
    forall k | 0 <= k < |conns| :: conns[k].from < |rooms| && conns[k].to < |rooms|
  }

  /** Each connection is a closest pair across the cut between reached and
      unreached rooms, among the pairs whose distance is defined. */
  ghost predicate Greedy(rooms: seq<Room>, conns: seq<Connection>)
    requires ConnectsRooms(rooms, conns)
  {
    forall k, c, u |
      && 0 <= k < |conns|
      && 0 <= c < |rooms| && c in Reached(conns, k)
      && 0 <= u < |rooms| && u !in Reached(conns, k)
      && Distance(rooms, c, u).Some? ::
      && Distance(rooms, conns[k].from, conns[k].to).Some?
      && Distance(rooms, conns[k].from, conns[k].to).value <= Distance(rooms, c, u).value
  }

  /** The reached set covers exactly the rooms. */
  ghost predicate Spans(rooms: seq<Room>, conns: seq<Connection>) {
    forall x: nat :: x in Reached(conns, |conns|) <==> x < |rooms|
  }

  /** The rooms in the order they were connected: room 0, then the room
      each connection reaches. */
  function ConnectedOrder(conns: seq<Connection>): (order: seq<nat>)
    ensures |order| == |conns| + 1 && order[0] == 0
    ensures forall j | 0 <= j < |conns| :: order[j + 1] == conns[j].to
  {
    [0] + seq(|conns|, j requires 0 <= j < |conns| => conns[j].to)
  }

  predicate Increasing(xs: seq<nat>) {
    forall i, j | 0 <= i < j < |xs| :: xs[i] < xs[j]
  }

  /** (c, u) is the pair the first-found tie-break picks when the
      connected rooms, in scan order, are cs and the unconnected rooms are
      those below |rooms| outside reached: every pair the scan meets before
      it is undefined or strictly farther. The scan takes connected rooms
      in order and, for each, unconnected rooms by increasing index. */
  predicate FirstPick(rooms: seq<Room>, cs: seq<nat>, reached: set<nat>, c: nat, u: nat)
    requires c < |rooms| && u < |rooms|
  {
    forall i, i', u' |
      && 0 <= i < |cs| && cs[i] == c && 0 <= i' <= i && cs[i'] < |rooms|
      && 0 <= u' < |rooms| && u' !in reached && (i' < i || u' < u)
      && Distance(rooms, cs[i'], u').Some? ::
      Distance(rooms, c, u).Some? && Distance(rooms, c, u).value < Distance(rooms, cs[i'], u').value
  }

  /** Each connection is the first-found pick of its step: the rooms
      connected so far are the first k + 1 of the connection order, and the
      unconnected ones are the rooms not yet reached. */
  ghost predicate FirstFound(rooms: seq<Room>, conns: seq<Connection>)
    requires ConnectsRooms(rooms, conns)
  {
    forall k | 0 <= k < |conns| ::
      FirstPick(rooms, ConnectedOrder(conns)[..k + 1], Reached(conns, k), conns[k].from, conns[k].to)
  }

  /** The first pair of a scan over distinct connected rooms and increasing
      unconnected rooms is a first-found pick. */
  lemma FirstAtPick(rooms: seq<Room>, cs: seq<nat>, us: seq<nat>, reached: set<nat>, i: nat, j: nat, e: Edge)
    requires Indices(rooms, cs) && Indices(rooms, us) && NoDuplicates(cs) && Increasing(us)
    requires forall x: nat :: x in us <==> x < |rooms| && x !in reached
    requires FirstAt(rooms, cs, us, i, j, e)
    ensures e.from < |rooms| && e.to < |rooms| && FirstPick(rooms, cs, reached, e.from, e.to)
  {
    forall i0, i', u' |
      && 0 <= i0 < |cs| && cs[i0] == e.from && 0 <= i' <= i0 && cs[i'] < |rooms|
      && 0 <= u' < |rooms| && u' !in reached && (i' < i0 || u' < e.to)
      && Distance(rooms, cs[i'], u').Some?
      ensures e.distance < Distance(rooms, cs[i'], u').value
    {
      assert i0 == i;
      assert u' in us;
      var j' :| 0 <= j' < |us| && us[j'] == u';
      assert i' == i ==> j' < j;
    }
  }

  lemma ReachedOfExtension(conns: seq<Connection>, e: Connection, k: nat)
    requires k <= |conns|
    ensures Reached(conns + [e], k) == Reached(conns, k)
    ensures Reached(conns + [e], |conns| + 1) == Reached(conns, |conns|) + {e.to}
  {
    var ext := conns + [e];
    assert forall j | 0 <= j < |conns| :: ext[j] == conns[j];
    forall x | x in Reached(ext, |conns| + 1) ensures x in Reached(conns, |conns|) + {e.to} {
      if x != 0 {
        var j :| 0 <= j < |conns| + 1 && ext[j].to == x;
      }
    }
    forall x | x in Reached(conns, |conns|) + {e.to} ensures x in Reached(ext, |conns| + 1) {
      if x == e.to {
        assert ext[|conns|].to == x;
      } else if x != 0 {
        var j :| 0 <= j < |conns| && conns[j].to == x;
        assert ext[j].to == x;
      }
    }
  }

  /** The loop state of `createMinimumSpanningTree`: `connected` holds the
      reached rooms in the order they were reached and `unconnected` the
      others by increasing index, once each, and the connections so far
      follow the first-found tie-break. */
  ghost predicate LoopState(rooms: seq<Room>, connected: seq<nat>, unconnected: seq<nat>, conns: seq<Connection>) {
    LoopCore(rooms, connected, unconnected, conns) && ScanOrder(rooms, connected, unconnected, conns)
  }

  /** The two room lists partition the rooms by whether a greedy tree of
      connections has reached them. */
  ghost predicate LoopCore(rooms: seq<Room>, connected: seq<nat>, unconnected: seq<nat>, conns: seq<Connection>) {
    && Indices(rooms, connected) && Indices(rooms, unconnected)
    && |rooms| > 0
    && ConnectsRooms(rooms, conns)
    && TreeOrder(conns) && Greedy(rooms, conns)
    && (forall x: nat :: x in connected <==> x in Reached(conns, |conns|))
    && (forall x: nat :: x in unconnected <==> x < |rooms| && x !in Reached(conns, |conns|))
    && NoDuplicates(unconnected)
    && |conns| + |unconnected| == |rooms| - 1
  }

  /** The order the scan sees the two lists in, and the tie-break so far. */
  ghost predicate ScanOrder(rooms: seq<Room>, connected: seq<nat>, unconnected: seq<nat>, conns: seq<Connection>) {
    && connected == ConnectedOrder(conns) && NoDuplicates(connected)
    && Increasing(unconnected)
    && ConnectsRooms(rooms, conns) && FirstFound(rooms, conns)
  }

  /** Adding a connection from a reached room c to an unreached room u keeps
      the tree order. */
  lemma ExtendTreeOrder(conns: seq<Connection>, c: nat, u: nat)
    requires TreeOrder(conns)
    requires c in Reached(conns, |conns|) && u !in Reached(conns, |conns|)
    ensures TreeOrder(conns + [Connection(c, u)])
  {
    var e := Connection(c, u);
    var conns' := conns + [e];
    forall k | 0 <= k < |conns'|
      ensures conns'[k].from in Reached(conns', k) && conns'[k].to !in Reached(conns', k)
    {
      ReachedOfExtension(conns, e, k);
    }
  }

  /** Adding a closest cut pair keeps the greedy property. */
  lemma ExtendGreedy(rooms: seq<Room>, conns: seq<Connection>, c: nat, u: nat)
    requires ConnectsRooms(rooms, conns) && Greedy(rooms, conns)
    requires c < |rooms| && u < |rooms|
    requires forall c', u' |
      && 0 <= c' < |rooms| && c' in Reached(conns, |conns|)
      && 0 <= u' < |rooms| && u' !in Reached(conns, |conns|)
      && Distance(rooms, c', u').Some? ::
      Distance(rooms, c, u).Some? && Distance(rooms, c, u).value <= Distance(rooms, c', u').value
    ensures ConnectsRooms(rooms, conns + [Connection(c, u)])
    ensures Greedy(rooms, conns + [Connection(c, u)])
  {
    var e := Connection(c, u);
    var conns' := conns + [e];
    forall k, c', u' |
      && 0 <= k < |conns'|
      && 0 <= c' < |rooms| && c' in Reached(conns', k)
      && 0 <= u' < |rooms| && u' !in Reached(conns', k)
      && Distance(rooms, c', u').Some?
      ensures Distance(rooms, conns'[k].from, conns'[k].to).Some?
      ensures Distance(rooms, conns'[k].from, conns'[k].to).value <= Distance(rooms, c', u').value
    {
      ReachedOfExtension(conns, e, k);
      if k < |conns| {
        assert conns'[k] == conns[k];
      }
    }
  }

  /** The tail of an increasing list is increasing, and its elements all
      exceed the head. */
  lemma IncreasingTail(us: seq<nat>)
    requires |us| > 0 && Increasing(us)
    ensures Increasing(us[1..]) && forall y | y in us[1..] :: us[0] < y
  {
    var tail := us[1..];
    forall i, j | 0 <= i < j < |tail| ensures tail[i] < tail[j] {
      assert tail[i] == us[i + 1] && tail[j] == us[j + 1];
    }
    forall y | y in tail ensures us[0] < y {
      var m :| 0 <= m < |tail| && tail[m] == y;
      assert tail[m] == us[m + 1];
    }
  }

  /** A head below every element of an increasing list keeps it increasing. */
  lemma IncreasingCons(x: nat, rt: seq<nat>)
    requires Increasing(rt) && forall y | y in rt :: x < y
    ensures Increasing([x] + rt)
  {
    var r := [x] + rt;
    forall i, j | 0 <= i < j < |r| ensures r[i] < r[j] {
      assert r[j] == rt[j - 1] && rt[j - 1] in rt;
      if i > 0 {
        assert r[i] == rt[i - 1];
      }
    }
  }

  /** Removing a room keeps a list increasing. */
  lemma {:induction false} WithoutIncreasing(us: seq<nat>, v: nat)
    requires Increasing(us)
    ensures Increasing(Without(us, v))
  {
    if |us| > 0 {
      IncreasingTail(us);
      WithoutIncreasing(us[1..], v);
      if us[0] != v {
        assert Without(us, v) == [us[0]] + Without(us[1..], v);
        IncreasingCons(us[0], Without(us[1..], v));
      }
    }
  }

  /** Appending a connection appends the room it reaches to the order. */
  lemma ConnectedOrderExtension(conns: seq<Connection>, e: Connection)
    ensures ConnectedOrder(conns + [e]) == ConnectedOrder(conns) + [e.to]
  {
    var order, order' := ConnectedOrder(conns), ConnectedOrder(conns + [e]);
    forall i | 0 <= i < |order'| ensures order'[i] == (order + [e.to])[i] {
      if i > 0 {
        assert (conns + [e])[i - 1] == if i - 1 < |conns| then conns[i - 1] else e;
      }
    }
  }

  /** Adding a first-found pick at the next step keeps the tie-break. */
  lemma ExtendFirstFound(rooms: seq<Room>, conns: seq<Connection>, c: nat, u: nat)
    requires ConnectsRooms(rooms, conns) && FirstFound(rooms, conns) && c < |rooms| && u < |rooms|
    requires FirstPick(rooms, ConnectedOrder(conns), Reached(conns, |conns|), c, u)
    ensures ConnectsRooms(rooms, conns + [Connection(c, u)])
    ensures FirstFound(rooms, conns + [Connection(c, u)])
  {
    var e := Connection(c, u);
    var conns' := conns + [e];
    ConnectedOrderExtension(conns, e);
    var order, order' := ConnectedOrder(conns), ConnectedOrder(conns');
    forall k | 0 <= k < |conns'|
      ensures FirstPick(rooms, order'[..k + 1], Reached(conns', k), conns'[k].from, conns'[k].to)
    {
      ReachedOfExtension(conns, e, k);
      if k < |conns| {
        assert order'[..k + 1] == order[..k + 1];
        assert conns'[k] == conns[k];
      } else {
        assert order'[..k + 1] == order;
      }
    }
  }

  /** Adding a pick the tie-break allows keeps the scan order and the
      tie-break in the loop state. */
  lemma ExtendScanOrder(rooms: seq<Room>, connected: seq<nat>, unconnected: seq<nat>, conns: seq<Connection>, c: nat, u: nat)
    requires ScanOrder(rooms, connected, unconnected, conns)
    requires u !in connected && c < |rooms| && u < |rooms|
    requires FirstPick(rooms, connected, Reached(conns, |conns|), c, u)
    ensures ScanOrder(rooms, connected + [u], Without(unconnected, u), conns + [Connection(c, u)])
  {
    ConnectedOrderExtension(conns, Connection(c, u));
    WithoutIncreasing(unconnected, u);
    NoDuplicatesSnoc(connected, u);
    ExtendFirstFound(rooms, conns, c, u);
  }

  /** A new last element outside a list without duplicates leaves none. */
  lemma NoDuplicatesSnoc(xs: seq<nat>, x: nat)
    requires NoDuplicates(xs) && x !in xs
    ensures NoDuplicates(xs + [x])
  {
    var ys := xs + [x];
    forall i, j | 0 <= i < j < |ys| ensures ys[i] != ys[j] {
      assert ys[i] == xs[i];
    }
  }

  /** In a loop state, the scan's pick, or any pair when the scan finds
      none, is one the first-found tie-break allows. */
  lemma ClosestPick(rooms: seq<Room>, cs: seq<nat>, us: seq<nat>, conns: seq<Connection>, c: nat, u: nat)
    requires LoopState(rooms, cs, us, conns)
    requires c < |rooms| && u < |rooms|
    requires Closest(rooms, cs, us).Some? ==> Closest(rooms, cs, us).value.from == c && Closest(rooms, cs, us).value.to == u
    ensures FirstPick(rooms, cs, Reached(conns, |conns|), c, u)
  {
    var r := Closest(rooms, cs, us);
    if r.Some? {
      var i: nat, j: nat :| FirstAt(rooms, cs, us, i, j, r.value);
      FirstAtPick(rooms, cs, us, Reached(conns, |conns|), i, j, r.value);
    }
  }

  /** Adding a connection from a connected room c to an unconnected room u
      that is a closest cut pair keeps the loop state. */
  lemma ExtendLoopState(rooms: seq<Room>, connected: seq<nat>, unconnected: seq<nat>, conns: seq<Connection>, c: nat, u: nat)
    requires LoopState(rooms, connected, unconnected, conns)
    requires c in connected && u in unconnected
    requires forall c', u' | c' in connected && u' in unconnected && Distance(rooms, c', u').Some? ::
      Distance(rooms, c, u).Some? && Distance(rooms, c, u).value <= Distance(rooms, c', u').value
    requires FirstPick(rooms, connected, Reached(conns, |conns|), c, u)
    ensures LoopState(rooms, connected + [u], Without(unconnected, u), conns + [Connection(c, u)])
  {
    ExtendLoopCore(rooms, connected, unconnected, conns, c, u);
    assert u !in connected && c < |rooms| && u < |rooms|;
    ExtendScanOrder(rooms, connected, unconnected, conns, c, u);
  }

  /** Adding a closest cut pair keeps the partition and the greedy tree. */
  lemma ExtendLoopCore(rooms: seq<Room>, connected: seq<nat>, unconnected: seq<nat>, conns: seq<Connection>, c: nat, u: nat)
    requires LoopCore(rooms, connected, unconnected, conns)
    requires c in connected && u in unconnected
    requires forall c', u' | c' in connected && u' in unconnected && Distance(rooms, c', u').Some? ::
      Distance(rooms, c, u).Some? && Distance(rooms, c, u).value <= Distance(rooms, c', u').value
    ensures LoopCore(rooms, connected + [u], Without(unconnected, u), conns + [Connection(c, u)])
  {
    var e := Connection(c, u);
    var conns' := conns + [e];
    ReachedOfExtension(conns, e, |conns|);
    ExtendTreeOrder(conns, c, u);
    forall c', u' |
      && 0 <= c' < |rooms| && c' in Reached(conns, |conns|)
      && 0 <= u' < |rooms| && u' !in Reached(conns, |conns|)
      && Distance(rooms, c', u').Some?
      ensures Distance(rooms, c, u).Some? && Distance(rooms, c, u).value <= Distance(rooms, c', u').value
    {
      assert c' in connected && u' in unconnected;
    }
    ExtendGreedy(rooms, conns, c, u);
    WithoutOnce(unconnected, u);
    var connected', unconnected' := connected + [u], Without(unconnected, u);
    forall i | 0 <= i < |unconnected'| ensures unconnected'[i] < |rooms| {
      assert unconnected'[i] in unconnected;
    }
    assert forall x: nat :: x in connected' <==> x in Reached(conns', |conns'|);
    assert forall x: nat :: x in unconnected' <==> x < |rooms| && x !in Reached(conns', |conns'|);
    assert |conns'| + |unconnected'| == |rooms| - 1;
  }

  /** One pass of the growth loop: joining the scan's pick, or, when it
      finds none, any connected room to an unconnected one, keeps the loop
      state and shortens the unconnected list. */
  lemma GrowStep(rooms: seq<Room>, connected: seq<nat>, unconnected: seq<nat>, conns: seq<Connection>, c: nat, u: nat)
    requires LoopState(rooms, connected, unconnected, conns)
    requires c in connected && u in unconnected
    requires Closest(rooms, connected, unconnected).Some? ==>
      Closest(rooms, connected, unconnected).value.from == c && Closest(rooms, connected, unconnected).value.to == u
    ensures LoopState(rooms, connected + [u], Without(unconnected, u), conns + [Connection(c, u)])
    ensures |Without(unconnected, u)| < |unconnected|
  {
    ClosestPick(rooms, connected, unconnected, conns, c, u);
    ExtendLoopState(rooms, connected, unconnected, conns, c, u);
  }

  /** When no room is left unconnected, the connections form a greedy,
      first-found tree over all rooms. */
  lemma LoopDone(rooms: seq<Room>, connected: seq<nat>, unconnected: seq<nat>, conns: seq<Connection>)
    requires LoopState(rooms, connected, unconnected, conns) && |unconnected| == 0
    ensures |conns| == |rooms| - 1
    ensures ConnectsRooms(rooms, conns) && TreeOrder(conns) && Greedy(rooms, conns)
    ensures Spans(rooms, conns) && FirstFound(rooms, conns)
  {
  }

  /** The connection one pass of the growth loop adds, with the state after
      it: the scan's pick when it finds a pair with a defined distance, and
      otherwise the first unconnected room joined to the connected room at
      a drawn position. */
  function Pick(rooms: seq<Room>, s: nat, connected: seq<nat>, unconnected: seq<nat>, conns: seq<Connection>)
    : (r: Drawn<Connection>)
    requires LoopState(rooms, connected, unconnected, conns)
    requires |connected| > 0 && |unconnected| > 0
    ensures r.value.from in connected && r.value.to in unconnected
    ensures var best := Closest(rooms, connected, unconnected);
      && (best.Some? ==> r.value == Connection(best.value.from, best.value.to) && r.rng == s)
      && (best.None? ==> r.value.to == unconnected[0] && r.rng == Next(s))
  {
    var best := Closest(rooms, connected, unconnected);
    if best.Some? then
      Drawn(Connection(best.value.from, best.value.to), s)
    else
      var k := NextInt(s, 0, |connected| - 1);
      Drawn(Connection(connected[k.value], unconnected[0]), k.rng)
  }

  /** The growth loop, run while rooms remain unconnected. Each pass adds
      the connection `Pick` chooses. */
  function Grow(rooms: seq<Room>, s: nat, connected: seq<nat>, unconnected: seq<nat>, conns: seq<Connection>)
    : (r: Drawn<seq<Connection>>)
    requires LoopState(rooms, connected, unconnected, conns)
    requires |connected| > 0
    ensures conns <= r.value
    ensures |r.value| == |rooms| - 1
    ensures ConnectsRooms(rooms, r.value) && TreeOrder(r.value) && Greedy(rooms, r.value)
    ensures Spans(rooms, r.value) && FirstFound(rooms, r.value)
    decreases |unconnected|
  {
    if |unconnected| == 0 then
      LoopDone(rooms, connected, unconnected, conns);
      Drawn(conns, s)
    else
      var p := Pick(rooms, s, connected, unconnected, conns);
      var e := p.value;
      GrowStep(rooms, connected, unconnected, conns, e.from, e.to);
      Grow(rooms, p.rng, connected + [e.to], Without(unconnected, e.to), conns + [e])
  }

  /** `createMinimumSpanningTree`: with n >= 1 rooms, n - 1 connections that
      grow a tree from room 0 over all rooms, each a closest cut pair. */
  function MinimumSpanningTree(rooms: seq<Room>, s: nat): (r: Drawn<seq<Connection>>)
    requires IdsAreIndices(rooms)
    ensures |rooms| == 0 ==> r.value == []
    ensures |rooms| >= 1 ==> |r.value| == |rooms| - 1
    ensures ConnectsRooms(rooms, r.value) && TreeOrder(r.value) && Greedy(rooms, r.value)
    ensures |rooms| >= 1 ==> Spans(rooms, r.value)
    ensures FirstFound(rooms, r.value)
  {
    if |rooms| == 0 then
      Drawn([], s)
    else
      var unconnected := seq(|rooms| - 1, i requires 0 <= i < |rooms| - 1 => rooms[i + 1].id);
      assert forall x: nat :: x in unconnected <==> 1 <= x < |rooms| by {
        forall x | 1 <= x < |rooms| ensures x in unconnected {
          assert unconnected[x - 1] == x;
        }
      }
      assert Reached([], 0) == {0};
      assert NoDuplicates(unconnected) && Increasing(unconnected);
      assert ConnectedOrder([]) == [0];
      forall x: nat ensures x in unconnected <==> x < |rooms| && x !in Reached([], 0) {
        assert x in Reached([], 0) <==> x == 0;
      }
      assert LoopState(rooms, [0], unconnected, []);
      Grow(rooms, s, [0], unconnected, [])
  }

  /** Rooms a and b are the two ends of some connection. */
  predicate Joined(conns: seq<Connection>, a: nat, b: nat) {
    exists k | 0 <= k < |conns| ::
      (conns[k].from == a && conns[k].to == b) || (conns[k].from == b && conns[k].to == a)
  }

  ghost predicate IsRoomWalk(conns: seq<Connection>, walk: seq<nat>) {
    |walk| >= 1 && forall i | 0 <= i < |walk| - 1 :: Joined(conns, walk[i], walk[i + 1])
  }

  /** A walk along the connections from room 0 to a room reached by the
      first k of them. */
  ghost function WalkFromRoot(conns: seq<Connection>, v: nat, k: nat): (walk: seq<nat>)
    requires k <= |conns| && TreeOrder(conns) && v in Reached(conns, k)
    ensures IsRoomWalk(conns, walk) && walk[0] == 0 && walk[|walk| - 1] == v
    decreases k
  {
    if v == 0 then [0]
    else
      var j :| 0 <= j < k && conns[j].to == v;
      var w := WalkFromRoot(conns, conns[j].from, j);
      assert Joined(conns, w[|w| - 1], v);
      w + [v]
  }

  /** Every room is reachable from room 0 through the connections. */
  lemma EveryRoomReachable(rooms: seq<Room>, s: nat, v: nat)
    requires IdsAreIndices(rooms) && v < |rooms|
    ensures exists walk :: IsRoomWalk(MinimumSpanningTree(rooms, s).value, walk) && walk[0] == 0 && walk[|walk| - 1] == v
  {
    var conns := MinimumSpanningTree(rooms, s).value;
    var walk := WalkFromRoot(conns, v, |conns|);
  }
}
