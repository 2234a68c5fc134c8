/** The protocol by which connections share chunks: joining, moving, updating
  * the view and leaving, as steps on the loaded chunks and the connections. */
module Views {
  import opened Bytes
  import opened Coords
  import opened World

  // ---- connections --------------------------------------------------------------------

  /** A connection in the play state. client holds what it was sent and not told
    * to unload. */
  datatype Conn =
    Conn(x: real, z: real, viewDistance: nat, requesting: bool, oldX: int, oldZ: int, client: multiset<Coord>)

  /** Conversion of a double to int. */
  function Trunc(x: real): int {
    if x >= 0.0 then x.Floor else -((-x).Floor)
  }

  function ChunkOf(x: real): int { CoordToChunk(Trunc(x)) }

  function CurrentView(c: Conn): View { View(ChunkOf(c.x), ChunkOf(c.z), c.viewDistance) }

  function OldView(c: Conn): View { View(c.oldX, c.oldZ, c.viewDistance) }

  /** The view whose chunks the connection is counted in. */
  function Counted(c: Conn): View { if c.requesting then OldView(c) else CurrentView(c) }

  function Crosses(c: Conn, x: real, z: real): bool {
    ChunkOf(c.x) != ChunkOf(x) || ChunkOf(c.z) != ChunkOf(z)
  }

  /** conn_update_view_position_if_needed and the assignment that follows it. */
  function Moved(c: Conn, x: real, z: real): Conn {
    (if Crosses(c, x, z) then c.(requesting := true, oldX := ChunkOf(c.x), oldZ := ChunkOf(c.z)) else c)
    .(x := x, z := z)
  }

  // ---- chunks as intervals -----------------------------------------------------------------

  /** The positions on one axis that belong to chunk c: 16 blocks each, but that the
    * conversion to int takes everything between -1 and 0 into chunk 0 and shifts the
    * chunks below by as much. */
  predicate InChunk(x: real, c: int) {
    var low := 16.0 * c as real;
    if c > 0 then low <= x < low + 16.0
    else if c == 0 then -1.0 < x < 16.0
    else low - 1.0 < x <= low + 15.0
  }

  lemma {:induction false} TruncIs(x: real, n: int)
    ensures Trunc(x) == n
       <==> if n > 0 then n as real <= x < n as real + 1.0
            else if n == 0 then -1.0 < x < 1.0
            else n as real - 1.0 < x <= n as real
  {
    if x >= 0.0 {
      FloorIs(x, n);
    } else {
      FloorIs(-x, -n);
    }
  }

  lemma {:induction false} FloorIs(x: real, n: int)
    ensures x.Floor == n <==> n as real <= x < n as real + 1.0
  {
  }

  lemma {:induction false} ChunkIsInterval(x: real, c: int)
    ensures ChunkOf(x) == c <==> InChunk(x, c)
  {
    var n := Trunc(x);
    TruncIs(x, n);
    hide Trunc;
    ScaleIsFloor(n);
    assert ChunkOf(x) == c <==> 16 * c <= n <= 16 * c + 15;
    assert (16 * c) as real == 16.0 * c as real;
    assert (16 * c + 15) as real == 16.0 * c as real + 15.0;
  }

  /** A move asks for a new view, from the chunk it started in, exactly when it leaves that
    * chunk; otherwise a request stays as it was. */
  lemma {:induction false} MoveRequests(c: Conn, a: int, b: int, x: real, z: real)
    requires InChunk(c.x, a) && InChunk(c.z, b)
    ensures var m := Moved(c, x, z);
      && m.x == x && m.z == z && m.viewDistance == c.viewDistance && m.client == c.client
      && if InChunk(x, a) && InChunk(z, b) then (m.requesting, m.oldX, m.oldZ) == (c.requesting, c.oldX, c.oldZ)
         else (m.requesting, m.oldX, m.oldZ) == (true, a, b)
  {
    hide ChunkOf, InChunk;
    ChunkIsInterval(c.x, a);
    ChunkIsInterval(c.z, b);
    ChunkIsInterval(x, a);
    ChunkIsInterval(z, b);
  }

  /** Half a block over the zero line is no crossing, one block over it is. */
  lemma {:induction false} AcrossZero(c: Conn)
    requires c.x == 0.5 && c.z == 0.5
    ensures Moved(c, -0.5, 0.5) == c.(x := -0.5)
    ensures Moved(c, -1.0, 0.5) == c.(x := -1.0, requesting := true, oldX := 0, oldZ := 0)
  {
    MoveRequests(c, 0, 0, -0.5, 0.5);
    MoveRequests(c, 0, 0, -1.0, 0.5);
  }

  /** The view of a player who stands in chunk a, b: the square around that chunk. */
  lemma {:induction false} ViewAround(c: Conn, a: int, b: int, x: int, z: int)
    requires InChunk(c.x, a) && InChunk(c.z, b)
    ensures Contains(CurrentView(c), x, z)
       <==> a - c.viewDistance <= x <= a + c.viewDistance && b - c.viewDistance <= z <= b + c.viewDistance
  {
    hide ChunkOf, InChunk;
    ChunkIsInterval(c.x, a);
    ChunkIsInterval(c.z, b);
  }

  // ---- the steps on the loaded chunks ------------------------------------------------------

  function Players(m: map<Coord, int>, x: int, z: int): int {
    if (x, z) in m then m[(x, z)] else 0
  }

  /** What world_chunk_dec_players makes of a chunk. */
  function Released(o: Option<int>): Option<int> {
    match o
    case None => None
    case Some(n) => if n == 1 then None else Some(n - 1)
  }

  ghost predicate JoinStep(m: map<Coord, int>, m': map<Coord, int>, v: View) {
    forall x, z :: At(m', x, z) == if Contains(v, x, z) then Some(Players(m, x, z) + 1) else At(m, x, z)
  }

  ghost predicate UpdateStep(m: map<Coord, int>, m': map<Coord, int>, old_: View, new_: View) {
    forall x, z :: At(m', x, z) ==
      if Contains(new_, x, z) then Some(Players(m, x, z) + if Contains(old_, x, z) then 0 else 1)
      else if Contains(old_, x, z) then Released(At(m, x, z))
      else At(m, x, z)
  }

  ghost predicate LeaveStep(m: map<Coord, int>, m': map<Coord, int>, v: View) {
    forall x, z :: At(m', x, z) == if Contains(v, x, z) then Released(At(m, x, z)) else At(m, x, z)
  }

  /** The chunks sent and unloaded while the view goes from old_ to new_. */
  ghost predicate ClientStep(cl: multiset<Coord>, cl': multiset<Coord>, old_: View, new_: View) {
    forall x, z :: cl'[(x, z)] ==
      if Contains(new_, x, z) then cl[(x, z)] + (if Contains(old_, x, z) then 0 else 1)
      else if Contains(old_, x, z) && cl[(x, z)] > 0 then cl[(x, z)] - 1
      else cl[(x, z)]
  }

  // ---- the invariant -------------------------------------------------------------------------

  type Conns = map<int, Conn>

  function ViewerSet(conns: Conns, x: int, z: int): set<int> {
    set id | id in conns && Contains(Counted(conns[id]), x, z)
  }

  function Viewers(conns: Conns, x: int, z: int): nat { |ViewerSet(conns, x, z)| }

  /** A chunk is loaded exactly when some counted view contains it, and then its
    * player count is the number of such views. */
  ghost predicate CountsExact(m: map<Coord, int>, conns: Conns) {
    forall x, z :: At(m, x, z) == if Viewers(conns, x, z) > 0 then Some(Viewers(conns, x, z)) else None
  }

  /** Sent minus unloaded is the counted view, each chunk once. */
  ghost predicate ClientExact(c: Conn) {
    forall x, z :: c.client[(x, z)] == if Contains(Counted(c), x, z) then 1 else 0
  }

  ghost predicate Inv(m: map<Coord, int>, conns: Conns) {
    CountsExact(m, conns) && forall id | id in conns :: ClientExact(conns[id])
  }

  /** The assertion at the start of server_update_view. */
  ghost predicate PendingMoved(c: Conn) {
    c.requesting ==> ChunkOf(c.x) != c.oldX || ChunkOf(c.z) != c.oldZ
  }

  lemma {:induction false} SplitViewers(conns: Conns, id: int, x: int, z: int)
    requires id in conns
    ensures Viewers(conns, x, z)
         == Viewers(conns - {id}, x, z) + if Contains(Counted(conns[id]), x, z) then 1 else 0
  {
    var all, rest := ViewerSet(conns, x, z), ViewerSet(conns - {id}, x, z);
    assert rest == all - {id};
  }

  lemma {:induction false} ReplaceViewer(conns: Conns, id: int, c: Conn, x: int, z: int)
    ensures Viewers(conns[id := c], x, z)
         == Viewers(conns - {id}, x, z) + if Contains(Counted(c), x, z) then 1 else 0
  {
    SplitViewers(conns[id := c], id, x, z);
    assert conns[id := c] - {id} == conns - {id};
  }

  lemma {:induction false} NewViewer(conns: Conns, id: int)
    requires id !in conns
    ensures conns - {id} == conns
  {
  }

  // ---- every step keeps it -------------------------------------------------------------------

  lemma {:induction false} JoinKeeps(m: map<Coord, int>, m': map<Coord, int>, conns: Conns, id: int, c: Conn)
    requires Inv(m, conns) && id !in conns
    requires JoinStep(m, m', Counted(c)) && ClientExact(c)
    ensures Inv(m', conns[id := c])
  {
    NewViewer(conns, id);
    forall x, z ensures At(m', x, z)
      == (var n := Viewers(conns[id := c], x, z); if n > 0 then Some(n) else None)
    {
      ReplaceViewer(conns, id, c, x, z);
    }
  }

  lemma {:induction false} UpdateKeeps(m: map<Coord, int>, m': map<Coord, int>, conns: Conns, id: int, c: Conn)
    requires Inv(m, conns) && id in conns
    requires UpdateStep(m, m', Counted(conns[id]), Counted(c))
    requires ClientStep(conns[id].client, c.client, Counted(conns[id]), Counted(c))
    ensures Inv(m', conns[id := c])
  {
    assert ClientExact(conns[id]);
    forall x, z ensures At(m', x, z)
      == (var n := Viewers(conns[id := c], x, z); if n > 0 then Some(n) else None)
    {
      SplitViewers(conns, id, x, z);
      ReplaceViewer(conns, id, c, x, z);
    }
  }

  lemma {:induction false} LeaveKeeps(m: map<Coord, int>, m': map<Coord, int>, conns: Conns, id: int)
    requires Inv(m, conns) && id in conns && LeaveStep(m, m', Counted(conns[id]))
    ensures Inv(m', conns - {id})
  {
    forall x, z ensures At(m', x, z)
      == (var n := Viewers(conns - {id}, x, z); if n > 0 then Some(n) else None)
    {
      SplitViewers(conns, id, x, z);
    }
  }

  /** Two views of one size with different centres differ in some chunk. */
  lemma {:induction false} ViewsDiffer(v: View, w: View) returns (x: int, z: int)
    requires v.size == w.size && v != w
    ensures Contains(v, x, z) && !Contains(w, x, z)
  {
    x := if v.x >= w.x then v.x + v.size else v.x - v.size;
    z := if v.z >= w.z then v.z + v.size else v.z - v.size;
  }

  /** A move keeps the invariant exactly when it is not a second crossing before
    * the view was updated: then the recorded old chunk is overwritten. */
  lemma {:induction false} MoveKeepsIff(m: map<Coord, int>, conns: Conns, id: int, x: real, z: real)
    requires Inv(m, conns) && id in conns && PendingMoved(conns[id])
    ensures Inv(m, conns[id := Moved(conns[id], x, z)])
       <==> !(conns[id].requesting && Crosses(conns[id], x, z))
  {
    var c, c' := conns[id], Moved(conns[id], x, z);
    if c.requesting && Crosses(c, x, z) {
      assert Counted(c) != Counted(c');
      var a, b := ViewsDiffer(Counted(c), Counted(c'));
      SplitViewers(conns, id, a, b);
      ReplaceViewer(conns, id, c', a, b);
      assert At(m, a, b) != (var n := Viewers(conns[id := c'], a, b); if n > 0 then Some(n) else None);
    } else {
      assert Counted(c) == Counted(c');
      assert ClientExact(c) && ClientExact(c');
      forall a, b ensures Viewers(conns[id := c'], a, b) == Viewers(conns, a, b) {
        SplitViewers(conns, id, a, b);
        ReplaceViewer(conns, id, c', a, b);
      }
    }
  }

  /** Leaving by the current position keeps it exactly when no request is pending. */
  lemma {:induction false} LeaveKeepsIff(m: map<Coord, int>, m': map<Coord, int>, conns: Conns, id: int)
    requires Inv(m, conns) && id in conns && PendingMoved(conns[id])
    requires LeaveStep(m, m', CurrentView(conns[id]))
    ensures Inv(m', conns - {id}) <==> !conns[id].requesting
  {
    if conns[id].requesting {
      var a, b := ViewsDiffer(OldView(conns[id]), CurrentView(conns[id]));
      SplitViewers(conns, id, a, b);
      assert At(m', a, b) == At(m, a, b) == Some(Viewers(conns, a, b));
      assert At(m', a, b) != (var n := Viewers(conns - {id}, a, b); if n > 0 then Some(n) else None);
    } else {
      LeaveKeeps(m, m', conns, id);
    }
  }

  /** A connection given up is counted in its view for good. */
  lemma {:induction false} DropBreaks(m: map<Coord, int>, conns: Conns, id: int)
    requires Inv(m, conns) && id in conns
    ensures !Inv(m, conns - {id})
  {
    var v := Counted(conns[id]);
    SplitViewers(conns, id, v.x, v.z);
    assert At(m, v.x, v.z) != (var n := Viewers(conns - {id}, v.x, v.z); if n > 0 then Some(n) else None);
  }

  /** In every run at all, a pending request means the chunk changed. */
  lemma {:induction false} MoveKeepsPending(c: Conn, x: real, z: real)
    requires PendingMoved(c)
    ensures PendingMoved(Moved(c, x, z))
  {
  }

  // ---- whole runs ------------------------------------------------------------------------------

  datatype State = State(m: map<Coord, int>, conns: Conns)

  datatype Event =
    | Join(id: int, spawnX: nat, spawnZ: nat, viewDistance: nat)
    | Move(id: int, x: real, z: real)
    | Update(id: int)
    | Leave(id: int)
    /** A connection given up after an error, without server_end_play. */
    | Drop(id: int)

  ghost predicate Step(s: State, e: Event, s': State) {
    match e
    case Join(id, x, z, d) =>
      && id !in s.conns && id in s'.conns && s'.conns == s.conns[id := s'.conns[id]]
      && (var c := s'.conns[id];
          && c == Conn(x as real, z as real, d, false, CoordToChunk(x), CoordToChunk(z), c.client)
          && ClientExact(c) && JoinStep(s.m, s'.m, CurrentView(c)))
    case Move(id, x, z) =>
      id in s.conns && s' == s.(conns := s.conns[id := Moved(s.conns[id], x, z)])
    case Update(id) =>
      && id in s.conns && s.conns[id].requesting && id in s'.conns && s'.conns == s.conns[id := s'.conns[id]]
      && (var c, c' := s.conns[id], s'.conns[id];
          && c' == c.(requesting := false, client := c'.client)
          && UpdateStep(s.m, s'.m, OldView(c), CurrentView(c))
          && ClientStep(c.client, c'.client, OldView(c), CurrentView(c)))
    case Leave(id) =>
      && id in s.conns && s'.conns == s.conns - {id}
      && LeaveStep(s.m, s'.m, CurrentView(s.conns[id]))
    case Drop(id) => id in s.conns && s' == s.(conns := s.conns - {id})
  }

  /** A player who joins is sent each chunk that is at most the view distance away from the
    * one of the spawn, once, and is counted in it. */
  lemma {:induction false} JoinSends(s: State, id: int, spawnX: nat, spawnZ: nat, d: nat, s': State, x: int, z: int)
    requires Step(s, Join(id, spawnX, spawnZ, d), s')
    ensures var near := 16 * (x - d) <= spawnX < 16 * (x + d) + 16 && 16 * (z - d) <= spawnZ < 16 * (z + d) + 16;
      && s'.conns[id].client[(x, z)] == (if near then 1 else 0)
      && At(s'.m, x, z) == if near then Some(Players(s.m, x, z) + 1) else At(s.m, x, z)
    ensures InChunk(s'.conns[id].x, spawnX / 16) && InChunk(s'.conns[id].z, spawnZ / 16)
  {
    hide JoinStep, ClientExact, ChunkOf, InChunk, Contains;
    var c := s'.conns[id];
    SpawnChunk(spawnX);
    SpawnChunk(spawnZ);
    ViewAround(c, spawnX / 16, spawnZ / 16, x, z);
    JoinedAt(s.m, s'.m, c, x, z);
  }

  lemma {:induction false} SpawnChunk(spawn: nat)
    ensures InChunk(spawn as real, spawn / 16)
  {
    var c := spawn / 16;
    assert 16 * c <= spawn < 16 * c + 16;
    assert (16 * c) as real == 16.0 * c as real;
  }

  lemma {:induction false} JoinedAt(m: map<Coord, int>, m': map<Coord, int>, c: Conn, x: int, z: int)
    requires JoinStep(m, m', CurrentView(c)) && ClientExact(c) && !c.requesting
    ensures At(m', x, z) == if Contains(CurrentView(c), x, z) then Some(Players(m, x, z) + 1) else At(m, x, z)
    ensures c.client[(x, z)] == if Contains(CurrentView(c), x, z) then 1 else 0
  {
    hide CurrentView, Contains;
  }

  /** What a step may not do if the counts are to stay exact: cross a second time
    * before the view is updated, leave before it is, or give up a connection. */
  predicate InDomain(s: State, e: Event) {
    match e
    case Move(id, x, z) => id in s.conns ==> !(s.conns[id].requesting && Crosses(s.conns[id], x, z))
    case Leave(id) => id in s.conns ==> !s.conns[id].requesting
    case Drop(id) => id !in s.conns
    case _ => true
  }

  ghost predicate AllPendingMoved(conns: Conns) {
    forall id | id in conns :: PendingMoved(conns[id])
  }

  /** Steps of any kind, in any order and by any connections, from the empty server. */
  ghost predicate Run(ss: seq<State>, es: seq<Event>) {
    && |ss| == |es| + 1 && ss[0] == State(map[], map[])
    && forall k | 0 <= k < |es| :: Step(ss[k], es[k], ss[k + 1])
  }

  lemma {:induction false} StepKeepsPending(s: State, e: Event, s': State)
    requires Step(s, e, s') && AllPendingMoved(s.conns)
    ensures AllPendingMoved(s'.conns)
  {
    if e.Move? {
      MoveKeepsPending(s.conns[e.id], e.x, e.z);
    }
  }

  lemma {:induction false} StepKeepsIff(s: State, e: Event, s': State)
    requires Step(s, e, s') && AllPendingMoved(s.conns) && Inv(s.m, s.conns)
    ensures Inv(s'.m, s'.conns) <==> InDomain(s, e)
  {
    hide Inv, JoinStep, UpdateStep, LeaveStep, ClientStep;
    match e
    case Join(id, x, z, d) => JoinKeeps(s.m, s'.m, s.conns, id, s'.conns[id]);
    case Move(id, x, z) => MoveKeepsIff(s.m, s.conns, id, x, z);
    case Update(id) => UpdateKeeps(s.m, s'.m, s.conns, id, s'.conns[id]);
    case Leave(id) => LeaveKeepsIff(s.m, s'.m, s.conns, id);
    case Drop(id) => DropBreaks(s.m, s.conns, id);
  }

  /** In every run at all, the assertion of server_update_view holds. */
  lemma {:induction false} RunKeepsPending(ss: seq<State>, es: seq<Event>, k: nat)
    requires Run(ss, es) && k < |ss|
    ensures AllPendingMoved(ss[k].conns)
  {
    if k > 0 {
      RunKeepsPending(ss, es, k - 1);
      StepKeepsPending(ss[k - 1], es[k - 1], ss[k]);
    }
  }

  /** The player counts and what the clients hold are exact throughout a run,
    * exactly when every one of its steps is in the domain. */
  lemma {:induction false} RunExactIff(ss: seq<State>, es: seq<Event>)
    requires Run(ss, es)
    ensures (forall k | 0 <= k < |ss| :: Inv(ss[k].m, ss[k].conns))
       <==> (forall k | 0 <= k < |es| :: InDomain(ss[k], es[k]))
  {
    if forall k | 0 <= k < |ss| :: Inv(ss[k].m, ss[k].conns) {
      forall k | 0 <= k < |es| ensures InDomain(ss[k], es[k]) {
        RunKeepsPending(ss, es, k);
        StepKeepsIff(ss[k], es[k], ss[k + 1]);
      }
    } else if forall k | 0 <= k < |es| :: InDomain(ss[k], es[k]) {
      forall k | 0 <= k < |ss| ensures Inv(ss[k].m, ss[k].conns) {
        InvAt(ss, es, k);
      }
    }
  }

  lemma {:induction false} InvAt(ss: seq<State>, es: seq<Event>, k: nat)
    requires Run(ss, es) && k < |ss|
    requires forall i | 0 <= i < |es| :: InDomain(ss[i], es[i])
    ensures Inv(ss[k].m, ss[k].conns)
  {
    hide Step, InDomain;
    if k == 0 {
      assert forall x, z :: ViewerSet(map[], x, z) == {};
    } else {
      InvAt(ss, es, k - 1);
      RunKeepsPending(ss, es, k - 1);
      StepKeepsIff(ss[k - 1], es[k - 1], ss[k]);
    }
  }

  lemma {:induction false} SomeViewer(conns: Conns, x: int, z: int)
    ensures Viewers(conns, x, z) > 0 <==> exists i :: i in conns && Contains(Counted(conns[i]), x, z)
  {
    hide Contains, Counted;
    var viewers := ViewerSet(conns, x, z);
    if i :| i in conns && Contains(Counted(conns[i]), x, z) {
      assert i in viewers;
    } else {
      forall i ensures i !in viewers {
      }
    }
  }

  /** No chunk in a live view has been freed, each client holds the chunks of its
    * counted view once, and a chunk nobody views is not loaded. */
  lemma {:induction false} ExactMeans(s: State, id: int, x: int, z: int)
    requires Inv(s.m, s.conns)
    ensures (x, z) in s.m <==> exists i :: i in s.conns && Contains(Counted(s.conns[i]), x, z)
    ensures id in s.conns && Contains(Counted(s.conns[id]), x, z) ==> (x, z) in s.m && s.m[(x, z)] >= 1
    ensures id in s.conns && !s.conns[id].requesting ==>
        s.conns[id].client[(x, z)] == if Contains(CurrentView(s.conns[id]), x, z) then 1 else 0
  {
    assert At(s.m, x, z) == if Viewers(s.conns, x, z) > 0 then Some(Viewers(s.conns, x, z)) else None;
    SomeViewer(s.conns, x, z);
    if id in s.conns {
      assert ClientExact(s.conns[id]);
      if Contains(Counted(s.conns[id]), x, z) {
        assert id in ViewerSet(s.conns, x, z);
      }
    }
  }

  // ---- runs that leave the domain ----------------------------------------------------------------

  /** A player alone on a server, who sees one chunk. */
  const JOINED := Conn(0.0, 0.0, 0, false, 0, 0, multiset{(0, 0)})

  const ALONE := State(map[(0, 0) := 1], map[1 := JOINED])

  lemma {:induction false} AloneStep()
    ensures Step(State(map[], map[]), Join(1, 0, 0, 0), ALONE)
    ensures Moved(JOINED, 16.0, 0.0) == JOINED.(x := 16.0, requesting := true)
  {
    assert CoordToChunk(0) == 0 && CoordToChunk(16) == 1;
    assert Trunc(0.0) == 0 && Trunc(16.0) == 16;
    forall x, z ensures Contains(View(0, 0, 0), x, z) <==> (x, z) == (0, 0) {
    }
  }

  /** Two chunk borders crossed before the view is updated: the first chunk is still
    * counted, but for a view that is no longer recorded. */
  lemma {:induction false} CrossingTwice() returns (ss: seq<State>)
    ensures Run(ss, [Join(1, 0, 0, 0), Move(1, 16.0, 0.0), Move(1, 32.0, 0.0)])
    ensures !Inv(ss[3].m, ss[3].conns)
  {
    var once := Moved(JOINED, 16.0, 0.0);
    var twice := Moved(once, 32.0, 0.0);
    var s2, s3 := ALONE.(conns := map[1 := once]), ALONE.(conns := map[1 := twice]);
    ss := [State(map[], map[]), ALONE, s2, s3];
    AloneStep();
    assert ALONE.conns[1 := once] == s2.conns && s2.conns[1 := twice] == s3.conns;
    assert Step(ALONE, Move(1, 16.0, 0.0), s2) && Step(s2, Move(1, 32.0, 0.0), s3);
    assert Trunc(32.0) == 32 && CoordToChunk(32) == 2 && Trunc(16.0) == 16 && CoordToChunk(16) == 1;
    assert Counted(twice) == View(1, 0, 0);
    assert ViewerSet(s3.conns, 0, 0) == {};
    assert At(s3.m, 0, 0) == Some(1);
  }

  /** A player leaves with an update pending: the chunk stays, for nobody. */
  lemma {:induction false} LeavingWhilePending() returns (ss: seq<State>)
    ensures Run(ss, [Join(1, 0, 0, 0), Move(1, 16.0, 0.0), Leave(1)])
    ensures !Inv(ss[3].m, ss[3].conns)
  {
    var once := Moved(JOINED, 16.0, 0.0);
    var s2, s3 := ALONE.(conns := map[1 := once]), ALONE.(conns := map[]);
    ss := [State(map[], map[]), ALONE, s2, s3];
    AloneStep();
    assert ALONE.conns[1 := once] == s2.conns && s2.conns - {1} == s3.conns;
    assert Step(ALONE, Move(1, 16.0, 0.0), s2);
    assert Trunc(16.0) == 16 && CoordToChunk(16) == 1 && Trunc(0.0) == 0 && CoordToChunk(0) == 0;
    assert CurrentView(once) == View(1, 0, 0);
    assert Step(s2, Leave(1), s3);
    assert ViewerSet(s3.conns, 0, 0) == {};
    assert At(s3.m, 0, 0) == Some(1);
  }

  /** A connection is given up after an error: the chunk stays, too. */
  lemma {:induction false} GivenUp() returns (ss: seq<State>)
    ensures Run(ss, [Join(1, 0, 0, 0), Drop(1)])
    ensures !Inv(ss[2].m, ss[2].conns)
  {
    var s2 := ALONE.(conns := map[]);
    ss := [State(map[], map[]), ALONE, s2];
    AloneStep();
    assert ALONE.conns - {1} == map[];
    assert Step(ALONE, Drop(1), s2);
    assert ViewerSet(s2.conns, 0, 0) == {};
    assert At(s2.m, 0, 0) == Some(1);
  }
}
