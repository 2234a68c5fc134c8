/** The server's view operations as they run over the shared world: joining,
  * player movement, view updates and leaving, with their nested view loops. */
module Server {
  import opened Bytes
  import opened Coords
  import opened World
  import opened Views

  // ---- what a half-finished view loop has done ------------------------------------------

  /** The chunks visited before the inner body runs at (outer, inner), for loops by
    * columns (x outside) or by rows (z outside). */
  predicate Seen(v: View, byRows: bool, outer: int, inner: int, x: int, z: int) {
    if byRows then Visited(View(v.z, v.x, v.size), outer, inner, z, x)
    else Visited(v, outer, inner, x, z)
  }

  predicate Sends(v: View, skip: Option<View>, x: int, z: int) {
    Contains(v, x, z) && !(skip.Some? && Contains(skip.value, x, z))
  }

  function Inc(o: Option<int>): Option<int> {
    if o.Some? then Some(o.value + 1) else None
  }

  /** The seen chunks of v outside skip are counted and sent once more. */
  ghost predicate Sent(m0: map<Coord, int>, m: map<Coord, int>, c0: multiset<Coord>, c: multiset<Coord>,
                       v: View, skip: Option<View>, byRows: bool, outer: int, inner: int)
  {
    forall x, z :: (
      var hit := Sends(v, skip, x, z) && Seen(v, byRows, outer, inner, x, z);
      && At(m, x, z) == (if hit then Inc(At(m0, x, z)) else At(m0, x, z))
      && c[(x, z)] == c0[(x, z)] + (if hit && At(m0, x, z).Some? then 1 else 0))
  }

  lemma {:induction false} SentStart(m: map<Coord, int>, c: multiset<Coord>, v: View, skip: Option<View>, byRows: bool)
    ensures byRows ==> Sent(m, m, c, c, v, skip, true, v.z - v.size, v.x - v.size)
    ensures !byRows ==> Sent(m, m, c, c, v, skip, false, v.x - v.size, v.z - v.size)
  {
  }

  lemma {:induction false} SentStep(m0: map<Coord, int>, m: map<Coord, int>, c0: multiset<Coord>, c: multiset<Coord>,
                                    v: View, skip: Option<View>, byRows: bool, x: int, z: int)
    requires Contains(v, x, z)
    requires var (o, i) := if byRows then (z, x) else (x, z); Sent(m0, m, c0, c, v, skip, byRows, o, i)
    ensures var (o, i) := if byRows then (z, x) else (x, z);
      && (Sends(v, skip, x, z) && (x, z) in m ==>
            Sent(m0, m[(x, z) := m[(x, z)] + 1], c0, c + multiset{(x, z)}, v, skip, byRows, o, i + 1))
      && (!(Sends(v, skip, x, z) && (x, z) in m) ==> Sent(m0, m, c0, c, v, skip, byRows, o, i + 1))
  {
  }

  lemma {:induction false} SentRow(m0: map<Coord, int>, m: map<Coord, int>, c0: multiset<Coord>, c: multiset<Coord>,
                                   v: View, skip: Option<View>, byRows: bool, outer: int)
    requires Sent(m0, m, c0, c, v, skip, byRows, outer, (if byRows then v.x else v.z) + v.size + 1)
    ensures Sent(m0, m, c0, c, v, skip, byRows, outer + 1, (if byRows then v.x else v.z) - v.size)
  {
  }

  /** The seen chunks of v outside keep are released, and u are the unload packets: one
    * for each of them. */
  ghost predicate Dropped(m0: map<Coord, int>, m: map<Coord, int>, u: multiset<Coord>,
                          v: View, keep: Option<View>, outer: int, inner: int)
  {
    forall x, z :: (
      var hit := Sends(v, keep, x, z) && Visited(v, outer, inner, x, z);
      && At(m, x, z) == (if hit then Released(At(m0, x, z)) else At(m0, x, z))
      && u[(x, z)] == (if hit then 1 else 0))
  }

  function DecIn(m: map<Coord, int>, x: int, z: int): map<Coord, int> {
    if (x, z) !in m then m
    else if m[(x, z)] == 1 then m - {(x, z)}
    else m[(x, z) := m[(x, z)] - 1]
  }

  lemma {:induction false} DropStart(m: map<Coord, int>, v: View, keep: Option<View>)
    ensures Dropped(m, m, multiset{}, v, keep, v.x - v.size, v.z - v.size)
  {
  }

  lemma {:induction false} DropStep(m0: map<Coord, int>, m: map<Coord, int>, u: multiset<Coord>,
                                    v: View, keep: Option<View>, x: int, z: int)
    requires Contains(v, x, z) && Dropped(m0, m, u, v, keep, x, z)
    ensures Sends(v, keep, x, z) ==> Dropped(m0, DecIn(m, x, z), u + multiset{(x, z)}, v, keep, x, z + 1)
    ensures !Sends(v, keep, x, z) ==> Dropped(m0, m, u, v, keep, x, z + 1)
  {
  }

  lemma {:induction false} DropRow(m0: map<Coord, int>, m: map<Coord, int>, u: multiset<Coord>,
                                   v: View, keep: Option<View>, x: int)
    requires Dropped(m0, m, u, v, keep, x, v.z + v.size + 1)
    ensures Dropped(m0, m, u, v, keep, x + 1, v.z - v.size)
  {
  }

  // ---- finished loops make up the steps -----------------------------------------------------

  lemma {:induction false} JoinComplete(m0: map<Coord, int>, m1: map<Coord, int>, m2: map<Coord, int>,
                                        c: multiset<Coord>, v: View)
    requires Loaded(m0, m1, v, v.x + v.size + 1, v.z - v.size)
    requires Sent(m1, m2, multiset{}, c, v, None, true, v.z + v.size + 1, v.x - v.size)
    ensures JoinStep(m0, m2, v)
    ensures forall x, z :: c[(x, z)] == if Contains(v, x, z) then 1 else 0
  {
    forall x, z
      ensures At(m2, x, z) == if Contains(v, x, z) then Some(Players(m0, x, z) + 1) else At(m0, x, z)
      ensures c[(x, z)] == if Contains(v, x, z) then 1 else 0
    {
      assert At(m1, x, z) == if Contains(v, x, z) && At(m0, x, z).None? then Some(0) else At(m0, x, z);
      assert Seen(v, true, v.z + v.size + 1, v.x - v.size, x, z) == Contains(v, x, z);
    }
  }

  lemma {:induction false} UpdateComplete(m0: map<Coord, int>, m1: map<Coord, int>, m2: map<Coord, int>,
          m3: map<Coord, int>, c0: multiset<Coord>, c2: multiset<Coord>, u: multiset<Coord>, old_: View, new_: View)
    requires Loaded(m0, m1, new_, new_.x + new_.size + 1, new_.z - new_.size)
    requires Sent(m1, m2, c0, c2, new_, Some(old_), false, new_.x + new_.size + 1, new_.z - new_.size)
    requires Dropped(m2, m3, u, old_, Some(new_), old_.x + old_.size + 1, old_.z - old_.size)
    ensures UpdateStep(m0, m3, old_, new_) && ClientStep(c0, c2 - u, old_, new_)
    ensures forall x, z :: u[(x, z)] == if Contains(old_, x, z) && !Contains(new_, x, z) then 1 else 0
  {
    var c3 := c2 - u;
    forall x, z
      ensures At(m3, x, z) == if Contains(new_, x, z) then
                                Some(Players(m0, x, z) + if Contains(old_, x, z) then 0 else 1)
                              else if Contains(old_, x, z) then Released(At(m0, x, z)) else At(m0, x, z)
      ensures c3[(x, z)] == if Contains(new_, x, z) then c0[(x, z)] + (if Contains(old_, x, z) then 0 else 1)
                            else if Contains(old_, x, z) && c0[(x, z)] > 0 then c0[(x, z)] - 1 else c0[(x, z)]
      ensures u[(x, z)] == if Contains(old_, x, z) && !Contains(new_, x, z) then 1 else 0
    {
      assert At(m1, x, z) == if Contains(new_, x, z) && At(m0, x, z).None? then Some(0) else At(m0, x, z);
      assert Seen(new_, false, new_.x + new_.size + 1, new_.z - new_.size, x, z) == Contains(new_, x, z);
      assert Visited(old_, old_.x + old_.size + 1, old_.z - old_.size, x, z) == Contains(old_, x, z);
    }
  }

  lemma {:induction false} LeaveComplete(m0: map<Coord, int>, m: map<Coord, int>, u: multiset<Coord>, v: View)
    requires Dropped(m0, m, u, v, None, v.x + v.size + 1, v.z - v.size)
    ensures LeaveStep(m0, m, v)
  {
    forall x, z ensures At(m, x, z) == if Contains(v, x, z) then Released(At(m0, x, z)) else At(m0, x, z) {
      assert Visited(v, v.x + v.size + 1, v.z - v.size, x, z) == Contains(v, x, z);
    }
  }

  // ---- the loops ------------------------------------------------------------------------------

  /** The join loop: rows of chunks between the corners of the view. */
  method SendJoinView(w: World, v: View, spawnX: int, spawnZ: int) returns (client: multiset<Coord>)
    requires w.Valid() && v.x == CoordToChunk(spawnX) && v.z == CoordToChunk(spawnZ)
    modifies w.Repr()
    ensures w.Valid() && w.Repr() == old(w.Repr())
    ensures Sent(old(w.flat), w.flat, multiset{}, client, v, None, true, v.z + v.size + 1, v.x - v.size)
  {
    hide Sent, World.Valid, CoordToChunk;
    client := multiset{};
    var d := v.size * 16;
    var c1x, c1z := CoordToChunk(spawnX - d), CoordToChunk(spawnZ - d);
    var c2x, c2z := CoordToChunk(spawnX + d), CoordToChunk(spawnZ + d);
    assert c1x == v.x - v.size && c2x == v.x + v.size by {
      ChunkShift(spawnX, v.size);
      ChunkShift(spawnX - d, v.size);
    }
    assert c1z == v.z - v.size && c2z == v.z + v.size by {
      ChunkShift(spawnZ, v.size);
      ChunkShift(spawnZ - d, v.size);
    }
    SentStart(w.flat, client, v, None, true);
    var z := c1z;
    while z <= c2z
      invariant c1z <= z <= c2z + 1
      invariant w.Valid() && w.Repr() == old(w.Repr())
      invariant Sent(old(w.flat), w.flat, multiset{}, client, v, None, true, z, c1x)
    {
      var x := c1x;
      while x <= c2x
        invariant c1x <= x <= c2x + 1
        invariant w.Valid() && w.Repr() == old(w.Repr())
        invariant Sent(old(w.flat), w.flat, multiset{}, client, v, None, true, z, x)
      {
        SentStep(old(w.flat), w.flat, multiset{}, client, v, None, true, x, z);
        var found := w.IncPlayers(x, z);
        if found {
          client := client + multiset{(x, z)};
        }
        x := x + 1;
      }
      SentRow(old(w.flat), w.flat, multiset{}, client, v, None, true, z);
      z := z + 1;
    }
  }

  /** The first loop of server_update_view: chunks that came into view. */
  method SendNewChunks(w: World, old_: View, new_: View, client0: multiset<Coord>) returns (client: multiset<Coord>)
    requires w.Valid()
    modifies w.Repr()
    ensures w.Valid() && w.Repr() == old(w.Repr())
    ensures Sent(old(w.flat), w.flat, client0, client, new_, Some(old_), false,
                 new_.x + new_.size + 1, new_.z - new_.size)
  {
    hide Sent, World.Valid, CoordToChunk;
    client := client0;
    SentStart(w.flat, client, new_, Some(old_), false);
    var vx := new_.x - new_.size;
    while vx <= new_.x + new_.size
      invariant new_.x - new_.size <= vx <= new_.x + new_.size + 1
      invariant w.Valid() && w.Repr() == old(w.Repr())
      invariant Sent(old(w.flat), w.flat, client0, client, new_, Some(old_), false, vx, new_.z - new_.size)
    {
      var vz := new_.z - new_.size;
      while vz <= new_.z + new_.size
        invariant new_.z - new_.size <= vz <= new_.z + new_.size + 1
        invariant w.Valid() && w.Repr() == old(w.Repr())
        invariant Sent(old(w.flat), w.flat, client0, client, new_, Some(old_), false, vx, vz)
      {
        SentStep(old(w.flat), w.flat, client0, client, new_, Some(old_), false, vx, vz);
        if !Contains(old_, vx, vz) {
          var found := w.IncPlayers(vx, vz);
          if found {
            client := client + multiset{(vx, vz)};
          }
        }
        vz := vz + 1;
      }
      SentRow(old(w.flat), w.flat, client0, client, new_, Some(old_), false, vx);
      vx := vx + 1;
    }
  }

  /** The second loop of server_update_view with the unload packets it sends, and with
    * nothing to keep the loop of server_end_play, which sends none. */
  method DropOldChunks(w: World, v: View, keep: Option<View>) returns (unloads: multiset<Coord>)
    requires w.Valid()
    modifies w.Repr()
    ensures w.Valid() && w.Repr() == old(w.Repr())
    ensures Dropped(old(w.flat), w.flat, unloads, v, keep, v.x + v.size + 1, v.z - v.size)
  {
    hide Dropped, World.Valid;
    unloads := multiset{};
    DropStart(w.flat, v, keep);
    var vx := v.x - v.size;
    while vx <= v.x + v.size
      invariant v.x - v.size <= vx <= v.x + v.size + 1
      invariant w.Valid() && w.Repr() == old(w.Repr())
      invariant Dropped(old(w.flat), w.flat, unloads, v, keep, vx, v.z - v.size)
    {
      var vz := v.z - v.size;
      while vz <= v.z + v.size
        invariant v.z - v.size <= vz <= v.z + v.size + 1
        invariant w.Valid() && w.Repr() == old(w.Repr())
        invariant Dropped(old(w.flat), w.flat, unloads, v, keep, vx, vz)
      {
        DropStep(old(w.flat), w.flat, unloads, v, keep, vx, vz);
        if keep.None? || !Contains(keep.value, vx, vz) {
          w.DecPlayers(vx, vz);
          unloads := unloads + multiset{(vx, vz)};
        }
        vz := vz + 1;
      }
      DropRow(old(w.flat), w.flat, unloads, v, keep, vx);
      vx := vx + 1;
    }
  }

  // ---- the server -------------------------------------------------------------------------------

  /** What every operation of the server promises: it is the step of its event, it
    * keeps every pending request about a changed chunk, and it keeps the counts
    * exact just when the event is in the domain. */
  ghost predicate Performs(s: State, e: Event, s': State) {
    && Step(s, e, s') && AllPendingMoved(s'.conns)
    && (Inv(s.m, s.conns) ==> (Inv(s'.m, s'.conns) <==> InDomain(s, e)))
  }

  lemma {:induction false} PerformsKeeps(s: State, e: Event, s': State)
    requires Performs(s, e, s')
    ensures AllPendingMoved(s'.conns)
  {
  }

  lemma {:induction false} PendingHere(conns: Conns, id: int)
    requires AllPendingMoved(conns) && id in conns && conns[id].requesting
    ensures ChunkOf(conns[id].x) != conns[id].oldX || ChunkOf(conns[id].z) != conns[id].oldZ
  {
  }

  lemma {:induction false} StepPerforms(s: State, e: Event, s': State)
    requires AllPendingMoved(s.conns) && Step(s, e, s')
    ensures Performs(s, e, s')
  {
    hide Step, Inv, AllPendingMoved, InDomain;
    StepKeepsPending(s, e, s');
    if Inv(s.m, s.conns) {
      StepKeepsIff(s, e, s');
    }
  }

  lemma {:induction false} JoinPerforms(s: State, e: Event, s': State, client: multiset<Coord>)
    requires e.Join? && AllPendingMoved(s.conns) && e.id !in s.conns
    requires var v := View(CoordToChunk(e.spawnX), CoordToChunk(e.spawnZ), e.viewDistance);
      && JoinStep(s.m, s'.m, v)
      && (forall x, z :: client[(x, z)] == if Contains(v, x, z) then 1 else 0)
      && s'.conns == s.conns[e.id := Conn(e.spawnX as real, e.spawnZ as real, e.viewDistance, false, v.x, v.z, client)]
    ensures Performs(s, e, s')
  {
    hide JoinStep;
    var v := View(CoordToChunk(e.spawnX), CoordToChunk(e.spawnZ), e.viewDistance);
    var c := s'.conns[e.id];
    assert CurrentView(c) == v;
    StepPerforms(s, e, s');
  }

  lemma {:induction false} UpdatePerforms(s: State, id: int, s': State, client: multiset<Coord>)
    requires AllPendingMoved(s.conns) && id in s.conns && s.conns[id].requesting
    requires var c := s.conns[id];
      && UpdateStep(s.m, s'.m, OldView(c), CurrentView(c))
      && ClientStep(c.client, client, OldView(c), CurrentView(c))
      && s'.conns == s.conns[id := c.(requesting := false, client := client)]
    ensures Performs(s, Event.Update(id), s')
  {
    hide UpdateStep, ClientStep;
    StepPerforms(s, Event.Update(id), s');
  }

  /** The connections in the play state, over one world. */
  lemma {:induction false} MoveInChunks(c: Conn, c': Conn, x: real, z: real)
    requires c' == Moved(c, x, z)
    ensures forall a, b :: InChunk(c.x, a) && InChunk(c.z, b) ==>
              if InChunk(x, a) && InChunk(z, b) then c' == c.(x := x, z := z)
              else c' == c.(x := x, z := z, requesting := true, oldX := a, oldZ := b)
  {
    hide ChunkOf, InChunk, Moved;
    forall a, b | InChunk(c.x, a) && InChunk(c.z, b)
      ensures if InChunk(x, a) && InChunk(z, b) then c' == c.(x := x, z := z)
              else c' == c.(x := x, z := z, requesting := true, oldX := a, oldZ := b)
    {
      MoveRequests(c, a, b, x, z);
    }
  }

  class Server {
    const world: World
    var conns: Conns

    ghost predicate Valid()
      reads this, world, world.regions, world.regions.entries, world.Arrays()
    {
      world.Valid() && AllPendingMoved(conns)
    }

    ghost function Now(): State
      reads this, world
    {
      State(world.flat, conns)
    }

    constructor (world: World)
      requires world.Valid() && world.flat == map[]
      ensures Valid() && this.world == world && Now() == State(map[], map[])
    {
      this.world := world;
      conns := map[];
    }

    method Join(id: int, spawnX: nat, spawnZ: nat, viewDistance: nat)
      requires Valid() && id !in conns
      modifies this, world.Repr()
      ensures Valid() && fresh(world.Repr() - old(world.Repr()))
      ensures Performs(old(Now()), Event.Join(id, spawnX, spawnZ, viewDistance), Now())
    {
      hide Performs, JoinStep, Loaded, Sent, World.Valid, AllPendingMoved;
      ghost var m0 := world.flat;
      var v := View(CoordToChunk(spawnX), CoordToChunk(spawnZ), viewDistance);
      world.LoadChunks(v);
      ghost var m1 := world.flat;
      var client := SendJoinView(world, v, spawnX, spawnZ);
      JoinComplete(m0, m1, world.flat, client, v);
      conns := conns[id := Conn(spawnX as real, spawnZ as real, viewDistance, false, v.x, v.z, client)];
      JoinPerforms(old(Now()), Event.Join(id, spawnX, spawnZ, viewDistance), Now(), client);
      PerformsKeeps(old(Now()), Event.Join(id, spawnX, spawnZ, viewDistance), Now());
    }

    /** protocol_act_player_position: a new view is asked for, from chunk a, b, exactly when
      * the player leaves that chunk. */
    method Move(id: int, x: real, z: real)
      requires Valid() && id in conns
      modifies this
      ensures Valid() && Performs(old(Now()), Event.Move(id, x, z), Now())
      ensures id in conns && conns[id].x == x && conns[id].z == z
      ensures forall a, b :: InChunk(old(conns[id]).x, a) && InChunk(old(conns[id]).z, b) ==>
                if InChunk(x, a) && InChunk(z, b) then conns[id] == old(conns[id]).(x := x, z := z)
                else conns[id] == old(conns[id]).(x := x, z := z, requesting := true, oldX := a, oldZ := b)
    {
      hide Performs, World.Valid, AllPendingMoved, ChunkOf, InChunk;
      assert this !in world.Arrays();
      var c := conns[id];
      var oldX, oldZ := ChunkOf(c.x), ChunkOf(c.z);
      var newX, newZ := ChunkOf(x), ChunkOf(z);
      if oldX != newX || oldZ != newZ {
        c := c.(requesting := true, oldX := oldX, oldZ := oldZ);
      }
      c := c.(x := x, z := z);
      MoveInChunks(conns[id], c, x, z);
      conns := conns[id := c];
      StepPerforms(old(Now()), Event.Move(id, x, z), Now());
      PerformsKeeps(old(Now()), Event.Move(id, x, z), Now());
    }

    /** server_update_view, called for a connection that requests chunks, with the unload
      * packets it sends: one for each chunk that left the view. */
    method Update(id: int) returns (unloads: multiset<Coord>)
      requires Valid() && id in conns && conns[id].requesting
      modifies this, world.Repr()
      ensures Valid() && fresh(world.Repr() - old(world.Repr()))
      ensures Performs(old(Now()), Event.Update(id), Now())
      ensures forall x, z :: unloads[(x, z)] ==
                if Contains(OldView(old(conns[id])), x, z) && !Contains(CurrentView(old(conns[id])), x, z) then 1 else 0
    {
      hide Performs, UpdateStep, ClientStep, Loaded, Sent, Dropped, World.Valid, AllPendingMoved, ChunkOf, Contains;
      var c := conns[id];
      var newX, newZ := ChunkOf(c.x), ChunkOf(c.z);
      assert newX != c.oldX || newZ != c.oldZ by { PendingHere(conns, id); }
      ghost var m0 := world.flat;
      var old_, new_ := View(c.oldX, c.oldZ, c.viewDistance), View(newX, newZ, c.viewDistance);
      world.LoadChunks(new_);
      ghost var m1 := world.flat;
      var client := SendNewChunks(world, old_, new_, c.client);
      ghost var m2, c2 := world.flat, client;
      unloads := DropOldChunks(world, old_, Some(new_));
      client := client - unloads;
      UpdateComplete(m0, m1, m2, world.flat, c.client, c2, unloads, old_, new_);
      conns := conns[id := c.(requesting := false, client := client)];
      UpdatePerforms(old(Now()), id, Now(), client);
      PerformsKeeps(old(Now()), Event.Update(id), Now());
    }

    /** server_end_play */
    method Leave(id: int)
      requires Valid() && id in conns
      modifies this, world.Repr()
      ensures Valid() && world.Repr() == old(world.Repr())
      ensures Performs(old(Now()), Event.Leave(id), Now())
    {
      hide Performs, LeaveStep, Dropped, World.Valid, AllPendingMoved;
      var c := conns[id];
      ghost var m0 := world.flat;
      var v := View(ChunkOf(c.x), ChunkOf(c.z), c.viewDistance);
      ghost var releases := DropOldChunks(world, v, None);
      LeaveComplete(m0, world.flat, releases, v);
      conns := conns - {id};
      StepPerforms(old(Now()), Event.Leave(id), Now());
      PerformsKeeps(old(Now()), Event.Leave(id), Now());
    }

    /** The ways out of server_play that return -1: the connection goes, its view stays. */
    method Drop(id: int)
      requires Valid() && id in conns
      modifies this
      ensures Valid() && Performs(old(Now()), Event.Drop(id), Now())
    {
      hide Performs, World.Valid, AllPendingMoved;
      assert this !in world.Arrays();
      conns := conns - {id};
      StepPerforms(old(Now()), Event.Drop(id), Now());
      PerformsKeeps(old(Now()), Event.Drop(id), Now());
    }
  }
}
