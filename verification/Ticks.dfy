/** The server's tick over its connections: each handles the packets that came in and is
  * updated, or goes, right afterwards. When that keeps the player counts exact. */
module Ticks {
  import opened Bytes
  import opened LinkedList
  import opened Server
  import opened Views
  import opened World

  // ---- turns ------------------------------------------------------------------------------

  /** How server_play ends: with 1, with 0 after server_end_play, or with -1. */
  datatype Ending = Stays | Ends | Fails

  /** What one connection does in a tick: the positions it reports, and how it ends. */
  datatype Turn = Turn(moves: seq<(real, real)>, ending: Ending)

  function AfterMoves(c: Conn, moves: seq<(real, real)>): Conn {
    if moves == [] then c
    else
      var n := |moves| - 1;
      Moved(AfterMoves(c, moves[..n]), moves[n].0, moves[n].1)
  }

  /** How often a chunk border is crossed. */
  function Crossings(c: Conn, moves: seq<(real, real)>): nat {
    if moves == [] then 0
    else
      var n := |moves| - 1;
      Crossings(c, moves[..n]) + if Crosses(AfterMoves(c, moves[..n]), moves[n].0, moves[n].1) then 1 else 0
  }

  /** One turn of the connection loop: the moves, then the update if one is pending, or the
    * removal. */
  ghost predicate TurnStep(s: State, id: int, t: Turn, s': State) {
    && id in s.conns
    && var c := AfterMoves(s.conns[id], t.moves);
       var moved := s.(conns := s.conns[id := c]);
       match t.ending
       case Stays => if c.requesting then Step(moved, Event.Update(id), s') else s' == moved
       case Ends => Step(moved, Event.Leave(id), s')
       case Fails => Step(moved, Event.Drop(id), s')
  }

  /** No update is pending, as between two turns. */
  ghost predicate Settled(conns: Conns) {
    forall id | id in conns :: !conns[id].requesting
  }

  /** What a turn must come to for the counts to stay exact: the chunk recorded as old is the
    * one the turn began in; and a connection that leaves does so from that chunk. */
  predicate Faithful(c: Conn, t: Turn) {
    var c' := AfterMoves(c, t.moves);
    match t.ending
    case Stays => c'.requesting ==> OldView(c') == CurrentView(c)
    case Ends => CurrentView(c') == CurrentView(c)
    case Fails => false
  }

  /** What the moves of a turn leave behind, by how often they cross. */
  lemma {:induction false} AfterCrossings(c: Conn, moves: seq<(real, real)>)
    requires !c.requesting
    ensures var c' := AfterMoves(c, moves);
      && c'.viewDistance == c.viewDistance && c'.client == c.client && PendingMoved(c')
      && (c'.requesting <==> Crossings(c, moves) > 0)
    ensures var c' := AfterMoves(c, moves);
      && (Crossings(c, moves) == 0 ==> CurrentView(c') == CurrentView(c))
      && (Crossings(c, moves) == 1 ==> OldView(c') == CurrentView(c) != CurrentView(c'))
      && (Crossings(c, moves) == 2 ==> OldView(c') != CurrentView(c))
    decreases |moves|
  {
    hide ChunkOf;
    if moves != [] { AfterCrossings(c, moves[..|moves| - 1]); }
  }

  /** A turn that crosses at most once is faithful when the connection stays, one that
    * does not cross when it leaves; with one crossing more neither is. */
  lemma {:induction false} FaithfulByCrossings(c: Conn, t: Turn)
    requires !c.requesting
    ensures t.ending.Stays? && Crossings(c, t.moves) <= 1 ==> Faithful(c, t)
    ensures t.ending.Stays? && Crossings(c, t.moves) == 2 ==> !Faithful(c, t)
    ensures t.ending.Ends? && Crossings(c, t.moves) == 0 ==> Faithful(c, t)
    ensures t.ending.Ends? && Crossings(c, t.moves) == 1 ==> !Faithful(c, t)
  {
    AfterCrossings(c, t.moves);
  }

  /** Crossing a border there, back and there again is three crossings, and faithful. */
  lemma {:induction false} ThereAndBack()
    ensures var moves := [(16.0, 0.0), (0.0, 0.0), (16.0, 0.0)];
      Crossings(JOINED, moves) == 3 && Faithful(JOINED, Turn(moves, Stays))
  {
    var moves: seq<(real, real)> := [(16.0, 0.0), (0.0, 0.0), (16.0, 0.0)];
    assert moves[..3] == moves && moves[..3][..2] == moves[..2] && moves[..2][..1] == moves[..1];
    AloneStep();
    assert Trunc(0.0) == 0 && Trunc(16.0) == 16 && ChunkOf(0.0) == 0 && ChunkOf(16.0) == 1;
    assert AfterMoves(JOINED, moves[..1]) == Moved(JOINED, 16.0, 0.0);
    assert AfterMoves(JOINED, moves[..2]) == Moved(Moved(JOINED, 16.0, 0.0), 0.0, 0.0);
    assert Crossings(JOINED, moves[..1]) == 1 && Crossings(JOINED, moves[..2]) == 2;
  }

  /** Crossing two borders one after the other is not faithful. */
  lemma {:induction false} TwiceAcross()
    ensures var moves: seq<(real, real)> := [(16.0, 0.0), (32.0, 0.0)];
      Crossings(JOINED, moves) == 2 && !Faithful(JOINED, Turn(moves, Stays))
  {
    var moves: seq<(real, real)> := [(16.0, 0.0), (32.0, 0.0)];
    assert moves[..2] == moves && moves[..2][..1] == moves[..1];
    assert Trunc(0.0) == 0 && Trunc(16.0) == 16 && Trunc(32.0) == 32;
    assert ChunkOf(0.0) == 0 && ChunkOf(16.0) == 1 && ChunkOf(32.0) == 2;
    AloneStep();
    assert AfterMoves(JOINED, moves[..1]) == Moved(JOINED, 16.0, 0.0) && Crossings(JOINED, moves[..1]) == 1;
  }

  // ---- a turn keeps the counts exactly when it is faithful -----------------------------------

  lemma {:induction false} SameViewKeeps(m: map<Coord, int>, conns: Conns, id: int, c: Conn)
    requires Inv(m, conns) && id in conns && Counted(c) == Counted(conns[id]) && c.client == conns[id].client
    ensures Inv(m, conns[id := c])
  {
    hide Counted;
    assert ClientExact(conns[id]) && ClientExact(c);
    forall x, z ensures Viewers(conns[id := c], x, z) == Viewers(conns, x, z) {
      SplitViewers(conns, id, x, z);
      ReplaceViewer(conns, id, c, x, z);
    }
  }

  /** An update from another view than the counted one leaves a chunk of that too high. */
  lemma {:induction false} WrongUpdateBreaks(m: map<Coord, int>, m': map<Coord, int>, conns: Conns, id: int,
          old_: View, c: Conn)
    requires Inv(m, conns) && id in conns && UpdateStep(m, m', old_, Counted(c))
    requires old_.size == Counted(conns[id]).size && old_ != Counted(conns[id])
    ensures !Inv(m', conns[id := c])
  {
    hide Counted;
    var x, z := ViewsDiffer(Counted(conns[id]), old_);
    SplitViewers(conns, id, x, z);
    ReplaceViewer(conns, id, c, x, z);
    assert At(m', x, z) != (var n := Viewers(conns[id := c], x, z); if n > 0 then Some(n) else None);
  }

  lemma {:induction false} WrongLeaveBreaks(m: map<Coord, int>, m': map<Coord, int>, conns: Conns, id: int, v: View)
    requires Inv(m, conns) && id in conns && LeaveStep(m, m', v)
    requires v.size == Counted(conns[id]).size && v != Counted(conns[id])
    ensures !Inv(m', conns - {id})
  {
    hide Counted;
    var x, z := ViewsDiffer(Counted(conns[id]), v);
    SplitViewers(conns, id, x, z);
    assert At(m', x, z) != (var n := Viewers(conns - {id}, x, z); if n > 0 then Some(n) else None);
  }

  lemma {:induction false} TurnSettles(s: State, id: int, t: Turn, s': State)
    requires Settled(s.conns) && TurnStep(s, id, t, s')
    ensures Settled(s'.conns)
  {
    hide AfterMoves, UpdateStep, ClientStep, LeaveStep;
  }

  /** The counts are exact after a turn if and only if the turn was faithful. */
  lemma {:induction false} TurnKeepsIff(s: State, id: int, t: Turn, s': State)
    requires Settled(s.conns) && Inv(s.m, s.conns) && TurnStep(s, id, t, s')
    ensures Inv(s'.m, s'.conns) <==> Faithful(s.conns[id], t)
  {
    hide Inv, UpdateStep, ClientStep, LeaveStep, AfterMoves;
    var c := s.conns[id];
    var c' := AfterMoves(c, t.moves);
    AfterCrossings(c, t.moves);
    assert s.conns[id := c'] - {id} == s.conns - {id};
    match t.ending
    case Stays =>
      if c'.requesting {
        assert s.conns[id := c'][id := s'.conns[id]] == s.conns[id := s'.conns[id]];
        if OldView(c') == CurrentView(c) {
          UpdateKeeps(s.m, s'.m, s.conns, id, s'.conns[id]);
        } else {
          WrongUpdateBreaks(s.m, s'.m, s.conns, id, OldView(c'), s'.conns[id]);
        }
      } else {
        SameViewKeeps(s.m, s.conns, id, c');
      }
    case Ends =>
      if CurrentView(c') == CurrentView(c) {
        LeaveKeeps(s.m, s'.m, s.conns, id);
      } else {
        WrongLeaveBreaks(s.m, s'.m, s.conns, id, CurrentView(c'));
      }
    case Fails => DropBreaks(s.m, s.conns, id);
  }

  // ---- ... and throughout the turn --------------------------------------------------------------

  /** The counts are exact after each of the moves. */
  ghost predicate ExactMoves(m: map<Coord, int>, conns: Conns, id: int, moves: seq<(real, real)>)
    requires id in conns
  {
    forall k | 0 <= k <= |moves| :: Inv(m, conns[id := AfterMoves(conns[id], moves[..k])])
  }

  lemma {:induction false} ExactMovesStep(m: map<Coord, int>, conns: Conns, id: int, moves: seq<(real, real)>)
    requires id in conns && moves != []
    ensures ExactMoves(m, conns, id, moves) <==>
      ExactMoves(m, conns, id, moves[..|moves| - 1]) && Inv(m, conns[id := AfterMoves(conns[id], moves)])
  {
    hide Inv, AfterMoves;
    var before := moves[..|moves| - 1];
    assert moves[..|moves|] == moves;
    assert forall k | 0 <= k <= |before| :: before[..k] == moves[..k];
  }

  lemma {:induction false} MovesExactIff(m: map<Coord, int>, conns: Conns, id: int, moves: seq<(real, real)>)
    requires Inv(m, conns) && id in conns && !conns[id].requesting
    ensures ExactMoves(m, conns, id, moves) <==> Crossings(conns[id], moves) <= 1
    decreases |moves|
  {
    hide Inv, ExactMoves;
    var c := conns[id];
    if moves == [] {
      NoMoves(m, conns, id);
    } else {
      var n := |moves| - 1;
      MovesExactIff(m, conns, id, moves[..n]);
      ExactMovesStep(m, conns, id, moves);
      AfterCrossings(c, moves[..n]);
      var d := AfterMoves(c, moves[..n]);
      if ExactMoves(m, conns, id, moves[..n]) {
        LastIsExact(m, conns, id, moves[..n]);
        MoveKeepsIff(m, conns[id := d], id, moves[n].0, moves[n].1);
        assert conns[id := d][id := AfterMoves(c, moves)] == conns[id := AfterMoves(c, moves)];
      }
    }
  }

  lemma {:induction false} NoMoves(m: map<Coord, int>, conns: Conns, id: int)
    requires Inv(m, conns) && id in conns
    ensures ExactMoves(m, conns, id, [])
  {
    hide Inv;
    assert conns[id := conns[id]] == conns;
  }

  lemma {:induction false} LastIsExact(m: map<Coord, int>, conns: Conns, id: int, moves: seq<(real, real)>)
    requires id in conns && ExactMoves(m, conns, id, moves)
    ensures Inv(m, conns[id := AfterMoves(conns[id], moves)])
  {
    hide Inv, AfterMoves;
    assert moves[..|moves|] == moves;
  }

  /** They are exact after each single move, too, if and only if the connection crosses at
    * most once, or not at all if it leaves, and does not fail. */
  lemma {:induction false} TurnExactThroughoutIff(s: State, id: int, t: Turn, s': State)
    requires Settled(s.conns) && Inv(s.m, s.conns) && TurnStep(s, id, t, s')
    ensures ExactMoves(s.m, s.conns, id, t.moves) && Inv(s'.m, s'.conns)
       <==> match t.ending
            case Stays => Crossings(s.conns[id], t.moves) <= 1
            case Ends => Crossings(s.conns[id], t.moves) == 0
            case Fails => false
  {
    hide Inv, AfterMoves, Faithful, ExactMoves;
    assert id in s.conns && !s.conns[id].requesting;
    hide TurnStep;
    MovesExactIff(s.m, s.conns, id, t.moves);
    TurnKeepsIff(s, id, t, s');
    FaithfulByCrossings(s.conns[id], t);
    if t.ending.Fails? { NeverFaithful(s.conns[id], t); }
  }

  lemma {:induction false} NeverFaithful(c: Conn, t: Turn)
    requires t.ending.Fails?
    ensures !Faithful(c, t)
  {
  }

  // ---- whole runs of ticks ------------------------------------------------------------------------

  /** A tick accepts at most one connection and then plays a turn with each. */
  datatype Happening = Accepted(join: Event) | Played(id: int, turn: Turn)

  ghost predicate Happens(s: State, h: Happening, s': State) {
    match h
    case Accepted(e) => e.Join? && Step(s, e, s')
    case Played(id, t) => TurnStep(s, id, t, s')
  }

  predicate IsFaithful(s: State, h: Happening) {
    h.Played? && h.id in s.conns ==> Faithful(s.conns[h.id], h.turn)
  }

  ghost predicate Ticking(ss: seq<State>, hs: seq<Happening>) {
    && |ss| == |hs| + 1 && ss[0] == State(map[], map[])
    && forall k | 0 <= k < |hs| :: Happens(ss[k], hs[k], ss[k + 1])
  }

  lemma {:induction false} TickingSettles(ss: seq<State>, hs: seq<Happening>, k: nat)
    requires Ticking(ss, hs) && k < |ss|
    ensures Settled(ss[k].conns)
  {
    hide TurnStep, JoinStep;
    if k > 0 {
      TickingSettles(ss, hs, k - 1);
      if hs[k - 1].Played? {
        TurnSettles(ss[k - 1], hs[k - 1].id, hs[k - 1].turn, ss[k]);
      }
    }
  }

  lemma {:induction false} HappensKeepsIff(s: State, h: Happening, s': State)
    requires Settled(s.conns) && Inv(s.m, s.conns) && Happens(s, h, s')
    ensures Inv(s'.m, s'.conns) <==> IsFaithful(s, h)
  {
    hide Inv, JoinStep, AfterMoves, Faithful;
    if h.Played? {
      TurnKeepsIff(s, h.id, h.turn, s');
    } else {
      JoinKeeps(s.m, s'.m, s.conns, h.join.id, s'.conns[h.join.id]);
    }
  }

  /** In every run of ticks, any number of connections accepted and playing, the counts and
    * what the clients hold are exact after every turn if and only if every turn is
    * faithful. */
  lemma {:induction false} TicksExactIff(ss: seq<State>, hs: seq<Happening>)
    requires Ticking(ss, hs)
    ensures (forall k | 0 <= k < |ss| :: Inv(ss[k].m, ss[k].conns))
       <==> (forall k | 0 <= k < |hs| :: IsFaithful(ss[k], hs[k]))
  {
    hide Inv, IsFaithful, Happens;
    if forall k | 0 <= k < |ss| :: Inv(ss[k].m, ss[k].conns) {
      forall k | 0 <= k < |hs| ensures IsFaithful(ss[k], hs[k]) {
        TickingSettles(ss, hs, k);
        HappensKeepsIff(ss[k], hs[k], ss[k + 1]);
      }
    } else if forall k | 0 <= k < |hs| :: IsFaithful(ss[k], hs[k]) {
      forall k | 0 <= k < |ss| ensures Inv(ss[k].m, ss[k].conns) {
        ExactAt(ss, hs, k);
      }
    }
  }

  lemma {:induction false} ExactAt(ss: seq<State>, hs: seq<Happening>, k: nat)
    requires Ticking(ss, hs) && k < |ss|
    requires forall i | 0 <= i < |hs| :: IsFaithful(ss[i], hs[i])
    ensures Inv(ss[k].m, ss[k].conns)
  {
    hide Happens, IsFaithful;
    if k == 0 {
      assert forall x, z :: ViewerSet(map[], x, z) == {};
    } else {
      hide Inv;
      ExactAt(ss, hs, k - 1);
      TickingSettles(ss, hs, k - 1);
      HappensKeepsIff(ss[k - 1], hs[k - 1], ss[k]);
    }
  }

  // ---- the loop ------------------------------------------------------------------------------------

  /** server_play and what the connection loop does with its result. */
  method Play(server: Server, id: int, t: Turn) returns (stays: bool)
    requires server.Valid() && id in server.conns
    modifies server, server.world.Repr()
    ensures server.Valid() && fresh(server.world.Repr() - old(server.world.Repr()))
    ensures TurnStep(old(server.Now()), id, t, server.Now()) && stays == t.ending.Stays?
  {
    hide Performs, UpdateStep, ClientStep, LeaveStep, World.Valid, AllPendingMoved, Moved;
    ghost var s := server.Now();
    var k := 0;
    assert s.conns[id := s.conns[id]] == s.conns;
    while k < |t.moves|
      invariant 0 <= k <= |t.moves| && server.Valid() && server.world.Repr() == old(server.world.Repr())
      invariant server.Now() == s.(conns := s.conns[id := AfterMoves(s.conns[id], t.moves[..k])])
    {
      ghost var before := server.Now();
      server.Move(id, t.moves[k].0, t.moves[k].1);
      Performed(before, Event.Move(id, t.moves[k].0, t.moves[k].1), server.Now());
      assert t.moves[..k + 1][..k] == t.moves[..k];
      k := k + 1;
    }
    assert t.moves[..k] == t.moves;
    ghost var moved := server.Now();
    match t.ending {
      case Stays =>
        if server.conns[id].requesting {
          var _ := server.Update(id);
          Performed(moved, Event.Update(id), server.Now());
        }
      case Ends =>
        server.Leave(id);
        Performed(moved, Event.Leave(id), server.Now());
      case Fails =>
        server.Drop(id);
        Performed(moved, Event.Drop(id), server.Now());
    }
    stays := t.ending.Stays?;
  }

  lemma {:induction false} Performed(s: State, e: Event, s': State)
    requires Performs(s, e, s')
    ensures Step(s, e, s')
  {
  }

  /** The turns of these connections, one after the other. */
  ghost predicate Turns(ss: seq<State>, ids: seq<int>, turns: int -> Turn) {
    && |ss| == |ids| + 1
    && forall k | 0 <= k < |ids| :: TurnStep(ss[k], ids[k], turns(ids[k]), ss[k + 1])
  }

  /** A turn changes no other connection. */
  lemma {:induction false} OthersStay(s: State, id: int, t: Turn, s': State)
    requires TurnStep(s, id, t, s')
    ensures forall i | i in s.conns && i != id :: i in s'.conns && s'.conns[i] == s.conns[i]
    ensures t.ending.Stays? <==> id in s'.conns
  {
    hide AfterMoves, UpdateStep, ClientStep, LeaveStep;
  }

  lemma {:induction false} TurnsSnoc(ss: seq<State>, ids: seq<int>, turns: int -> Turn, id: int, s: State)
    requires Turns(ss, ids, turns) && TurnStep(ss[|ids|], id, turns(id), s)
    ensures Turns(ss + [s], ids + [id], turns)
  {
    hide TurnStep;
  }

  function Staying(turns: int -> Turn): int -> bool {
    id => turns(id).ending.Stays?
  }

  /** The list holds the ids of the connections, each once. */
  ghost predicate Matches(ids: seq<int>, conns: Conns) {
    && (forall i, j | 0 <= i < j < |ids| :: ids[i] != ids[j])
    && forall id :: id in ids <==> id in conns
  }

  /** The nodes of the list are none of the objects of the server and its world. */
  ghost predicate Apart(server: Server, nodes: seq<Node<int>>)
    reads server.world, server.world.regions
  {
    forall n | n in nodes :: n as object != server && n !in server.world.Repr()
  }

  lemma {:induction false} MatchesStep(ids: seq<int>, k: nat, s: State, t: Turn, s': State)
    requires Matches(ids, s.conns) && k < |ids| && TurnStep(s, ids[k], t, s')
    ensures Matches(if t.ending.Stays? then ids else Without(ids, k), s'.conns)
  {
    OthersStay(s, ids[k], t, s');
    WithoutAt(ids, k);
    var rest := Without(ids, k);
    forall id ensures id in rest <==> id in ids && id != ids[k] {
      if id in ids && id != ids[k] {
        var i :| 0 <= i < |ids| && ids[i] == id;
        assert rest[if i < k then i else i - 1] == id;
      }
    }
  }

  lemma {:induction false} MatchesThere(ids: seq<int>, k: nat, conns: Conns)
    requires Matches(ids, conns) && k < |ids|
    ensures ids[k] in conns
  {
    assert ids[k] in ids;
  }

  /** A connection accepted at the start of a tick. */
  method Accept(server: Server, list: Node<int>, join: Event, ghost nodes: seq<Node<int>>, ghost items: seq<int>)
    returns (ghost nodes': seq<Node<int>>)
    requires server.Valid() && list.IsList(nodes, items) && Apart(server, nodes) && Matches(items, server.conns)
    requires join.Join? && join.id !in server.conns
    modifies nodes, server, server.world.Repr()
    ensures server.Valid() && Step(old(server.Now()), join, server.Now())
    ensures list.IsList(nodes', items + [join.id]) && Apart(server, nodes')
    ensures Matches(items + [join.id], server.conns)
  {
    hide Node.IsList, World.Valid, AllPendingMoved, Performs, JoinStep;
    server.Join(join.id, join.spawnX, join.spawnZ, join.viewDistance);
    Performed(old(server.Now()), join, server.Now());
    assert nodes[0] == list by { list.Rest(nodes, items, 0); }
    nodes' := list.Append(join.id, nodes, items);
  }

  /** One round of the connection loop at node k: the turn, and the removal or the step to
    * the next node. */
  method Round(server: Server, list: Node<int>, connection: Node<int>, t: Turn, ghost k: nat,
      ghost nodes: seq<Node<int>>, ghost now: seq<int>)
    returns (next: Node<int>, ghost nodes': seq<Node<int>>, ghost now': seq<int>)
    requires server.Valid() && list.IsList(nodes, now) && Apart(server, nodes)
    requires |nodes| == |now| + 1 && k < |now| && connection == nodes[k] && now[k] in server.conns
    modifies connection, server, server.world.Repr()
    ensures server.Valid() && Apart(server, nodes')
    ensures forall o | o in server.world.Repr() :: o in old(server.world.Repr()) || fresh(o)
    ensures TurnStep(old(server.Now()), now[k], t, server.Now())
    ensures now' == if t.ending.Stays? then now else Without(now, k)
    ensures nodes' == if t.ending.Stays? then nodes else Without(nodes, k + 1)
    ensures forall n | n in nodes' :: n in nodes
    ensures list.IsList(nodes', now') && |nodes'| == |now'| + 1 == |nodes| - (if t.ending.Stays? then 0 else 1)
    ensures next == nodes'[if t.ending.Stays? then k + 1 else k]
  {
    hide Node.IsList, Node.Empty, TurnStep, World.Valid, AllPendingMoved;
    list.Rest(nodes, now, k);
    assert connection in nodes;
    var id := connection.data.value;
    nodes', now' := nodes, now;
    var stays := Play(server, id, t);
    list.Rest(nodes, now, k);
    if stays {
      next := connection.next;
    } else {
      ghost var x;
      x, nodes' := list.RemoveAt(connection, k, nodes, now);
      now' := Without(now, k);
      next := connection;
      list.Rest(nodes', now', k);
    }
  }

  /** How far a tick has come: the connections handled, the states between their turns, and
    * the list of those that are left, of which the next one is at k. */
  ghost predicate Progress(items: seq<int>, turns: int -> Turn, ss: seq<State>, handled: seq<int>, now: seq<int>,
          k: nat, s: State)
  {
    && Walked(items, Staying(turns), handled, now, k) && Matches(now, s.conns)
    && |ss| == |handled| + 1 && Turns(ss, handled, turns) && ss[|handled|] == s
  }

  lemma {:induction false} ProgressStart(items: seq<int>, turns: int -> Turn, s: State)
    requires Matches(items, s.conns)
    ensures Progress(items, turns, [s], [], items, 0, s)
  {
    WalkStart(items, Staying(turns));
  }

  lemma {:induction false} ProgressStep(items: seq<int>, turns: int -> Turn, ss: seq<State>, handled: seq<int>,
          now: seq<int>, k: nat, s: State, s': State)
    requires Progress(items, turns, ss, handled, now, k, s) && k < |now|
    requires TurnStep(s, now[k], turns(now[k]), s')
    ensures var (now', k') := if turns(now[k]).ending.Stays? then (now, k + 1) else (Without(now, k), k);
      Progress(items, turns, ss + [s'], handled + [now[k]], now', k', s')
  {
    hide Walked, Turns, TurnStep, Matches, Without;
    WalkStep(items, Staying(turns), handled, now, k);
    MatchesStep(now, k, s, turns(now[k]), s');
    TurnsSnoc(ss, handled, turns, now[k], s');
  }

  lemma {:induction false} ProgressThere(items: seq<int>, turns: int -> Turn, ss: seq<State>, handled: seq<int>,
          now: seq<int>, k: nat, s: State)
    requires Progress(items, turns, ss, handled, now, k, s) && k < |now|
    ensures now[k] in s.conns
  {
    MatchesThere(now, k, s.conns);
  }

  lemma {:induction false} ProgressEnd(items: seq<int>, turns: int -> Turn, ss: seq<State>, handled: seq<int>,
          now: seq<int>, k: nat, s: State)
    requires Progress(items, turns, ss, handled, now, k, s) && k == |now|
    ensures |ss| == |items| + 1 && Turns(ss, items, turns) && ss[|items|] == s
    ensures now == Kept(items, Staying(turns)) && Matches(now, s.conns)
  {
    WalkEnd(items, Staying(turns), handled, now, k);
  }

  /** The connection loop of a tick, by the ids of the connections: each has its turn, once
    * and in order, and those that stay make up the list. */
  method Tick(server: Server, list: Node<int>, turns: int -> Turn, ghost nodes: seq<Node<int>>, ghost items: seq<int>)
    returns (ghost ss: seq<State>, ghost nodes': seq<Node<int>>)
    requires server.Valid() && list.IsList(nodes, items) && Apart(server, nodes) && Matches(items, server.conns)
    modifies nodes, server, server.world.Repr()
    ensures server.Valid() && Turns(ss, items, turns) && ss[0] == old(server.Now()) && ss[|items|] == server.Now()
    ensures list.IsList(nodes', Kept(items, Staying(turns))) && Apart(server, nodes')
    ensures Matches(Kept(items, Staying(turns)), server.conns)
    ensures forall n | n in nodes' :: n in nodes
  {
    hide Node.IsList, Node.Empty, Progress, TurnStep, Turns, World.Valid, AllPendingMoved, Matches, Apart;
    hide World.Repr, World.Arrays, Kept, Without, Staying;
    var connection: Node<int> := list;
    ghost var handled, now, k := [], items, 0;
    ss, nodes' := [server.Now()], nodes;
    ProgressStart(items, turns, server.Now());
    list.Rest(nodes, items, 0);
    while !connection.Empty()
      invariant server.Valid() && Apart(server, nodes')
      invariant forall o | o in server.world.Repr() :: o in old(server.world.Repr()) || fresh(o)
      invariant |ss| > 0 && ss[0] == old(server.Now())
      invariant Progress(items, turns, ss, handled, now, k, server.Now())
      invariant list.IsList(nodes', now) && |nodes'| == |now| + 1 && k <= |now| && connection == nodes'[k]
      invariant connection.Empty() <==> k == |now|
      invariant forall n | n in nodes' :: n in nodes
      decreases |now| - k
    {
      list.Rest(nodes', now, k);
      ProgressThere(items, turns, ss, handled, now, k, server.Now());
      assert connection in nodes';
      var id := connection.data.value;
      ghost var before, rest := server.Now(), [];
      connection, nodes', rest := Round(server, list, connection, turns(id), k, nodes', now);
      ProgressStep(items, turns, ss, handled, now, k, before, server.Now());
      ss, handled, now := ss + [server.Now()], handled + [id], rest;
      if turns(id).ending.Stays? { k := k + 1; }
      list.Rest(nodes', now, k);
    }
    ProgressEnd(items, turns, ss, handled, now, k, server.Now());
  }
}
