/** The linked list that ends in an empty node, and the loops of the server's tick
  * that walk it: removal while walking, and broadcasting. */
module LinkedList {
  import opened Bytes

  /** struct list. A list is its first node; the last node holds nothing. */
  class Node<T> {
    var data: Option<T>
    var next: Node?<T>

    /** An empty list. */
    constructor ()
      ensures IsList([this], [])
    {
      data, next := None, null;
    }

    predicate Empty()
      reads this
    {
      data.None? && next == null
    }

    /** The nodes from this one on and the items they hold. */
    ghost predicate IsList(nodes: seq<Node<T>>, items: seq<T>)
      reads this, nodes
    {
      && |nodes| == |items| + 1 && nodes[0] == this
      && (forall i, j | 0 <= i < j < |nodes| :: nodes[i] != nodes[j])
      && (forall i | 0 <= i < |items| :: nodes[i].data == Some(items[i]) && nodes[i].next == nodes[i + 1])
      && nodes[|items|].data.None? && nodes[|items|].next == null
    }

    /** The list from a node in the middle on. */
    lemma {:induction false} Rest(nodes: seq<Node<T>>, items: seq<T>, k: nat)
      requires IsList(nodes, items) && k <= |items|
      ensures nodes[k].IsList(nodes[k..], items[k..])
      ensures nodes[k].Empty() <==> k == |items|
      ensures |nodes| == |items| + 1 && nodes[0] == this
      ensures k < |items| ==> nodes[k].data == Some(items[k]) && nodes[k].next == nodes[k + 1]
    {
    }

    /** list_prepend: the old first node moves, the list keeps its address. */
    method Prepend(x: T, ghost nodes: seq<Node<T>>, ghost items: seq<T>) returns (ghost nodes': seq<Node<T>>)
      requires IsList(nodes, items)
      modifies this
      ensures IsList(nodes', [x] + items) && fresh(nodes'[1]) && nodes'[2..] == nodes[1..]
    {
      var tmp := new Node<T>();
      tmp.data, tmp.next := data, next;
      data, next := Some(x), tmp;
      nodes' := [this, tmp] + nodes[1..];
    }

    /** list_append walks to the empty node and prepends there. */
    method Append(x: T, ghost nodes: seq<Node<T>>, ghost items: seq<T>) returns (ghost nodes': seq<Node<T>>)
      requires IsList(nodes, items)
      modifies nodes
      ensures IsList(nodes', items + [x]) && nodes'[..|nodes|] == nodes && fresh(nodes'[|nodes|])
    {
      var list: Node<T> := this;
      ghost var k := 0;
      Rest(nodes, items, 0);
      while !list.Empty()
        invariant k <= |items| && list == nodes[k] && IsList(nodes, items)
        invariant list.Empty() <==> k == |items|
        decreases |items| - k
      {
        Rest(nodes, items, k);
        list := list.next;
        k := k + 1;
        Rest(nodes, items, k);
      }
      ghost var end;
      end := list.Prepend(x, [list], []);
      nodes' := nodes + [end[1]];
    }

    /** list_remove: the next node is copied over this one. */
    method Remove(ghost nodes: seq<Node<T>>, ghost items: seq<T>) returns (x: T, ghost nodes': seq<Node<T>>)
      requires IsList(nodes, items) && items != []
      modifies this
      ensures x == items[0] && nodes' == [this] + nodes[2..] && IsList(nodes', items[1..])
      ensures data == old(nodes[1].data) && next == old(nodes[1].next)
    {
      Rest(nodes, items, 0);
      x := data.value;
      var n: Node<T> := next;
      data, next := n.data, n.next;
      nodes' := [this] + nodes[2..];
    }

    /** Removing at a node in the middle takes that item out of the whole list. */
    method RemoveAt(node: Node<T>, ghost k: nat, ghost nodes: seq<Node<T>>, ghost items: seq<T>)
      returns (x: T, ghost nodes': seq<Node<T>>)
      requires IsList(nodes, items) && k < |items| && node == nodes[k]
      modifies node
      ensures x == items[k] && nodes' == Without(nodes, k + 1)
      ensures IsList(nodes', Without(items, k))
    {
      Rest(nodes, items, k);
      ghost var tail;
      x, tail := node.Remove(nodes[k..], items[k..]);
      assert tail == [node] + nodes[k..][2..];
      nodes' := Without(nodes, k + 1);
      forall i | 0 <= i < |nodes| && i != k ensures nodes[i] != node {
      }
      Shortened(nodes, items, k);
    }

    /** Where node k holds what the next one held, the list goes on without that one. */
    lemma {:induction false} Shortened(nodes: seq<Node<T>>, items: seq<T>, k: nat)
      requires |nodes| == |items| + 1 && nodes[0] == this && k < |items|
      requires forall i, j | 0 <= i < j < |nodes| :: nodes[i] != nodes[j]
      requires forall i | 0 <= i < |items| && i != k :: nodes[i].data == Some(items[i]) && nodes[i].next == nodes[i + 1]
      requires nodes[|items|].data.None? && nodes[|items|].next == null
      requires nodes[k].data == nodes[k + 1].data && nodes[k].next == nodes[k + 1].next
      ensures IsList(Without(nodes, k + 1), Without(items, k))
    {
      var ns, xs := Without(nodes, k + 1), Without(items, k);
      WithoutAt(nodes, k + 1);
      WithoutAt(items, k);
      forall i | 0 <= i < |xs| ensures ns[i].data == Some(xs[i]) && ns[i].next == ns[i + 1] {
        assert ns[i] == (if i <= k then nodes[i] else nodes[i + 1]);
        assert ns[i + 1] == (if i < k then nodes[i + 1] else nodes[i + 2]);
      }
    }
  }

  /** s without its element k. */
  function Without<S>(s: seq<S>, k: nat): seq<S>
    requires k < |s|
  {
    s[..k] + s[k + 1..]
  }

  lemma {:induction false} WithoutAt<S>(s: seq<S>, k: nat)
    requires k < |s|
    ensures |Without(s, k)| == |s| - 1
    ensures forall i | 0 <= i < |s| - 1 :: Without(s, k)[i] == if i < k then s[i] else s[i + 1]
  {
  }

  // ---- the tick ------------------------------------------------------------------------

  /** The items that stay. */
  function Kept<T>(items: seq<T>, keep: T -> bool): seq<T> {
    if items == [] then [] else (if keep(items[0]) then [items[0]] else []) + Kept(items[1..], keep)
  }

  /** They are those, as often as before and in their order. */
  lemma {:induction false} KeptAre<T>(items: seq<T>, keep: T -> bool, x: T)
    ensures multiset(Kept(items, keep))[x] == if keep(x) then multiset(items)[x] else 0
    ensures (forall y | y in items :: keep(y)) ==> Kept(items, keep) == items
  {
    if items != [] {
      KeptAre(items[1..], keep, x);
      assert items == [items[0]] + items[1..];
      assert multiset(items) == multiset{items[0]} + multiset(items[1..]);
    }
  }

  lemma {:induction false} KeptSnoc<T>(items: seq<T>, keep: T -> bool, x: T)
    ensures Kept(items + [x], keep) == Kept(items, keep) + if keep(x) then [x] else []
  {
    if items == [] {
      assert [] + [x] == [x];
    } else {
      KeptSnoc(items[1..], keep, x);
      assert (items + [x])[1..] == items[1..] + [x];
    }
  }

  /** Some connections handled: the ones kept are k nodes behind, the others ahead. */
  ghost predicate Walked<T>(items: seq<T>, keep: T -> bool, handled: seq<T>, now: seq<T>, k: nat) {
    && |handled| <= |items| && handled == items[..|handled|]
    && k == |Kept(handled, keep)| && now == Kept(handled, keep) + items[|handled|..]
  }

  lemma {:induction false} WalkStart<T>(items: seq<T>, keep: T -> bool)
    ensures Walked(items, keep, [], items, 0)
  {
  }

  lemma {:induction false} WalkStep<T>(items: seq<T>, keep: T -> bool, handled: seq<T>, now: seq<T>, k: nat)
    requires Walked(items, keep, handled, now, k) && k < |now|
    ensures var handled' := handled + [now[k]];
      if keep(now[k]) then Walked(items, keep, handled', now, k + 1)
      else Walked(items, keep, handled', Without(now, k), k)
  {
    var n := |handled|;
    assert now[k] == items[n];
    KeptSnoc(handled, keep, items[n]);
    assert handled + [items[n]] == items[..n + 1];
    assert items[n..] == [items[n]] + items[n + 1..];
    assert now == Kept(handled, keep) + [items[n]] + items[n + 1..];
  }

  lemma {:induction false} WalkEnd<T>(items: seq<T>, keep: T -> bool, handled: seq<T>, now: seq<T>, k: nat)
    requires Walked(items, keep, handled, now, k) && k == |now|
    ensures handled == items && now == Kept(items, keep)
  {
  }

  /** The connection loop of a tick: every connection is handled exactly once and in
    * order, also when connections before it are removed. */
  method Tick<T>(list: Node<T>, keep: T -> bool, ghost nodes: seq<Node<T>>, ghost items: seq<T>)
    returns (handled: seq<T>, ghost nodes': seq<Node<T>>)
    requires list.IsList(nodes, items)
    modifies nodes
    ensures handled == items
    ensures list.IsList(nodes', Kept(items, keep))
    ensures forall n | n in nodes' :: n in nodes
  {
    hide Node.IsList, Node.Empty, Walked, Kept;
    var connection: Node<T> := list;
    handled := [];
    nodes' := nodes;
    ghost var now, k := items, 0;
    WalkStart(items, keep);
    list.Rest(nodes, items, 0);
    while !connection.Empty()
      invariant Walked(items, keep, handled, now, k)
      invariant list.IsList(nodes', now) && |nodes'| == |now| + 1 && k <= |now| && connection == nodes'[k]
      invariant connection.Empty() <==> k == |now|
      invariant forall n | n in nodes' :: n in nodes
      decreases |now| - k
    {
      list.Rest(nodes', now, k);
      assert connection in nodes';
      WalkStep(items, keep, handled, now, k);
      var c := connection.data.value;
      handled := handled + [c];
      if !keep(c) {
        ghost var x;
        x, nodes' := list.RemoveAt(connection, k, nodes', now);
        now := Without(now, k);
      } else {
        connection := connection.next;
        k := k + 1;
      }
      list.Rest(nodes', now, k);
    }
    WalkEnd(items, keep, handled, now, k);
  }

  // ---- broadcasting ---------------------------------------------------------------------

  /** One message to every connection. */
  function ToAll<C, M>(conns: seq<C>, m: M): (out: seq<(C, M)>)
    ensures |out| == |conns|
  {
    seq(|conns|, i requires 0 <= i < |conns| => (conns[i], m))
  }

  /** Every message to every connection, in queue order. */
  function Deliveries<C, M>(conns: seq<C>, msgs: seq<M>): seq<(C, M)> {
    if msgs == [] then [] else ToAll(conns, msgs[0]) + Deliveries(conns, msgs[1..])
  }

  /** Each connection receives each queued message once: the k-th delivery is message
    * k / |conns| to connection k % |conns|. */
  lemma {:induction false} DeliveryOf<C, M>(conns: seq<C>, msgs: seq<M>, m: nat, c: nat)
    requires m < |msgs| && c < |conns|
    ensures |Deliveries(conns, msgs)| == |msgs| * |conns|
    ensures var k := m * |conns| + c; k < |Deliveries(conns, msgs)| && Deliveries(conns, msgs)[k] == (conns[c], msgs[m])
    decreases |msgs|
  {
    if |msgs| == 1 {
      assert Deliveries(conns, msgs[1..]) == [];
    } else {
      DeliveryOf(conns, msgs[1..], if m > 0 then m - 1 else 0, c);
      assert |msgs| * |conns| == |conns| + (|msgs| - 1) * |conns|;
      if m > 0 {
        assert m * |conns| == |conns| + (m - 1) * |conns|;
      }
    }
  }

  /** The inner loop of server_send_messages. */
  method SendOne<C, M>(connections: Node<C>, msg: M, ghost cnodes: seq<Node<C>>, ghost conns: seq<C>)
    returns (sent: seq<(C, M)>)
    requires connections.IsList(cnodes, conns)
    ensures sent == ToAll(conns, msg)
  {
    hide Node.IsList, Node.Empty;
    sent := [];
    var conn: Node<C> := connections;
    ghost var k := 0;
    connections.Rest(cnodes, conns, 0);
    while !conn.Empty()
      invariant k <= |conns| == |cnodes| - 1 && conn == cnodes[k] && (conn.Empty() <==> k == |conns|)
      invariant sent == ToAll(conns, msg)[..k]
      decreases |conns| - k
    {
      connections.Rest(cnodes, conns, k);
      sent := sent + [(conn.data.value, msg)];
      conn := conn.next;
      k := k + 1;
      connections.Rest(cnodes, conns, k);
    }
  }

  /** Taking the next message leaves the connections as they are. */
  method NextMessage<C, M>(connections: Node<C>, messages: Node<M>,
      ghost cnodes: seq<Node<C>>, ghost conns: seq<C>, ghost mnodes: seq<Node<M>>, ghost msgs: seq<M>)
    returns (msg: M, ghost mnodes': seq<Node<M>>)
    requires connections.IsList(cnodes, conns) && messages.IsList(mnodes, msgs) && msgs != []
    requires forall n | n in cnodes :: n as object != messages
    modifies messages
    ensures msg == msgs[0] && messages.IsList(mnodes', msgs[1..]) && connections.IsList(cnodes, conns)
  {
    msg, mnodes' := messages.Remove(mnodes, msgs);
    assert forall i | 0 <= i < |conns| :: cnodes[i] in cnodes;
    assert cnodes[|conns|] in cnodes;
  }

  /** server_send_messages without errors: the queue ends empty. */
  method SendMessages<C, M>(connections: Node<C>, messages: Node<M>,
      ghost cnodes: seq<Node<C>>, ghost conns: seq<C>, ghost mnodes: seq<Node<M>>, ghost msgs: seq<M>)
    returns (sent: seq<(C, M)>)
    requires connections.IsList(cnodes, conns) && messages.IsList(mnodes, msgs)
    requires forall n | n in cnodes :: n as object != messages
    modifies messages
    ensures sent == Deliveries(conns, msgs)
    ensures messages.IsList([messages], []) && connections.IsList(cnodes, conns)
  {
    hide Node.IsList, Node.Empty;
    sent := [];
    ghost var queue, nodes := msgs, mnodes;
    messages.Rest(nodes, queue, 0);
    while !messages.Empty()
      invariant messages.IsList(nodes, queue) && connections.IsList(cnodes, conns)
      invariant messages.Empty() <==> queue == []
      invariant sent + Deliveries(conns, queue) == Deliveries(conns, msgs)
      decreases |queue|
    {
      var msg;
      msg, nodes := NextMessage(connections, messages, cnodes, conns, nodes, queue);
      var out := SendOne(connections, msg, cnodes, conns);
      Assoc3(sent, out, Deliveries(conns, queue[1..]));
      sent := sent + out;
      queue := queue[1..];
      messages.Rest(nodes, queue, 0);
    }
    messages.Rest(nodes, queue, 0);
    assert nodes == [messages];
  }
}
