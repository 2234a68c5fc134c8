/** Runs of writes into a packet, and packets from one end to the other: which runs
  * report success, which of their bytes are placed, and which packets arrive. */
module Transfer {
  import opened Bytes
  import opened Packet

  // ---- writes -------------------------------------------------------------------------------

  /** One write into a packet. */
  datatype Op = PutByte(b: byte) | PutBytes(bs: seq<byte>) | PutVarint(i: u32) | PutString(s: seq<byte>) {
    predicate Ok() {
      PutString? ==> |s| < 0x8000_0000
    }

    function Encoded(): seq<byte> {
      match this
      case PutByte(b) => [b]
      case PutBytes(bs) => bs
      case PutVarint(i) => VarInt(i)
      case PutString(s) => VarInt(|s|) + s
    }
  }

  function AllEncoded(ops: seq<Op>): seq<byte> {
    if ops == [] then [] else AllEncoded(ops[..|ops| - 1]) + ops[|ops| - 1].Encoded()
  }

  lemma {:induction false} PrefixShorter(ops: seq<Op>, k: nat)
    requires k < |ops|
    ensures AllEncoded(ops[..k + 1]) == AllEncoded(ops[..k]) + ops[k].Encoded()
    ensures |AllEncoded(ops[..k])| + |ops[k].Encoded()| <= |AllEncoded(ops)|
    decreases |ops| - k
  {
    assert ops[..k + 1][..k] == ops[..k];
    if k + 1 < |ops| {
      PrefixShorter(ops, k + 1);
    } else {
      assert ops[..k + 1] == ops;
    }
  }

  // ---- writes that may not fit ------------------------------------------------------------------

  /** What a write returns when that many bytes are left. */
  function Result(free: nat, op: Op): int {
    match op
    case PutByte(_) => if free > 0 then 1 else PACKET_TOO_BIG
    case PutBytes(bs) => if |bs| <= free then |bs| else PACKET_TOO_BIG
    case PutVarint(i) => |VarInt(i)|
    case PutString(s) => StringResult(free, |s|)
  }

  /** How many of its bytes it places. */
  function Places(free: nat, op: Op): (n: nat)
    ensures n <= |op.Encoded()| && n <= free
  {
    if |op.Encoded()| <= free then |op.Encoded()|
    else if op.PutVarint? || op.PutString? then free
    else 0
  }

  /** Any write at the end of a packet, whether it fits or not. */
  method Attempt(p: Packet, op: Op) returns (n: int)
    requires op.Ok() && p.CanWrite() && p.index == p.packetLen <= MAX_PACKET_LEN
    modifies p`data, p`dataLen, p`index, p`packetLen, p.data
    ensures p.CanWrite() && p.index == p.packetLen <= MAX_PACKET_LEN && (p.data == old(p.data) || fresh(p.data))
    ensures var free := MAX_PACKET_LEN - old(p.packetLen);
      n == Result(free, op) && p.Contents() == old(p.Contents()) + op.Encoded()[..Places(free, op)]
    ensures p.dataLen == Grown(old(p.dataLen), p.packetLen)
  {
    hide Grown, Placed, VarInt, StringResult;
    ghost var before, at := p.data[..], p.index;
    ghost var put := op.Encoded()[..Places(MAX_PACKET_LEN - at, op)];
    PlaceNothing(before, at);
    GrownEnough(p.dataLen, at);
    match op {
      case PutByte(b) =>
        n := p.WriteByte(b);
        assert n > 0 ==> put == [b];
      case PutBytes(bs) =>
        n := p.WriteBytes(bs);
        assert n >= 0 ==> put == bs;
      case PutVarint(i) =>
        n := p.WriteVarint(i);
        assert put == VarInt(i)[..Fit(at, |VarInt(i)|)];
      case PutString(s) =>
        n := p.WriteString(s);
        assert put == (VarInt(|s|) + s)[..Fit(at, |VarInt(|s|) + s|)];
    }
    PlacedAtEnd(before, p.data[..], at, put);
  }

  /** A write that fits appends all its bytes. */
  method Perform(p: Packet, op: Op)
    requires op.Ok() && p.CanWrite() && p.index == p.packetLen && p.packetLen + |op.Encoded()| <= MAX_PACKET_LEN
    modifies p`data, p`dataLen, p`index, p`packetLen, p.data
    ensures p.CanWrite() && p.index == p.packetLen && (p.data == old(p.data) || fresh(p.data))
    ensures p.Contents() == old(p.Contents()) + op.Encoded()
    ensures p.dataLen == Grown(old(p.dataLen), p.packetLen)
  {
    hide Grown, Op.Encoded;
    var _ := Attempt(p, op);
    assert op.Encoded()[..|op.Encoded()|] == op.Encoded();
  }

  /** A run of writes with every result tested reports success. */
  predicate Accepted(free: nat, ops: seq<Op>) {
    ops == [] || (Result(free, ops[0]) >= 0 && Accepted(free - Places(free, ops[0]), ops[1..]))
  }

  /** The bytes that such a run places until it stops. */
  function AllPlaced(free: nat, ops: seq<Op>): (bs: seq<byte>)
    ensures |bs| <= free
  {
    if ops == [] then []
    else
      var first := ops[0].Encoded()[..Places(free, ops[0])];
      if Result(free, ops[0]) < 0 then first else first + AllPlaced(free - |first|, ops[1..])
  }

  function Total(ops: seq<Op>): nat {
    if ops == [] then 0 else |ops[0].Encoded()| + Total(ops[1..])
  }

  lemma {:induction false} AllEncodedFront(ops: seq<Op>)
    requires ops != []
    ensures AllEncoded(ops) == ops[0].Encoded() + AllEncoded(ops[1..])
    decreases |ops|
  {
    hide Op.Encoded;
    var n := |ops| - 1;
    if n == 0 {
      assert ops[..0] == [] && ops[1..] == [];
    } else {
      AllEncodedFront(ops[..n]);
      assert ops[..n][1..] == ops[1..][..n - 1];
      Assoc3(ops[0].Encoded(), AllEncoded(ops[1..][..n - 1]), ops[n].Encoded());
    }
  }

  /** What is placed is the beginning of what was to be placed, and all of it if and only
    * if there is room for all. */
  lemma {:induction false} AllPlacedIff(free: nat, ops: seq<Op>)
    ensures |AllEncoded(ops)| == Total(ops)
    ensures Total(ops) <= free ==> Accepted(free, ops)
    ensures AllPlaced(free, ops) == AllEncoded(ops) <==> Total(ops) <= free
    decreases |ops|
  {
    hide Op.Encoded, Result, AllEncoded;
    if ops == [] {
      assert AllEncoded(ops) == [] by { NothingEncoded(); }
    } else {
      AllEncodedFront(ops);
      var op := ops[0];
      FitsIsTaken(free, op);
      AllPlacedIff(free - Places(free, op), ops[1..]);
      if |op.Encoded()| <= free {
        FirstPlaced(op.Encoded(), AllPlaced(free - |op.Encoded()|, ops[1..]), AllEncoded(ops[1..]));
      }
    }
  }

  lemma {:induction false} NothingEncoded()
    ensures AllEncoded([]) == []
  {
  }

  lemma {:induction false} FirstPlaced(a: seq<byte>, b: seq<byte>, c: seq<byte>)
    ensures a[..|a|] == a && (a + b == a + c <==> b == c)
  {
    assert (a + b)[|a|..] == b && (a + c)[|a|..] == c;
  }

  lemma {:induction false} FitsIsTaken(free: nat, op: Op)
    ensures |op.Encoded()| <= free ==> Result(free, op) >= 0
  {
    if op.PutString? { StringErrorIff(free, |op.s|); }
  }

  /** A write that does not fit and reports success. */
  predicate Silent(free: nat, op: Op) {
    && |op.Encoded()| > free
    && match op
       case PutVarint(_) => true
       case PutString(s) => s == [] || (|s| >= 3 && |VarInt(|s|)| + |s| == free + 1)
       case _ => false
  }

  /** A write that reports success on a full packet. */
  predicate Quiet(op: Op) {
    match op
    case PutByte(_) => false
    case PutBytes(bs) => bs == []
    case PutVarint(_) => true
    case PutString(s) => s == []
  }

  lemma {:induction false} ResultIff(free: nat, op: Op)
    ensures Result(free, op) >= 0 <==> |op.Encoded()| <= free || Silent(free, op)
    ensures Silent(free, op) ==> Places(free, op) == free
    ensures Quiet(op) <==> |op.Encoded()| == 0 || Silent(0, op)
  {
    hide VarInt, StringResult;
    if op.PutString? {
      StringErrorIff(free, |op.s|);
      ShortLength(|op.s|);
    }
    if op.PutVarint? { ShortLength(op.i); }
  }

  /** The first write of a run that does not fit is a silent one, and after it there are
    * only quiet ones. */
  predicate LostAt(free: nat, ops: seq<Op>, k: nat) {
    && k < |ops|
    && Total(ops[..k]) <= free && Silent(free - Total(ops[..k]), ops[k])
    && forall j | k < j < |ops| :: Quiet(ops[j])
  }

  ghost predicate Lost(free: nat, ops: seq<Op>) {
    exists k: nat :: LostAt(free, ops, k)
  }

  lemma {:induction false} FullAcceptsIff(ops: seq<Op>)
    ensures Accepted(0, ops) <==> forall j | 0 <= j < |ops| :: Quiet(ops[j])
    decreases |ops|
  {
    hide Result, Silent, Quiet;
    if ops != [] {
      ResultIff(0, ops[0]);
      FullAcceptsIff(ops[1..]);
      assert forall j | 0 < j < |ops| :: ops[j] == ops[1..][j - 1];
      assert (forall j | 0 <= j < |ops[1..]| :: Quiet(ops[1..][j])) ==> forall j | 0 < j < |ops| :: Quiet(ops[j]);
    }
  }

  lemma {:induction false} LostLater(free: nat, ops: seq<Op>, k: nat)
    requires ops != [] && |ops[0].Encoded()| <= free
    ensures LostAt(free, ops, k + 1) <==> LostAt(free - |ops[0].Encoded()|, ops[1..], k)
  {
    hide Silent, Quiet, Op.Encoded;
    if k + 1 < |ops| {
      assert ops[..k + 1][0] == ops[0] && ops[..k + 1][1..] == ops[1..][..k];
      assert forall j | k + 1 < j < |ops| :: ops[j] == ops[1..][j - 1];
      assert forall j | k < j < |ops[1..]| :: ops[1..][j] == ops[j + 1];
    }
  }

  /** A run of writes reports success if and only if there is room for all of it, or its
    * bytes were lost without a report. */
  lemma {:induction false} AcceptedIff(free: nat, ops: seq<Op>)
    ensures Accepted(free, ops) <==> Total(ops) <= free || Lost(free, ops)
    decreases |ops|
  {
    hide Result, Silent, Quiet;
    if ops == [] {
      return;
    }
    var op, len := ops[0], |ops[0].Encoded()|;
    ResultIff(free, op);
    if len <= free {
      AcceptedIff(free - len, ops[1..]);
      LostLaterIff(free, ops);
    } else {
      FirstLost(free, ops);
    }
  }

  lemma {:induction false} LostLaterIff(free: nat, ops: seq<Op>)
    requires ops != [] && |ops[0].Encoded()| <= free
    ensures Lost(free, ops) <==> Lost(free - |ops[0].Encoded()|, ops[1..])
  {
    hide LostAt, Op.Encoded;
    var len := |ops[0].Encoded()|;
    if Lost(free - len, ops[1..]) {
      var k: nat :| LostAt(free - len, ops[1..], k);
      LostLater(free, ops, k);
    }
    if Lost(free, ops) {
      var k: nat :| LostAt(free, ops, k);
      NotLost(free, ops);
      LostLater(free, ops, k - 1);
    }
  }

  lemma {:induction false} NotLost(free: nat, ops: seq<Op>)
    requires ops != [] && |ops[0].Encoded()| <= free
    ensures !LostAt(free, ops, 0)
  {
    assert ops[..0] == [];
  }

  lemma {:induction false} NotAfterFirst(free: nat, ops: seq<Op>, k: nat)
    requires ops != [] && |ops[0].Encoded()| > free && k > 0
    ensures !LostAt(free, ops, k)
  {
    hide Op.Encoded, Silent, Quiet;
    if k < |ops| { assert ops[..k][0] == ops[0]; }
  }

  lemma {:induction false} FirstLost(free: nat, ops: seq<Op>)
    requires ops != [] && |ops[0].Encoded()| > free
    ensures Accepted(free, ops) <==> Lost(free, ops)
  {
    hide Result, Silent, Quiet, Op.Encoded;
    ResultIff(free, ops[0]);
    if Silent(free, ops[0]) { FullAcceptsIff(ops[1..]); }
    assert ops[..0] == [];
    forall k: nat | k > 0 ensures !LostAt(free, ops, k) {
      NotAfterFirst(free, ops, k);
    }
    assert forall j | 0 < j < |ops| :: ops[j] == ops[1..][j - 1];
    assert forall j | 0 <= j < |ops[1..]| :: ops[1..][j] == ops[j + 1];
    assert Accepted(free, ops) <==> LostAt(free, ops, 0);
  }

  lemma {:induction false} FillStep(free: nat, ops: seq<Op>, k: nat, done: seq<byte>)
    requires k < |ops| && |done| <= free && Accepted(free, ops) == Accepted(free - |done|, ops[k..])
    requires AllPlaced(free, ops) == done + AllPlaced(free - |done|, ops[k..])
    ensures var left := free - |done|; var done' := done + ops[k].Encoded()[..Places(left, ops[k])];
      if Result(left, ops[k]) < 0 then !Accepted(free, ops) && AllPlaced(free, ops) == done'
      else
        && |done'| <= free && Accepted(free, ops) == Accepted(free - |done'|, ops[k + 1..])
        && AllPlaced(free, ops) == done' + AllPlaced(free - |done'|, ops[k + 1..])
  {
    hide Result, Op.Encoded;
    var left := free - |done|;
    assert ops[k..][0] == ops[k] && ops[k..][1..] == ops[k + 1..];
    var put := ops[k].Encoded()[..Places(left, ops[k])];
    if Result(left, ops[k]) >= 0 {
      Assoc3(done, put, AllPlaced(left - |put|, ops[k + 1..]));
    }
  }

  lemma {:induction false} FillEnd(free: nat, ops: seq<Op>, done: seq<byte>)
    requires ops == []
    ensures Accepted(free, ops) && done + AllPlaced(free, ops) == done
  {
  }

  /** A VarInt of two bytes with room for one: accepted, and half of it placed. */
  lemma {:induction false} HalfLost()
    ensures Accepted(1, [PutVarint(128)]) && AllPlaced(1, [PutVarint(128)]) == [128] != AllEncoded([PutVarint(128)])
  {
    var op := PutVarint(128);
    assert VarInt(128) == [128, 1] by { assert VarInt(1) == [1]; }
    assert [op][1..] == [] && op.Encoded()[..1] == [128] && [128] + AllPlaced(0, []) == [128];
    AllPlacedIff(1, [op]);
  }

  /** The writes one after the other, until one reports an error. */
  method Fill(p: Packet, ops: seq<Op>) returns (ok: bool)
    requires p.CanWrite() && p.index == p.packetLen <= MAX_PACKET_LEN && forall k | 0 <= k < |ops| :: ops[k].Ok()
    modifies p`data, p`dataLen, p`index, p`packetLen, p.data
    ensures p.CanWrite() && p.index == p.packetLen <= MAX_PACKET_LEN && (p.data == old(p.data) || fresh(p.data))
    ensures var free := MAX_PACKET_LEN - old(p.packetLen);
      ok == Accepted(free, ops) && p.Contents() == old(p.Contents()) + AllPlaced(free, ops)
  {
    hide Result, Places, Accepted, AllPlaced, Op.Encoded;
    ok := true;
    var k := 0;
    ghost var start, done, free := p.Contents(), [], MAX_PACKET_LEN - p.packetLen;
    assert ops[0..] == ops && start + [] == start;
    assert [] + AllPlaced(free, ops) == AllPlaced(free, ops);
    while ok && k < |ops|
      invariant 0 <= k <= |ops| && p.CanWrite() && p.index == p.packetLen <= MAX_PACKET_LEN
      invariant p.data == old(p.data) || fresh(p.data)
      invariant p.Contents() == start + done
      invariant ok ==> Accepted(free, ops) == Accepted(free - |done|, ops[k..])
      invariant ok ==> |done| <= free && AllPlaced(free, ops) == done + AllPlaced(free - |done|, ops[k..])
      invariant !ok ==> !Accepted(free, ops) && AllPlaced(free, ops) == done
    {
      ghost var put := ops[k].Encoded()[..Places(free - |done|, ops[k])];
      FillStep(free, ops, k, done);
      var n := Attempt(p, ops[k]);
      Assoc3(start, done, put);
      if n < 0 {
        ok := false;
      } else {
        k := k + 1;
      }
      done := done + put;
    }
    if ok { FillEnd(free - |done|, ops[k..], done); }
  }

  // ---- from one end to the other --------------------------------------------------------------

  /** A packet made and filled by any run of writes. */
  method Build(id: nat, ops: seq<Op>) returns (p: Packet)
    requires id < 128 && forall k | 0 <= k < |ops| :: ops[k].Ok()
    requires 1 + |AllEncoded(ops)| <= MAX_PACKET_LEN
    ensures fresh(p) && fresh(p.data) && p.CanWrite() && p.packetId == id
    ensures p.Contents() == [id] + AllEncoded(ops)
    ensures p.dataLen == Grown(PACKET_BLOCK_SIZE, p.packetLen)
  {
    p := new Packet();
    p.MakePacket(id);
    GrownEnough(p.dataLen, 1);
    hide Grown, Op.Encoded;
    var k := 0;
    while k < |ops|
      invariant 0 <= k <= |ops| && fresh(p) && fresh(p.data)
      invariant p.CanWrite() && p.index == p.packetLen && p.packetId == id
      invariant p.Contents() == [id] + AllEncoded(ops[..k])
      invariant p.dataLen == Grown(PACKET_BLOCK_SIZE, p.packetLen)
    {
      PrefixShorter(ops, k);
      ghost var len := p.packetLen;
      Perform(p, ops[k]);
      GrownTwice(PACKET_BLOCK_SIZE, len, p.packetLen);
      Assoc3([id], AllEncoded(ops[..k]), ops[k].Encoded());
      k := k + 1;
    }
    assert ops[..k] == ops;
  }

  /** The buffer of a packet that was filled by writes is the fewest whole blocks. */
  lemma {:induction false} GrownBlocks(len: nat)
    requires len > 0
    ensures Grown(PACKET_BLOCK_SIZE, len) == (len + 4095) / 4096 * 4096
  {
    hide Grown;
    GrownIsLeast(PACKET_BLOCK_SIZE, len);
  }

  lemma {:induction false} PrefixAtMost(len: nat)
    requires 0 < len <= MAX_PACKET_LEN
    ensures 1 <= PrefixLen(len) <= 3 && (128 <= len < 16384 ==> PrefixLen(len) == 2)
  {
    assert PrefixLen(len / 128) == if len / 128 == 0 then 0 else 1 + PrefixLen(len / 128 / 128);
    assert PrefixLen(len / 128 / 128) <= 1;
  }

  /** Finalizing goes past the buffer if and only if the body fills its last block, or
    * leaves less room in it than the prefix needs. */
  lemma {:induction false} PastBufferIff(len: nat)
    requires 0 < len <= MAX_PACKET_LEN
    ensures len + PrefixLen(len) > Grown(PACKET_BLOCK_SIZE, len)
       <==> len % 4096 == 0 || len % 4096 > 4096 - PrefixLen(len)
  {
    hide Grown, PrefixLen;
    GrownBlocks(len);
    PrefixAtMost(len);
    assert len == len / 4096 * 4096 + len % 4096;
  }

  /** A body of 4095 bytes, with a prefix of two, in a buffer of one block. */
  lemma {:induction false} OneByteShort()
    ensures 4095 + PrefixLen(4095) > Grown(PACKET_BLOCK_SIZE, 4095)
  {
    PrefixAtMost(4095);
    PastBufferIff(4095);
  }

  /** What becomes of a packet on its way to the other side. */
  datatype Fate =
    | Refused
    | Overran
    /** The reader grows its buffer by whole blocks, past the maximum. */
    | NotRead
    | Received(id: int, payload: seq<byte>, rest: seq<byte>)

  function FateOf(id: nat, payload: seq<byte>, suffix: seq<byte>): Fate {
    var len := 1 + |payload|;
    if len + PrefixLen(len) > MAX_PACKET_LEN then Refused
    else if len + PrefixLen(len) > Grown(PACKET_BLOCK_SIZE, len) then Overran
    else if Grown(PACKET_BLOCK_SIZE, |payload|) > MAX_PACKET_LEN then NotRead
    else Received(id, payload, suffix)
  }

  /** The payloads that arrive, by their length alone. */
  lemma {:induction false} ReceivedIff(id: nat, payload: seq<byte>, suffix: seq<byte>)
    ensures var len := 1 + |payload|;
      FateOf(id, payload, suffix).Received?
      <==> |payload| <= 2093056 && 0 < len % 4096 <= 4096 - PrefixLen(len)
  {
    hide Grown, PrefixLen;
    var len := 1 + |payload|;
    if len <= MAX_PACKET_LEN {
      PrefixAtMost(len);
      PastBufferIff(len);
      GrownBlocks(len);
      if payload == [] {
        GrownEnough(PACKET_BLOCK_SIZE, 0);
      } else {
        GrownBlocks(|payload|);
      }
    }
  }

  /** A packet made, filled by any run of writes that fit, finalized and read from a
    * stream in which anything may follow: the id, the payload and the rest come back, or
    * it is one of the packets that do not arrive. */
  method Exchange(id: nat, ops: seq<Op>, suffix: seq<byte>) returns (d: Fate, sent: seq<byte>)
    requires id < 128 && (forall k | 0 <= k < |ops| :: ops[k].Ok()) && 1 + |AllEncoded(ops)| <= MAX_PACKET_LEN
    ensures d == FateOf(id, AllEncoded(ops), suffix)
    ensures d.NotRead? || d.Received? ==> sent == Frame([id] + AllEncoded(ops))
  {
    hide Grown, VarInt, PrefixLen, ReadVarInt, AllEncoded;
    var p := Build(id, ops);
    PrefixLenIsVarInt(p.packetLen);
    var f := p.Finalize();
    sent := [];
    match f {
      case TooLong => d := Refused;
      case PastBuffer => d := Overran;
      case Framed =>
        sent := p.data[..p.packetLen];
        var q := new Packet();
        FrameRoundTrip(id, AllEncoded(ops), suffix);
        var n, rest := q.ReadHeader(sent + suffix);
        if n == PACKET_TOO_BIG {
          d := NotRead;
        } else {
          d := Received(q.packetId, q.data[..n], rest);
          assert (AllEncoded(ops) + suffix)[..|AllEncoded(ops)|] == AllEncoded(ops);
        }
    }
  }
}
