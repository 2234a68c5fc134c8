/** The packet buffer: a growing byte array with a write or read position, and
  * the length and id that frame a packet on the wire. */
module Packet {
  import opened Bytes

  const MAX_PACKET_LEN := 2097151
  const PACKET_BLOCK_SIZE := 4096
  const FINISHED_PACKET_ID := 255
  const PACKET_VARINT_TOO_LONG := -2
  const PACKET_TOO_BIG := -3
  const PACKET_STRING_TOO_LONG := -5

  // ---- what the loops compute -----------------------------------------------------------

  /** len, grown by whole blocks until size fits. */
  function Grown(len: nat, size: int): (r: nat)
    ensures r >= len && r >= size
    ensures r % PACKET_BLOCK_SIZE == len % PACKET_BLOCK_SIZE
    decreases size - len
  {
    if len < size then Grown(len + PACKET_BLOCK_SIZE, size) else len
  }

  /** It grows only as far as it must. */
  lemma {:induction false} GrownIsLeast(len: nat, size: int)
    ensures Grown(len, size) > len ==> Grown(len, size) - PACKET_BLOCK_SIZE < size
    decreases size - len
  {
    if len < size { GrownIsLeast(len + PACKET_BLOCK_SIZE, size); }
  }

  lemma {:induction false} GrownEnough(len: nat, size: int)
    requires size <= len
    ensures Grown(len, size) == len
  {
  }

  /** The first byte past a block takes a whole block more. */
  lemma {:induction false} NextBlock(blocks: nat)
    ensures Grown(4096 * blocks, 4096 * blocks) == 4096 * blocks
    ensures Grown(4096 * blocks, 4096 * blocks + 1) == 4096 * (blocks + 1)
  {
    GrownEnough(4096 * blocks, 4096 * blocks);
    GrownEnough(4096 * (blocks + 1), 4096 * blocks + 1);
  }

  /** The longest packet is the longest whose length takes three bytes. */
  lemma {:induction false} MaxTakesThreeBytes(n: nat)
    ensures |VarInt(n)| <= 3 <==> n <= MAX_PACKET_LEN
  {
    VarIntLength(n, 3);
    assert Shl7(1, 3) == 128 * Shl7(1, 2) && Shl7(1, 2) == 128 * Shl7(1, 1) && Shl7(1, 1) == 128 * Shl7(1, 0);
  }

  /** Growing in two steps is growing in one. */
  lemma {:induction false} GrownTwice(len: nat, a: int, b: int)
    requires a <= b
    ensures Grown(Grown(len, a), b) == Grown(len, b)
    decreases a - len
  {
    if len < a { GrownTwice(len + PACKET_BLOCK_SIZE, a, b); }
  }

  /** The bytes finalize_packet counts for its prefix. */
  function PrefixLen(len: nat): nat {
    if len == 0 then 0 else 1 + PrefixLen(len / 128)
  }

  /** For every packet with an id that is what the VarInt writer emits. */
  lemma {:induction false} PrefixLenIsVarInt(len: nat)
    requires len > 0
    ensures PrefixLen(len) == |VarInt(len)|
  {
    if len >= 128 { PrefixLenIsVarInt(len / 128); }
  }

  function Min(a: int, b: int): int { if a <= b then a else b }

  function Signed32(u: u32): int {
    if u >= 0x8000_0000 then u - TWO_32 else u
  }

  /** The int of the same 32 bits. */
  lemma {:induction false} Signed32Is(u: u32, x: int)
    ensures Signed32(u) == x <==> -2147483648 <= x <= 2147483647 && x % 0x1_0000_0000 == u
  {
  }

  /** The bits of a sixth group are all shifted out. */
  lemma {:induction false} SixthGroup(v: u32, x: nat)
    ensures (v + Shl7(x, 5)) % TWO_32 == v
  {
    hide Shl7;
    assert Shl7(x, 5) == TWO_32 * (8 * x) by { Shl7Values(x); }
    WholeWords(v, 8 * x);
  }

  lemma {:induction false} WholeWords(v: u32, q: nat)
    ensures (v + TWO_32 * q) % TWO_32 == v
  {
    assert (v + TWO_32 * q) / TWO_32 == q;
  }

  /** read_varint_gen over the bytes its source still holds. */
  method ReadVarintGen(src: seq<byte>) returns (n: int, v: u32, used: nat)
    ensures used <= |src|
    ensures match ReadVarInt(src)
      case VarIntOk(value, len, rest) => n == len == used && v == value && rest == src[used..]
      case VarIntEof(value) => n == 0 && v == value && used == |src|
      case VarIntTooLong(value) => n == PACKET_VARINT_TOO_LONG && v == value && used == 6
    ensures ReadVarInt(src).VarIntOk? ==> 1 <= n <= 5
  {
    v := 0;
    used := 0;
    var k := 0;
    var more := true;
    while more
      invariant k == used <= |src| && if more then k <= 5 else k >= 1
      invariant more ==> ReadVarInt(src) == ReadVarIntFrom(src[used..], k, v)
      invariant !more && k <= 5 ==> ReadVarInt(src) == VarIntOk(v, k, src[used..])
      invariant !more && k > 5 ==> ReadVarInt(src) == VarIntTooLong(v) && used == 6
      decreases |src| - used, more
    {
      if used == |src| {
        n := 0;
        return;
      }
      var b := src[used];
      assert src[used..][1..] == src[used + 1..];
      used := used + 1;
      if k == 5 { SixthGroup(v, b % 128); }
      v := (v + Shl7(b % 128, k)) % TWO_32;
      k := k + 1;
      more := b >= 128 && k <= 5;
    }
    n := if k > 5 then PACKET_VARINT_TOO_LONG else k;
  }

  // ---- framing ---------------------------------------------------------------------------

  /** A finalized packet: the length of the body, then the body, which starts
    * with the id. */
  function Frame(body: seq<byte>): seq<byte> {
    VarInt(|body|) + body
  }

  datatype Header = Header(len: int, id: int, idLen: nat, rest: seq<byte>)

  /** The two VarInts in front of a packet. */
  function HeaderOf(input: seq<byte>): Option<Header> {
    match ReadVarInt(input)
    case VarIntOk(len, _, rest) =>
      (match ReadVarInt(rest)
       case VarIntOk(id, n, rest') => Some(Header(Signed32(len), Signed32(id), n, rest'))
       case _ => None)
    case _ => None
  }

  /** Conversion of an int to size_t. */
  function SizeT(x: int): nat {
    if x >= 0 then x else x % 0x1_0000_0000_0000_0000
  }

  /** The size_t of the same 64 bits. */
  lemma {:induction false} SizeTIs(x: int, n: nat)
    requires -0x8000_0000_0000_0000 <= x < 0x8000_0000_0000_0000
    ensures SizeT(x) == n <==> n <= 18446744073709551615 && (n - x) % 0x1_0000_0000_0000_0000 == 0
  {
    var w := 0x1_0000_0000_0000_0000;
    var q := (n - x) / w;
    assert n - x == w * q + (n - x) % w;
  }

  /** A length less than a block short of the id's would send the size loop around
    * the range of size_t for ever; one even shorter ends in an error. */
  predicate SizeLoopEnds(h: Header) {
    h.len >= h.idLen || h.len - h.idLen <= -PACKET_BLOCK_SIZE
  }

  /** Reading the header of a frame gives back the id, the length of the payload
    * and the payload followed by whatever comes after the frame. */
  lemma {:induction false} FrameRoundTrip(id: byte, payload: seq<byte>, suffix: seq<byte>)
    requires id < 128 && |payload| < MAX_PACKET_LEN
    ensures HeaderOf(Frame([id] + payload) + suffix) == Some(Header(1 + |payload|, id, 1, payload + suffix))
  {
    var body := [id] + payload;
    VarIntRoundTrip(|body|, body + suffix);
    Assoc3(VarInt(|body|), body, suffix);
    VarIntRoundTrip(id, payload + suffix);
    assert VarInt(id) == [id];
    Assoc3([id], payload, suffix);
  }

  /** Frames can be told apart: no frame is the beginning of another. */
  lemma {:induction false} FramePrefixFree(a: seq<byte>, b: seq<byte>)
    requires |a| <= MAX_PACKET_LEN && |b| <= MAX_PACKET_LEN && Frame(a) <= Frame(b)
    ensures a == b
  {
    var tail := Frame(b)[|Frame(a)|..];
    assert Frame(a) + tail == Frame(b);
    VarIntRoundTrip(|a|, a + tail);
    VarIntRoundTrip(|b|, b);
    Assoc3(VarInt(|a|), a, tail);
    assert a + tail == b;
  }

  /** Bytes that end a VarInt of n groups so far and add nothing to it: zeros, the last
    * one cut to the four bits that are kept of it. */
  predicate PadsZero(s: seq<byte>, n: nat)
    decreases if n < 5 then 5 - n else 0
  {
    && n < 5 && s != []
    && if n == 4 then s[0] < 128 && s[0] % 16 == 0
       else s[0] == 0 || (s[0] == 128 && PadsZero(s[1..], n + 1))
  }

  /** A one as the second group of a VarInt, padded or not. */
  predicate ContinuesWithOne(s: seq<byte>) {
    s != [] && (s[0] == 1 || (s[0] == 129 && PadsZero(s[1..], 2)))
  }

  predicate Yields(s: seq<byte>, n: nat, acc: u32, v: u32) {
    ReadVarIntFrom(s, n, acc).VarIntOk? && ReadVarIntFrom(s, n, acc).v == v
  }

  lemma {:induction false} Groups(x: nat)
    ensures Shl7(x, 1) == 128 * x && Shl7(x, 2) == 0x4000 * x
    ensures Shl7(x, 3) == 0x20_0000 * x && Shl7(x, 4) == 0x1000_0000 * x
  {
    assert Shl7(x, 1) == 128 * Shl7(x, 0);
    assert Shl7(x, 2) == 128 * Shl7(x, 1);
    assert Shl7(x, 3) == 128 * Shl7(x, 2);
    assert Shl7(x, 4) == 128 * Shl7(x, 3);
  }

  /** Of the fifth group four bits are kept. */
  lemma {:induction false} FifthGroup(acc: nat, x: nat)
    requires acc < 0x1000_0000 && x < 128
    ensures (acc + 0x1000_0000 * x) % TWO_32 == acc + 0x1000_0000 * (x % 16)
  {
    assert x == 16 * (x / 16) + x % 16;
    assert acc + 0x1000_0000 * x == acc + 0x1000_0000 * (x % 16) + TWO_32 * (x / 16);
  }

  lemma {:induction false} LastGroup(s: seq<byte>, acc: u32)
    requires acc < 0x1000_0000
    ensures var r := ReadVarIntFrom(s, 4, acc);
      r.VarIntOk? <==> s != [] && s[0] < 128
    ensures s != [] && s[0] < 128 ==> ReadVarIntFrom(s, 4, acc).v == acc + 0x1000_0000 * (s[0] as int % 16)
  {
    if s != [] {
      hide Shl7;
      Groups(s[0] % 128);
      FifthGroup(acc, s[0] % 128);
    }
  }

  /** A string length of six bytes that stands for one: packet_read_string returns one,
    * and no character. */
  lemma {:induction false} OverlongLength(rest: seq<byte>)
    ensures ReadVarInt([129, 128, 128, 128, 128, 128] + rest) == VarIntTooLong(1)
  {
    hide Shl7;
    var s := [129, 128, 128, 128, 128, 128] + rest;
    Groups(1);
    Groups(0);
    assert Shl7(1, 0) == 1 by { Shl7Values(1); }
    assert s[1..][1..] == s[2..] && s[2..][1..] == s[3..] && s[3..][1..] == s[4..] && s[4..][1..] == s[5..];
    assert ReadVarIntFrom(s[5..], 5, 1) == VarIntTooLong(1);
    assert ReadVarIntFrom(s[4..], 4, 1) == VarIntTooLong(1);
    assert ReadVarIntFrom(s[3..], 3, 1) == VarIntTooLong(1);
    assert ReadVarIntFrom(s[2..], 2, 1) == VarIntTooLong(1);
    assert ReadVarIntFrom(s[1..], 1, 1) == VarIntTooLong(1);
  }

  /** The groups already read stay as the low bits of the result. */
  lemma {:induction false} LowGroupsStay(s: seq<byte>, n: nat, acc: u32) returns (q: nat)
    requires 2 <= n <= 4 && ReadVarIntFrom(s, n, acc).VarIntOk?
    requires acc < if n == 4 then 0x1000_0000 else if n == 3 then 0x20_0000 else 0x4000
    ensures ReadVarIntFrom(s, n, acc).v
         == acc + if n == 4 then 0x1000_0000 * q else if n == 3 then 0x20_0000 * q else 0x4000 * q
    decreases 4 - n
  {
    hide Shl7;
    if n == 4 {
      LastGroup(s, acc);
      q := s[0] as int % 16;
    } else {
      var x := s[0] % 128;
      Groups(x);
      q := x;
      if s[0] >= 128 {
        var q' := LowGroupsStay(s[1..], n + 1, acc + Shl7(x, n));
        q := x + 128 * q';
      }
    }
  }

  lemma {:induction false} PadsZeroIff(s: seq<byte>, n: nat, acc: u32)
    requires 2 <= n <= 4 && acc < 256
    ensures Yields(s, n, acc, acc) <==> PadsZero(s, n)
    decreases 4 - n
  {
    hide Shl7;
    if n == 4 {
      LastGroup(s, acc);
    } else if s != [] {
      Groups(1);
      Groups(s[0] % 128);
      if s[0] == 128 {
        PadsZeroIff(s[1..], n + 1, acc);
      } else if s[0] > 128 && ReadVarIntFrom(s, n, acc).VarIntOk? {
        var q := LowGroupsStay(s[1..], n + 1, acc + Shl7(s[0] % 128, n));
      }
    }
  }

  lemma {:induction false} OneIff(s: seq<byte>, g: u32)
    requires g < 128
    ensures Yields(s, 1, g, g + 128) <==> ContinuesWithOne(s)
  {
    hide Shl7;
    if s != [] {
      Groups(1);
      Groups(s[0] % 128);
      if s[0] == 129 {
        PadsZeroIff(s[1..], 2, g + 128);
      } else if s[0] >= 128 && ReadVarIntFrom(s, 1, g).VarIntOk? {
        var q := LowGroupsStay(s[1..], 2, g + Shl7(s[0] % 128, 1));
      }
    }
  }

  /** The payload of a frame is what follows its header if and only if the id is below
    * 128; the id comes back if and only if it is, or the payload, or what follows the
    * frame, happens to go on the half VarInt its one byte is. */
  lemma {:induction false} IdReadBackIff(id: byte, payload: seq<byte>, suffix: seq<byte>)
    requires |payload| < MAX_PACKET_LEN
    ensures var h := HeaderOf(Frame([id] + payload) + suffix);
      && (h.Some? && h.value.rest == payload + suffix <==> id < 128)
      && (h.Some? && h.value.id == id <==> id < 128 || ContinuesWithOne(payload + suffix))
  {
    if id < 128 {
      FrameRoundTrip(id, payload, suffix);
    } else {
      hide ReadVarIntFrom, PadsZero;
      var body, tail := [id] + payload, payload + suffix;
      VarIntRoundTrip(|body|, body + suffix);
      Assoc3(VarInt(|body|), body, suffix);
      assert body + suffix == [id] + tail;
      LargeIdGoesOn(id, tail);
      OneIff(tail, id - 128);
    }
  }

  /** The id 128 and a payload of one zero are read as the id 0 and no payload. */
  lemma {:induction false} IdLost()
    ensures HeaderOf(Frame([128] + [0]) + []) == Some(Header(2, 0, 2, []))
  {
    hide ReadVarIntFrom, Shl7;
    var body: seq<byte> := [128] + [0];
    VarIntRoundTrip(2, body + []);
    Assoc3(VarInt(2), body, []);
    assert body + [] == [128] + ([0] + []);
    LargeIdGoesOn(128, [0] + []);
    ZeroGroup();
  }

  lemma {:induction false} ZeroGroup()
    ensures ReadVarIntFrom([0] + [], 1, 0) == VarIntOk(0, 2, [])
  {
    Groups(0);
  }

  /** An id of 128 or more is the first group of a longer VarInt. */
  lemma {:induction false} LargeIdGoesOn(id: byte, tail: seq<byte>)
    requires id >= 128
    ensures ReadVarInt([id] + tail) == ReadVarIntFrom(tail, 1, id - 128)
    ensures ReadVarInt([id] + tail).VarIntOk? ==> |ReadVarInt([id] + tail).rest| < |tail|
  {
    assert ([id] + tail)[1..] == tail;
    Groups(1);
    ReadVarIntConsumesFrom(tail, 1, id - 128);
  }

  // ---- bytes put into a buffer ---------------------------------------------------------------

  /** after is before with bs put in at the given index, possibly grown. */
  ghost predicate Placed(before: seq<byte>, after: seq<byte>, at: int, bs: seq<byte>) {
    && 0 <= at <= |before| <= |after| && at + |bs| <= |after|
    && after[at..at + |bs|] == bs
    && forall k | 0 <= k < |before| && !(at <= k < at + |bs|) :: after[k] == before[k]
  }

  lemma {:induction false} PlaceNothing(s: seq<byte>, at: int)
    requires 0 <= at <= |s|
    ensures Placed(s, s, at, [])
  {
  }

  lemma {:induction false} PlaceMore(s0: seq<byte>, s1: seq<byte>, s2: seq<byte>, at: int, bs: seq<byte>, b: byte)
    requires Placed(s0, s1, at, bs) && Placed(s1, s2, at + |bs|, [b])
    ensures Placed(s0, s2, at, bs + [b])
  {
    var e := at + |bs|;
    assert s2[e] == s2[e..e + 1][0] == b;
    assert forall k | 0 <= k < |bs| :: s2[at + k] == s1[at + k] == s1[at..e][k] == bs[k];
  }

  /** Put in at the end of what is there, it is appended to it. */
  lemma {:induction false} PlacedAtEnd(before: seq<byte>, after: seq<byte>, at: int, bs: seq<byte>)
    requires Placed(before, after, at, bs)
    ensures after[..at + |bs|] == before[..at] + bs
  {
    assert forall k | 0 <= k < at :: after[k] == before[k];
    assert after[..at + |bs|] == after[..at] + after[at..at + |bs|];
  }

  /** Byte n of a VarInt of which i is left, and what is left then. */
  lemma {:induction false} VarIntHead(i: nat, whole: seq<byte>, n: nat)
    requires n <= |whole| && VarInt(i) == whole[n..]
    ensures n < |whole| && whole[n] == if i / 128 == 0 then i % 128 else i % 128 + 128
    ensures if i / 128 == 0 then n + 1 == |whole| else VarInt(i / 128) == whole[n + 1..]
  {
    assert whole[n] == whole[n..][0] && whole[n + 1..] == whole[n..][1..];
  }

  /** How many of n bytes still fit. */
  function Fit(len: int, n: nat): (f: nat)
    ensures f <= n
  {
    if len + n <= MAX_PACKET_LEN then n else if len < MAX_PACKET_LEN then MAX_PACKET_LEN - len else 0
  }

  lemma {:induction false} PlaceTwo(s0: seq<byte>, s1: seq<byte>, s2: seq<byte>, at: int, a: seq<byte>, b: seq<byte>)
    requires Placed(s0, s1, at, a) && Placed(s1, s2, at + |a|, b)
    ensures Placed(s0, s2, at, a + b)
  {
    var e := at + |a|;
    assert forall k | at <= k < e :: s2[k] == s1[k] == s1[at..e][k - at];
    assert forall k | e <= k < e + |b| :: s2[k] == s2[e..e + |b|][k - e];
  }

  /** What fits of two pieces is what fits of the first and then of the second. */
  lemma {:induction false} FitBoth(len: int, a: nat, b: nat)
    requires len >= 0
    ensures Fit(len, a + b) == Fit(len, a) + Fit(len + Fit(len, a), b)
  {
  }

  lemma {:induction false} TakeBoth(a: seq<byte>, b: seq<byte>, i: nat, j: nat)
    requires i <= |a| && j <= |b| && (i < |a| ==> j == 0)
    ensures a[..i] + b[..j] == (a + b)[..i + j]
  {
  }

  /** What packet_write_string returns for n characters when that many bytes are left. */
  function StringResult(free: int, n: nat): int {
    var len := |VarInt(n)|;
    var room := if free <= len then 0 else Min(free - len, n);
    if room == n then len + n
    else if room == n - 1 then len + room + PACKET_TOO_BIG
    else PACKET_TOO_BIG
  }

  lemma {:induction false} ShortLength(n: nat)
    ensures |VarInt(n)| >= 1 && (n < 128 ==> |VarInt(n)| == 1)
  {
  }

  lemma {:induction false} StringResultFits(len: nat, n: nat)
    ensures var l := |VarInt(n)|; var room := Fit(len + Fit(len, l), n);
      StringResult(MAX_PACKET_LEN - len, n) ==
        if room == n then l + n else if room == n - 1 then l + room + PACKET_TOO_BIG else PACKET_TOO_BIG
  {
    hide VarInt;
  }

  /** Exactly the overflows that show. */
  lemma {:induction false} StringErrorIff(free: int, n: nat)
    ensures var whole := |VarInt(n)| + n;
      StringResult(free, n) < 0 <==> whole > free && n > 0 && !(n >= 3 && whole == free + 1)
  {
    hide VarInt;
    ShortLength(n);
  }

  /** So the result tells whether the string was written if and only if the string is
    * neither empty, without room for its length, nor one byte too long. */
  lemma {:induction false} StringResultTellsIff(free: int, n: nat)
    ensures var whole := |VarInt(n)| + n;
      (StringResult(free, n) >= 0 <==> whole <= free)
      <==> !(whole > free && (n == 0 || (n >= 3 && whole == free + 1)))
  {
    StringErrorIff(free, n);
  }

  /** On a full packet the length of the empty string is lost and one byte reported; of
    * three characters the last is lost and nothing reported; and where one character does
    * not fit, the error is taken for that of a long VarInt. */
  lemma {:induction false} StringLost()
    ensures StringResult(0, 0) == 1 && Fit(MAX_PACKET_LEN, 1) == 0
    ensures StringResult(3, 3) == 0 && Fit(MAX_PACKET_LEN - 3, 1 + 3) == 3
    ensures StringResult(1, 1) == PACKET_VARINT_TOO_LONG
  {
    ShortLength(0);
    ShortLength(1);
    ShortLength(3);
  }

  // ---- the buffer ---------------------------------------------------------------------------

  datatype Mode = Reading | Writing

  /** What becomes of a packet that is finalized. With PastBuffer the source would move
    * the body past the end of its buffer. */
  datatype Finish = Framed | TooLong | PastBuffer

  class Packet {
    var packetId: int
    var packetLen: int
    var dataLen: nat
    var data: array<byte>
    var index: int
    var mode: Mode

    ghost predicate Valid()
      reads this
    {
      dataLen == data.Length && dataLen % PACKET_BLOCK_SIZE == 0
    }

    /** Bytes go in at index; the packet is filled up to packetLen. */
    ghost predicate CanWrite()
      reads this
    {
      Valid() && mode == Writing && 0 <= index <= packetLen <= dataLen
    }

    ghost function Contents(): seq<byte>
      requires 0 <= packetLen <= data.Length
      reads this, data
    {
      data[..packetLen]
    }

    constructor ()
      ensures Valid() && fresh(data) && dataLen == PACKET_BLOCK_SIZE && packetLen == 0 && index == 0
    {
      packetId, packetLen, index, mode := 0, 0, 0, Reading;
      dataLen := PACKET_BLOCK_SIZE;
      data := new byte[PACKET_BLOCK_SIZE](_ => 0);
    }

    method TryResize(newSize: nat) returns (err: int)
      requires Valid()
      modifies this`data, this`dataLen
      ensures Valid() && (data == old(data) || fresh(data))
      ensures err == if newSize > MAX_PACKET_LEN then PACKET_TOO_BIG else 0
      ensures dataLen == if newSize > MAX_PACKET_LEN then old(dataLen) else Grown(old(dataLen), newSize)
      ensures dataLen >= old(dataLen) && data[..old(dataLen)] == old(data[..])
      ensures dataLen == old(dataLen) ==> data == old(data)
    {
      if newSize > MAX_PACKET_LEN {
        err := PACKET_TOO_BIG;
      } else {
        if newSize > dataLen {
          var newLen := dataLen;
          while newLen < newSize
            invariant newLen >= dataLen && Grown(newLen, newSize) == Grown(dataLen, newSize)
          {
            newLen := newLen + PACKET_BLOCK_SIZE;
          }
          Realloc(newLen);
        }
        err := 0;
      }
    }

    /** A buffer of the new length that starts with the old one. */
    method Realloc(newLen: nat)
      requires dataLen >= data.Length && newLen >= data.Length && newLen % PACKET_BLOCK_SIZE == 0
      modifies this`data, this`dataLen
      ensures Valid() && fresh(data) && dataLen == newLen && data[..old(data.Length)] == old(data[..])
    {
      var was := data;
      var buf := new byte[newLen](i reads was => if 0 <= i < was.Length then was[i] else 0);
      assert buf[..was.Length] == was[..];
      data := buf;
      dataLen := newLen;
    }

    /** One byte at index; the packet grows by one. */
    method WriteByte(b: byte) returns (n: int)
      requires CanWrite()
      modifies this`data, this`dataLen, this`index, this`packetLen, data
      ensures CanWrite() && (data == old(data) || fresh(data))
      ensures n == if old(packetLen) < MAX_PACKET_LEN then 1 else PACKET_TOO_BIG
      ensures n < 0 ==> index == old(index) && packetLen == old(packetLen)
      ensures n < 0 ==> data == old(data) && data[..] == old(data[..])
      ensures n == 1 ==> index == old(index) + 1 && packetLen == old(packetLen) + 1
      ensures n == 1 ==> dataLen == Grown(old(dataLen), packetLen)
      ensures n == 1 ==> Placed(old(data[..]), data[..], old(index), [b])
    {
      hide Grown;
      var err := TryResize(packetLen + 1);
      if err != 0 {
        return err;
      }
      data[index] := b;
      index := index + 1;
      packetLen := packetLen + 1;
      n := 1;
    }

    method WriteBytes(bs: seq<byte>) returns (n: int)
      requires CanWrite()
      modifies this`data, this`dataLen, this`index, this`packetLen, data
      ensures CanWrite() && (data == old(data) || fresh(data))
      ensures n == if old(packetLen) + |bs| <= MAX_PACKET_LEN then |bs| else PACKET_TOO_BIG
      ensures n < 0 ==> index == old(index) && packetLen == old(packetLen)
      ensures n < 0 ==> data == old(data) && data[..] == old(data[..])
      ensures n >= 0 ==> index == old(index) + |bs| && packetLen == old(packetLen) + |bs|
      ensures n >= 0 ==> dataLen == Grown(old(dataLen), packetLen)
      ensures n >= 0 ==> Placed(old(data[..]), data[..], old(index), bs)
    {
      hide Grown;
      var err := TryResize(packetLen + |bs|);
      if err != 0 {
        return err;
      }
      var at := index;
      forall i | 0 <= i < |bs| {
        data[at + i] := bs[i];
      }
      index := index + |bs|;
      packetLen := packetLen + |bs|;
      n := |bs|;
      assert forall i | 0 <= i < |bs| :: data[at + i] == bs[i];
      assert data[at..at + |bs|] == bs;
    }

    /** The bytes of a VarInt, as many as fit; a byte that does not is dropped
      * without an error. */
    method WriteVarint(i: u32) returns (n: int)
      requires CanWrite()
      modifies this`data, this`dataLen, this`index, this`packetLen, data
      ensures CanWrite() && (data == old(data) || fresh(data))
      ensures n == |VarInt(i)|
      ensures var fit := Fit(old(packetLen), n);
        && index == old(index) + fit && packetLen == old(packetLen) + fit
        && Placed(old(data[..]), data[..], old(index), VarInt(i)[..fit])
      ensures dataLen == Grown(old(dataLen), packetLen)
    {
      hide Grown, Placed, VarInt;
      n := 0;
      var rest: nat := i;
      var more := true;
      ghost var whole, done := VarInt(i), [];
      PlaceNothing(data[..], index);
      GrownEnough(dataLen, packetLen);
      while more
        invariant dataLen == Grown(old(dataLen), packetLen)
        invariant CanWrite() && (data == old(data) || fresh(data))
        invariant 0 <= n <= |whole| && (if more then VarInt(rest) == whole[n..] else n == |whole|)
        invariant done == whole[..Fit(old(packetLen), n)]
        invariant index == old(index) + |done| && packetLen == old(packetLen) + |done|
        invariant Placed(old(data[..]), data[..], old(index), done)
        decreases more, rest
      {
        VarIntHead(rest, whole, n);
        var low := rest % 128;
        rest := rest / 128;
        var temp := if rest != 0 then low + 128 else low;
        assert temp == whole[n];
        ghost var before := data[..];
        var put := WriteByte(temp);
        GrownTwice(old(dataLen), packetLen - 1, packetLen);
        if put == 1 {
          PlaceMore(old(data[..]), before, data[..], old(index), done, temp);
          done := done + [temp];
        }
        n := n + 1;
        more := rest != 0;
      }
    }

    /** A length and the bytes, as many as fit. An overflow shows, unless the string is
      * empty, or has three bytes or more of which only the last did not fit: then the
      * code of the error is added to the byte count. */
    method WriteString(s: seq<byte>) returns (r: int)
      requires CanWrite() && |s| < 0x8000_0000
      modifies this`data, this`dataLen, this`index, this`packetLen, data
      ensures CanWrite() && (data == old(data) || fresh(data))
      ensures var whole := VarInt(|s|) + s;
        var fit := Fit(old(packetLen), |whole|);
        && index == old(index) + fit && packetLen == old(packetLen) + fit
        && Placed(old(data[..]), data[..], old(index), whole[..fit])
      ensures dataLen == Grown(old(dataLen), packetLen)
      ensures r == StringResult(MAX_PACKET_LEN - old(packetLen), |s|)
      ensures var free, whole := MAX_PACKET_LEN - old(packetLen), |VarInt(|s|)| + |s|;
        r < 0 <==> whole > free && s != [] && !(|s| >= 3 && whole == free + 1)
    {
      hide Grown, Placed, VarInt, StringResult;
      StringErrorIff(MAX_PACKET_LEN - packetLen, |s|);
      StringResultFits(packetLen, |s|);
      var lenBytes := WriteVarint(|s|);
      ghost var middle, prefix := data[..], VarInt(|s|)[..Fit(old(packetLen), lenBytes)];
      ghost var fit := Fit(packetLen, |s|);
      ghost var middleLen := packetLen;
      var nBytes, i, n := WriteChars(s);
      GrownTwice(old(dataLen), middleLen, packetLen);
      PlaceTwo(old(data[..]), middle, data[..], old(index), prefix, s[..fit]);
      FitBoth(old(packetLen), lenBytes, |s|);
      TakeBoth(VarInt(|s|), s, |prefix|, fit);
      if i != |s| {
        r := n;
      } else {
        r := lenBytes + nBytes;
      }
    }

    /** The loop over the characters: it stops behind the first that does not fit. */
    method WriteChars(s: seq<byte>) returns (nBytes: int, i: nat, n: int)
      requires CanWrite()
      modifies this`data, this`dataLen, this`index, this`packetLen, data
      ensures CanWrite() && (data == old(data) || fresh(data))
      ensures var fit := Fit(old(packetLen), |s|);
        && index == old(index) + fit && packetLen == old(packetLen) + fit
        && Placed(old(data[..]), data[..], old(index), s[..fit])
        && dataLen == Grown(old(dataLen), packetLen)
        && (if fit == |s| then n == 1 && i == nBytes == |s|
            else n == PACKET_TOO_BIG && i == fit + 1 && nBytes == fit + n)
    {
      hide Grown, Placed;
      nBytes, i, n := 0, 0, 1;
      PlaceNothing(data[..], index);
      GrownEnough(dataLen, packetLen);
      while n == 1 && i < |s|
        invariant dataLen == Grown(old(dataLen), packetLen)
        invariant CanWrite() && (data == old(data) || fresh(data))
        invariant 0 <= i <= |s| && nBytes + (if n == 1 then 0 else 1 - n) == i
        invariant index == old(index) + Fit(old(packetLen), i) && packetLen == old(packetLen) + Fit(old(packetLen), i)
        invariant if n == 1 then Fit(old(packetLen), i) == i
                  else n == PACKET_TOO_BIG && Fit(old(packetLen), i) == i - 1 == Fit(old(packetLen), |s|)
        invariant Placed(old(data[..]), data[..], old(index), s[..Fit(old(packetLen), i)])
        decreases |s| - i
      {
        ghost var before := data[..];
        n := WriteByte(s[i]);
        GrownTwice(old(dataLen), packetLen - 1, packetLen);
        if n == 1 {
          PlaceMore(old(data[..]), before, data[..], old(index), s[..i], s[i]);
          assert s[..i] + [s[i]] == s[..i + 1];
        }
        i := i + 1;
        nBytes := nBytes + n;
      }
    }

    /** A new packet that holds its id. */
    method MakePacket(id: int)
      requires Valid() && dataLen > 0
      modifies this`data, this`dataLen, this`index, this`packetLen, this`packetId, this`mode, data
      ensures CanWrite() && (data == old(data) || fresh(data))
      ensures packetId == id && packetLen == index == 1 && Contents() == [id % 256]
      ensures dataLen == old(dataLen)
    {
      GrownEnough(dataLen, 1);
      hide Grown;
      mode := Writing;
      packetLen := 0;
      index := 0;
      packetId := id;
      var _ := WriteByte(id % 256);
      assert data[0..1] == [id % 256];
    }

    /** The length is put in front of the body and the packet closed; closing it
      * again changes nothing. The body is moved before the buffer can grow, so
      * there must be room for the prefix. */
    method Finalize() returns (f: Finish)
      requires packetId != FINISHED_PACKET_ID ==> CanWrite() && 0 < packetLen
      modifies this`data, this`dataLen, this`index, this`packetLen, this`packetId, data
      ensures old(packetId) == FINISHED_PACKET_ID ==>
        f == Framed && unchanged(this) && unchanged(data)
      ensures old(packetId) != FINISHED_PACKET_ID ==>
        var total := old(packetLen) + |VarInt(old(packetLen))|;
        f == if total > MAX_PACKET_LEN then TooLong else if total > old(dataLen) then PastBuffer else Framed
      ensures f != Framed ==> unchanged(this) && unchanged(data)
      ensures f == Framed && old(packetId) != FINISHED_PACKET_ID ==>
        && CanWrite() && (data == old(data) || fresh(data)) && packetId == FINISHED_PACKET_ID
        && Contents() == Frame(old(Contents()))
    {
      if packetId == FINISHED_PACKET_ID {
        return Framed;
      }
      hide Grown, Placed, VarInt, PrefixLen;
      var prefix := CountPrefix(packetLen);
      PrefixLenIsVarInt(packetLen);
      if packetLen + prefix > MAX_PACKET_LEN {
        return TooLong;
      }
      if packetLen + prefix > dataLen {
        return PastBuffer;
      }
      ghost var body := Contents();
      MoveBody(prefix);
      ghost var moved := data[..];
      var len := packetLen;
      index := 0;
      var n := WriteVarint(len);
      packetLen := len + n;
      packetId := FINISHED_PACKET_ID;
      PlacedInFront(moved, data[..], VarInt(len), body);
      f := Framed;
    }

    /** The body moves up to make room for a prefix. */
    method MoveBody(prefix: nat)
      requires CanWrite() && packetLen + prefix <= dataLen
      modifies data
      ensures data[prefix..prefix + packetLen] == old(Contents())
    {
      forall i | 0 <= i < packetLen {
        data[i + prefix] := data[i];
      }
    }

    method CountPrefix(n: nat) returns (bytes: nat)
      ensures bytes == PrefixLen(n)
    {
      var len := n;
      bytes := 0;
      while len != 0
        invariant bytes + PrefixLen(len) == PrefixLen(n)
      {
        len := len / 128;
        bytes := bytes + 1;
      }
    }

    /** Reads a header and its payload off a stream: the result is negative or zero
      * for an error and positive otherwise, and rest is what the stream still holds.
      * A second VarInt that cannot be read is not reported. */
    method ReadHeader(input: seq<byte>) returns (n: int, rest: seq<byte>)
      requires Valid()
      requires HeaderOf(input).Some? ==> SizeLoopEnds(HeaderOf(input).value)
      modifies this`data, this`dataLen, this`index, this`packetLen, this`packetId, this`mode, data
      ensures n != PACKET_TOO_BIG ==> Valid()
      ensures (data == old(data) || fresh(data)) && mode == Reading
      ensures ReadVarInt(input).VarIntEof? ==> n == 0 && rest == []
      ensures ReadVarInt(input).VarIntTooLong? ==> n == PACKET_VARINT_TOO_LONG
      ensures ReadVarInt(input).VarIntOk? && HeaderOf(input).None? ==> n == ReadVarInt(input).n > 0
      ensures HeaderOf(input).Some? ==>
        var h := HeaderOf(input).value;
        var payload := SizeT(h.len - h.idLen);
        && packetLen == h.len && packetId == h.id
        && (if Grown(old(dataLen), payload) > MAX_PACKET_LEN then n == PACKET_TOO_BIG
            else
              && n == Min(payload, |h.rest|) <= dataLen && data[..n] == h.rest[..n] && rest == h.rest[n..]
              && dataLen == Grown(old(dataLen), payload)
              && index == if n > 0 then 0 else old(index))
    {
      hide Grown, ReadVarInt;
      mode := Reading;
      var v, used;
      n, v, used := ReadVarintGen(input);
      packetLen := Signed32(v);
      rest := input[used..];
      if n <= 0 {
        return;
      }
      var idLen;
      idLen, v, used := ReadVarintGen(rest);
      packetId := Signed32(v);
      rest := rest[used..];
      if idLen <= 0 {
        return;
      }
      ghost var h := HeaderOf(input).value;
      assert h == Header(packetLen, packetId, idLen, rest);
      n, rest := ReadPayload(SizeT(packetLen - idLen), rest);
    }

    /** Makes room for the payload and reads what of it the stream holds. */
    method ReadPayload(payload: nat, input: seq<byte>) returns (n: int, rest: seq<byte>)
      requires Valid()
      modifies this`data, this`dataLen, this`index, data
      ensures data == old(data) || fresh(data)
      ensures if Grown(old(dataLen), payload) > MAX_PACKET_LEN then n == PACKET_TOO_BIG
              else
                && Valid() && n == Min(payload, |input|) <= dataLen && data[..n] == input[..n] && rest == input[n..]
                && dataLen == Grown(old(dataLen), payload)
                && index == if n > 0 then 0 else old(index)
    {
      rest := input;
      var oldLen := dataLen;
      while payload > dataLen
        invariant dataLen >= oldLen && dataLen % PACKET_BLOCK_SIZE == 0
        invariant Grown(dataLen, payload) == Grown(oldLen, payload)
        decreases payload - dataLen
        modifies this`dataLen
      {
        dataLen := dataLen + PACKET_BLOCK_SIZE;
      }
      if dataLen > MAX_PACKET_LEN {
        n := PACKET_TOO_BIG;
        return;
      } else if dataLen != oldLen {
        Realloc(dataLen);
      }
      n := Min(payload, |rest|);
      forall i | 0 <= i < n {
        data[i] := rest[i];
      }
      assert data[..n] == rest[..n];
      rest := rest[n..];
      if n <= 0 {
        return;
      }
      index := 0;
    }

    /** The bytes a read may still take. */
    ghost function Remaining(): seq<byte>
      requires CanRead()
      reads this, data
    {
      data[index..packetLen]
    }

    ghost predicate CanRead()
      reads this
    {
      Valid() && mode == Reading && 0 <= index <= packetLen <= dataLen && packetLen <= MAX_PACKET_LEN
    }

    method ReadByte() returns (ok: bool, b: byte)
      requires CanRead()
      modifies this`index
      ensures CanRead() && ok == (old(Remaining()) != [])
      ensures if ok then index == old(index) + 1 && b == old(Remaining())[0] else b == 0 && index == old(index)
    {
      if index >= MAX_PACKET_LEN || index >= packetLen {
        return false, 0;
      }
      b := data[index];
      index := index + 1;
      ok := true;
    }

    /** packet_read_varint */
    method ReadVarint() returns (n: int, v: u32)
      requires CanRead()
      modifies this`index
      ensures CanRead()
      ensures match ReadVarInt(old(Remaining()))
        case VarIntOk(value, len, rest) => n == len && v == value && Remaining() == rest
        case VarIntEof(value) => n == 0 && v == value && Remaining() == []
        case VarIntTooLong(value) => n == PACKET_VARINT_TOO_LONG && v == value
    {
      hide ReadVarIntFrom;
      var used;
      n, v, used := ReadVarintGen(data[index..packetLen]);
      index := index + used;
    }

    /** The bytes of a string; its length must be below bufLen. At the end of the packet
      * the string is empty if what could be read of its length is zero. A length of more
      * than five bytes is returned as if it were the string's, negative or not. */
    method ReadString(bufLen: nat) returns (r: int, s: seq<byte>)
      requires CanRead() && bufLen > 0
      modifies this`index
      ensures CanRead()
      ensures ReadVarInt(old(Remaining())).VarIntOk? ==>
        var VarIntOk(v, _, rest) := ReadVarInt(old(Remaining()));
        var len := Signed32(v);
        if 0 <= len < bufLen && len <= |rest| then r == len && s == rest[..len] && Remaining() == rest[len..]
        else r == PACKET_STRING_TOO_LONG
      ensures ReadVarInt(old(Remaining())).VarIntTooLong? ==>
        s == [] && r == Signed32(ReadVarInt(old(Remaining())).v)
      ensures ReadVarInt(old(Remaining())).VarIntEof? ==>
        && Remaining() == [] && s == []
        && r == if ReadVarInt(old(Remaining())).v == 0 then 0 else PACKET_STRING_TOO_LONG
    {
      hide ReadVarInt, ReadVarIntFrom;
      var n, v := ReadVarint();
      var len := Signed32(v);
      s := [];
      if n < 0 {
        return len, s;
      }
      ghost var rest := Remaining();
      s := ReadChars(Min(bufLen - 1, len));
      assert s == rest[..|s|] && Remaining() == rest[|s|..];
      if |s| != len {
        return PACKET_STRING_TOO_LONG, s;
      }
      r := |s|;
    }

    /** The loop of packet_read_string. */
    method ReadChars(limit: int) returns (s: seq<byte>)
      requires CanRead()
      modifies this`index
      ensures CanRead() && |s| == if limit <= 0 then 0 else Min(limit, |old(Remaining())|)
      ensures s + Remaining() == old(Remaining())
    {
      s := [];
      var more := true;
      while more && |s| < limit
        invariant CanRead() && old(index) <= index && s == data[old(index)..index]
        invariant limit >= 0 ==> |s| <= limit
        invariant limit < 0 ==> s == []
        invariant !more ==> index == packetLen
        decreases packetLen - index, more
      {
        var b;
        more, b := ReadByte();
        if more {
          s := s + [b];
        }
      }
      assert data[old(index)..packetLen] == data[old(index)..index] + data[index..packetLen];
    }
  }

  lemma {:induction false} PlacedInFront(before: seq<byte>, after: seq<byte>, bs: seq<byte>, body: seq<byte>)
    requires Placed(before, after, 0, bs) && |bs| + |body| <= |before|
    requires before[|bs|..|bs| + |body|] == body
    ensures after[..|bs| + |body|] == bs + body
  {
    assert forall k | |bs| <= k < |bs| + |body| :: after[k] == before[k] == body[k - |bs|];
  }
}
