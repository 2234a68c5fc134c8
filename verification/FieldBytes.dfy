/** What single fields look like on the wire, number by number, and the join_game packet,
  * byte by byte. */
module FieldBytes {
  import opened Bytes
  import opened PacketBytes
  import opened Protocol
  import opened Schema
  import opened SchemaConds
  import SchemaRefusals
  import SchemaRoundTrip
  import Nbt

  // ---- numbers ---------------------------------------------------------------------------------

  /** The values a number of each kind can have; floats are their bits. */
  lemma {:induction false} PrimRanges(v: int)
    ensures PBool.Holds(v) <==> v == 0 || v == 1
    ensures PByte.Holds(v) <==> -128 <= v <= 127
    ensures PUByte.Holds(v) <==> 0 <= v <= 255
    ensures PShort.Holds(v) <==> -32768 <= v <= 32767
    ensures PUShort.Holds(v) <==> 0 <= v <= 65535
    ensures PInt.Holds(v) <==> -2147483648 <= v <= 2147483647
    ensures PVarInt.Holds(v) <==> PInt.Holds(v)
    ensures PFloat.Holds(v) <==> 0 <= v <= 4294967295
    ensures PLong.Holds(v) <==> -9223372036854775808 <= v <= 9223372036854775807
    ensures PPosition.Holds(v) <==> PLong.Holds(v)
    ensures PDouble.Holds(v) <==> 0 <= v <= 18446744073709551615
  {
    Powers();
    hide Pow256;
  }

  /** A negative number is written as its two's complement. */
  lemma {:induction false} PrimBytes(v: int)
    ensures EncodePrim(PBool, v) == EncodePrim(PByte, v) == EncodePrim(PUByte, v) == [v % 0x100]
    ensures EncodePrim(PShort, v) == EncodePrim(PUShort, v) == BigEndian(v % 0x1_0000, 2)
    ensures EncodePrim(PInt, v) == EncodePrim(PFloat, v) == BigEndian(v % 0x1_0000_0000, 4)
    ensures EncodePrim(PLong, v) == EncodePrim(PPosition, v) == BigEndian(v % 0x1_0000_0000_0000_0000, 8)
    ensures EncodePrim(PDouble, v) == BigEndian(v % 0x1_0000_0000_0000_0000, 8)
    ensures EncodePrim(PVarInt, v) == VarInt(v % 0x1_0000_0000)
  {
    Powers();
    OneByte(v % 256);
    hide Pow256, BigEndian, VarInt;
  }

  // ---- strings and slots -------------------------------------------------------------------------

  /** A string is read if and only if it is no longer than the field allows. */
  lemma {:induction false} StringLimit(max: nat, s: seq<byte>, rest: seq<byte>)
    requires |s| < 0x8000_0000
    ensures ReadString(max, EncodeString(s) + rest) == if |s| <= max then Some((s, rest)) else None
  {
    Assoc3(VarInt(|s|), s, rest);
    VarIntRoundTrip(|s|, s + rest);
    PrimRanges(|s|);
    assert (s + rest)[..|s|] == s && (s + rest)[|s|..] == rest;
  }

  /** No item, and 64 of item 1 without NBT. */
  lemma {:induction false} SlotBytes()
    ensures EncodeSlot(Absent) == [0] && EncodeSlot(Present(1, 64, None)) == [1, 1, 64, 0]
  {
    hide Nbt.PackRoot, EncodePrim;
    ItemNumbers();
    var id: seq<byte>, count: seq<byte>, nbt: seq<byte> := [1], [64], [0];
    assert EncodeSlotNbt(None) == nbt;
    hide EncodeSlotNbt;
    assert EncodeSlot(Present(1, 64, None)) == [1] + id + count + nbt;
  }

  lemma {:induction false} ItemNumbers()
    ensures EncodePrim(PVarInt, 1) == [1] && EncodePrim(PByte, 64) == [64]
  {
    hide *;
    SmallVarInt(1);
    PrimBytes(1);
    PrimBytes(64);
  }

  /** They are read back, the item with an empty compound. */
  lemma {:induction false} SlotsReadBack(rest: seq<byte>)
    ensures ReadSlot([0] + rest) == Some((Absent, rest))
    ensures ReadSlot([1, 1, 64, 0] + rest) == Some((Present(1, 64, Some(EMPTY_NBT)), rest))
  {
    var zero: seq<byte>, item: seq<byte>, all: seq<byte> := [0], [64, 0], [1, 1, 64, 0];
    assert (zero + rest)[1..] == rest && (item + rest)[1..] == zero + rest;
    assert (all + rest)[1..] == [1] + (item + rest);
    SmallVarInt(1);
    VarIntRoundTrip(1, item + rest);
    assert Nbt.ParseRoot(zero + rest) == Some((EMPTY_NBT, rest));
    hide Nbt.ParseRoot, ReadVarInt;
  }

  /** A UUID takes 16 bytes. */
  lemma {:induction false} UuidBytes(all: seq<byte>, env: Env, input: seq<byte>)
    ensures ReadType(all, TUuid, env, input) ==
            if |input| >= 16 then Some((Blob(input[..16]), input[16..])) else None
  {
  }

  // ---- at the end of the packet ------------------------------------------------------------------

  /** A number of one byte is then 0, a wider one has no value, and a VarInt is what its
    * groups add up to so far. */
  lemma {:induction false} NumbersAtEnd(p: Prim, input: seq<byte>)
    requires |input| < (if p.PVarInt? then 6 else p.Width()) && forall i | 0 <= i < |input| :: input[i] >= 128
    ensures ReadPrim(p, input) ==
            if p.PVarInt? then Some((Signed(PVarInt, Groups7(input) % TWO_32), []))
            else if p == PBool || p == PByte || p == PUByte then Some((0, []))
            else None
  {
    if p.PVarInt? {
      hide ReadVarIntFrom;
      ReadVarIntEnds(input);
    }
  }

  /** A slot keeps the zeros it was allocated with for what is missing. */
  lemma {:induction false} SlotAtEnd(id: nat)
    requires id < 0x8000_0000
    ensures ReadSlot([]) == Some((Absent, []))
    ensures ReadSlot([1] + VarInt(id)) == Some((Present(id, 0, None), []))
  {
    hide ReadVarIntFrom, VarInt;
    assert ([1] + VarInt(id))[1..] == VarInt(id) == VarInt(id) + [];
    VarIntRoundTrip(id, []);
  }
}
