/** The light and chunk packets as the server fills them, byte by byte, and field by field
  * as they are read back. */
module PacketBytes {
  import opened Bytes
  import opened Schema
  import opened Protocol
  import ChunkPacket
  import Nbt

  // ---- from fields to bytes ------------------------------------------------------------------

  /** Field i writes part i and takes frame i to the next. */
  ghost predicate Steps(fs: seq<Field>, outer: Env, vs: seq<Value>, parts: seq<seq<byte>>, frames: seq<seq<Value>>) {
    && |fs| == |vs| == |parts| && |frames| == |fs| + 1
    && forall i | 0 <= i < |fs| :: WriteField(fs[i], frames[i], outer, vs[i]) == Wrote(parts[i], frames[i + 1])
  }

  lemma {:induction false} StepsJoin(fs: seq<Field>, outer: Env, vs: seq<Value>, parts: seq<seq<byte>>,
          frames: seq<seq<Value>>, k: nat)
    requires Steps(fs, outer, vs, parts, frames) && k <= |fs|
    ensures WriteFields(fs[k..], frames[k], outer, vs[k..]) == Wrote(Joined(parts[k..]), frames[|fs|])
    decreases |fs| - k
  {
    hide WriteField;
    if k < |fs| {
      StepsJoin(fs, outer, vs, parts, frames, k + 1);
      assert fs[k..][1..] == fs[k + 1..] && vs[k..][1..] == vs[k + 1..] && parts[k..][1..] == parts[k + 1..];
    }
  }

  lemma {:induction false} StepsConform(fs: seq<Field>, outer: Env, vs: seq<Value>, parts: seq<seq<byte>>,
          frames: seq<seq<Value>>, k: nat)
    requires Steps(fs, outer, vs, parts, frames) && k <= |fs|
    requires forall i | 0 <= i < |fs| :: ConformsField(fs[i], frames[i], outer, vs[i])
    ensures ConformsFields(fs[k..], frames[k], outer, vs[k..])
    decreases |fs| - k
  {
    hide WriteField, ConformsField;
    if k < |fs| {
      StepsConform(fs, outer, vs, parts, frames, k + 1);
      assert fs[k..][1..] == fs[k + 1..] && vs[k..][1..] == vs[k + 1..];
    }
  }

  /** The values that are left, field by field. */
  function Frames(ws: seq<Value>): (frames: seq<seq<Value>>)
    ensures |frames| == |ws| + 1
  {
    seq(|ws| + 1, i requires 0 <= i <= |ws| => ws[..i])
  }

  /** Fields without conditions, each written under the values left before it. */
  lemma {:induction false} SimpleFields(fs: seq<Field>, outer: Env, vs: seq<Value>, ws: seq<Value>,
          parts: seq<seq<byte>>)
    requires |fs| == |vs| == |ws| == |parts|
    requires forall i | 0 <= i < |fs| :: fs[i].cond.None? && !fs[i].ty.TTypedBytes?
    requires forall i | 0 <= i < |fs| :: WriteType(fs[i].ty, [ws[..i]] + outer, vs[i]) == Wrote(parts[i], ws[i])
    ensures Steps(fs, outer, vs, parts, Frames(ws))
    ensures WriteFields(fs, [], outer, vs) == Wrote(Joined(parts), ws)
  {
    forall i | 0 <= i < |fs|
      ensures WriteField(fs[i], Frames(ws)[i], outer, vs[i]) == Wrote(parts[i], Frames(ws)[i + 1])
    {
      assert ws[..i] + [ws[i]] == ws[..i + 1];
    }
    StepsJoin(fs, outer, vs, parts, Frames(ws), 0);
    assert fs[0..] == fs && vs[0..] == vs && parts[0..] == parts && ws[..0] == [] && ws[..|fs|] == ws;
  }

  lemma {:induction false} ElemsJoin(elem: Type, env: Env, vs: seq<Value>, parts: seq<seq<byte>>)
    requires |vs| == |parts| && forall k | 0 <= k < |vs| :: WriteType(elem, env, vs[k]) == Wrote(parts[k], vs[k])
    ensures WriteElems(elem, env, vs) == Wrote(Joined(parts), vs)
    decreases |vs|
  {
    hide WriteType;
    if vs != [] {
      ElemsJoin(elem, env, vs[1..], parts[1..]);
      assert [vs[0]] + vs[1..] == vs;
    }
  }

  // ---- update_light -----------------------------------------------------------------------------

  /** Every array with its length, 2048, before it. */
  function LightParts(arrays: seq<seq<byte>>): (parts: seq<seq<byte>>)
    ensures |parts| == |arrays|
  {
    seq(|arrays|, k requires 0 <= k < |arrays| => [128, 16] + arrays[k])
  }

  lemma {:induction false} LightLength()
    ensures EncodePrim(PVarInt, ChunkPacket.SECTION_LIGHT_LEN) == [128, 16]
  {
    assert VarInt(2048) == [128] + VarInt(16);
  }

  lemma {:induction false} LightArrayBytes(env: Env, bs: seq<byte>)
    ensures var v := Rec([Num(ChunkPacket.SECTION_LIGHT_LEN), Blob(bs)]);
            WriteType(LIGHT_ARRAY, env, v) == Wrote([128, 16] + bs, v)
  {
    hide WriteFields, EncodePrim;
    var vs := [Num(ChunkPacket.SECTION_LIGHT_LEN), Blob(bs)];
    var parts: seq<seq<byte>> := [[128, 16], bs];
    LightLength();
    SimpleFields(LIGHT_ARRAY.fields, env, vs, vs, parts);
    assert parts[1..][1..] == [] && parts[1..][0] == bs;
    assert Joined(parts[1..]) == bs + Joined([]) == bs;
    assert Joined(parts) == parts[0] + bs;
  }

  lemma {:induction false} LightArraysBytes(env: Env, count: Count, arrays: seq<seq<byte>>)
    ensures WriteType(TArray(LIGHT_ARRAY, count), env, Arr(LightArrays(arrays)))
         == Wrote(Joined(LightParts(arrays)), Arr(LightArrays(arrays)))
  {
    hide Joined;
    var vs := LightArrays(arrays);
    forall k | 0 <= k < |vs| ensures WriteType(LIGHT_ARRAY, env, vs[k]) == Wrote(LightParts(arrays)[k], vs[k]) {
      LightArrayBytes(env, arrays[k]);
    }
    ElemsJoin(LIGHT_ARRAY, env, vs, LightParts(arrays));
  }

  /** The coordinates, the four masks and the arrays of an update_light packet. */
  function LightPacketParts(x: int, z: int, sky: ChunkPacket.LightPart, block: ChunkPacket.LightPart): seq<seq<byte>> {
    [VarInt(x % TWO_32), VarInt(z % TWO_32), VarInt(sky.mask), VarInt(block.mask), VarInt(sky.emptyMask),
     VarInt(block.emptyMask), Joined(LightParts(sky.arrays)), Joined(LightParts(block.arrays))]
  }

  lemma {:induction false} MaskBytes(mask: nat)
    requires mask < 0x4_0000
    ensures EncodePrim(PVarInt, mask) == VarInt(mask)
  {
    assert mask % TWO_32 == mask;
  }

  /** The packet of a chunk, byte by byte. */
  lemma {:induction false} UpdateLightBytes(x: int, z: int, sky: ChunkPacket.LightPart, block: ChunkPacket.LightPart)
    requires LightOk(sky) && LightOk(block)
    ensures WriteFields(UPDATE_LIGHT, [], [], UpdateLight(x, z, sky, block))
         == Wrote(VarInt(x % TWO_32) + (VarInt(z % TWO_32) + (VarInt(sky.mask) + (VarInt(block.mask)
                  + (VarInt(sky.emptyMask) + (VarInt(block.emptyMask)
                  + (Joined(LightParts(sky.arrays)) + Joined(LightParts(block.arrays)))))))),
                  UpdateLight(x, z, sky, block))
  {
    hide WriteFields, LightParts, VarInt, Joined, PopCount;
    var vs, parts := UpdateLight(x, z, sky, block), LightPacketParts(x, z, sky, block);
    MaskBytes(sky.mask);
    MaskBytes(block.mask);
    MaskBytes(sky.emptyMask);
    MaskBytes(block.emptyMask);
    forall i | 0 <= i < 8
      ensures WriteType(UPDATE_LIGHT[i].ty, [vs[..i]] + [], vs[i]) == Wrote(parts[i], vs[i])
    {
      LightArraysBytes([vs[..i]] + [], BitCount(Ref(0, 2)), sky.arrays);
      LightArraysBytes([vs[..i]] + [], BitCount(Ref(0, 3)), block.arrays);
    }
    SimpleFields(UPDATE_LIGHT, [], vs, vs, parts);
    EightJoined(parts);
  }

  lemma {:induction false} EightJoined(p: seq<seq<byte>>)
    requires |p| == 8
    ensures Joined(p) == p[0] + (p[1] + (p[2] + (p[3] + (p[4] + (p[5] + (p[6] + p[7]))))))
  {
    assert Joined(p[8..]) == [];
    assert p[7..][1..] == p[8..] && Joined(p[7..]) == p[7] + [] == p[7];
    assert p[6..][1..] == p[7..] && Joined(p[6..]) == p[6] + p[7];
    assert p[5..][1..] == p[6..] && p[4..][1..] == p[5..] && p[3..][1..] == p[4..];
    assert Joined(p[4..]) == p[4] + Joined(p[5..]);
    assert p[2..][1..] == p[3..] && p[1..][1..] == p[2..] && p[0..][1..] == p[1..];
    assert Joined(p[2..]) == p[2] + Joined(p[3..]);
    assert p[0..] == p;
  }

  /** What fields 0 to 7 of the packet have to be for the light of the sections of the
    * chunk at x, z: the coordinates, then for sky and block light which sections have it,
    * which of the 18 do not, and the light itself. */
  ghost predicate LightOf(fields: seq<Value>, x: int, z: int, sections: seq<Option<ChunkPacket.SectionData>>) {
    && |fields| == 8 && fields[0] == Num(x) && fields[1] == Num(z)
    && (forall i | 2 <= i < 6 :: fields[i].Num? && fields[i].n >= 0) && fields[6].Arr? && fields[7].Arr?
    && (forall i: nat :: ChunkPacket.Bit(fields[2].n, i) <==>
                         i < |sections| && sections[i].Some? && sections[i].value.skyLight.Some?)
    && (forall i: nat :: ChunkPacket.Bit(fields[3].n, i) <==>
                         i < |sections| && sections[i].Some? && sections[i].value.blockLight.Some?)
    && (forall i: nat :: ChunkPacket.Bit(fields[4].n, i) <==> i < 18 && !ChunkPacket.Bit(fields[2].n, i))
    && (forall i: nat :: ChunkPacket.Bit(fields[5].n, i) <==> i < 18 && !ChunkPacket.Bit(fields[3].n, i))
    && |fields[6].elems| == PopCount(fields[2].n) && |fields[7].elems| == PopCount(fields[3].n)
    && (forall i | 0 <= i < |sections| && sections[i].Some? && sections[i].value.skyLight.Some? ::
          var k := PopCount(ChunkPacket.Low(fields[2].n, i));
          k < |fields[6].elems| && fields[6].elems[k] == Rec([Num(2048), Blob(sections[i].value.skyLight.value)]))
    && (forall i | 0 <= i < |sections| && sections[i].Some? && sections[i].value.blockLight.Some? ::
          var k := PopCount(ChunkPacket.Low(fields[3].n, i));
          k < |fields[7].elems| && fields[7].elems[k] == Rec([Num(2048), Blob(sections[i].value.blockLight.value)]))
  }

  /** Light arrays as the region loader makes them. */
  predicate LightLoaded(sections: seq<Option<ChunkPacket.SectionData>>) {
    forall i | 0 <= i < |sections| && sections[i].Some? ::
      && (sections[i].value.skyLight.Some? ==> |sections[i].value.skyLight.value| == 2048)
      && (sections[i].value.blockLight.Some? ==> |sections[i].value.blockLight.value| == 2048)
  }

  lemma {:induction false} OnlyFrom(ls: seq<Option<seq<byte>>>)
    requires forall i | 0 <= i < |ls| && ls[i].Some? :: |ls[i].value| == 2048
    ensures forall k | 0 <= k < |ChunkPacket.Only(ls)| :: |ChunkPacket.Only(ls)[k]| == 2048
  {
    if ls != [] { OnlyFrom(ls[..|ls| - 1]); }
  }

  /** The light packet of the chunk at x, z, as it is filled before it is written: its
    * fields are the light of that chunk, and the client reads them back. */
  method FillLight(x: int, z: int, sections: seq<Option<ChunkPacket.SectionData>>) returns (fields: seq<Value>)
    requires |sections| <= ChunkPacket.CHUNK_SECTIONS_LEN && LightLoaded(sections)
    requires PVarInt.Holds(x) && PVarInt.Holds(z)
    ensures LightOf(fields, x, z, sections)
    ensures WriteFields(UPDATE_LIGHT, [], [], fields).Wrote?
    ensures var bs := WriteFields(UPDATE_LIGHT, [], [], fields).bytes; forall suffix: seq<byte> ::
      ReadFields(bs + suffix, UPDATE_LIGHT, [], [], bs + suffix) == Some((fields, suffix))
  {
    hide WriteFields, ReadFields, PopCount, ChunkPacket.Bit, ChunkPacket.Low, ChunkPacket.Only;
    var sky, block := ChunkPacket.WriteLight(sections);
    OnlyFrom(ChunkPacket.Each(ChunkPacket.SkyLight, sections));
    OnlyFrom(ChunkPacket.Each(ChunkPacket.BlockLight, sections));
    fields := UpdateLight(x, z, sky, block);
    forall suffix: seq<byte>
      ensures var w := WriteFields(UPDATE_LIGHT, [], [], fields);
        w.Wrote? && ReadFields(w.bytes + suffix, UPDATE_LIGHT, [], [], w.bytes + suffix) == Some((fields, suffix))
    {
      UpdateLightRoundTrip(x, z, sky, block, suffix);
    }
    UpdateLightRoundTrip(x, z, sky, block, []);
  }

  // ---- chunk_data -------------------------------------------------------------------------------

  /** A section as it is put into the packet; longs are the words of its packed cells. */
  datatype SectionFields = SectionFields(blockCount: int, bitsPerBlock: int, palette: seq<int>, longs: seq<int>)

  function Nums(ns: seq<int>): (vs: seq<Value>)
    ensures |vs| == |ns|
  {
    seq(|ns|, k requires 0 <= k < |ns| => Num(ns[k]))
  }

  function SectionValue(s: SectionFields): Value {
    Rec([Num(s.blockCount), Num(s.bitsPerBlock), Num(|s.palette|), Arr(Nums(s.palette)), Num(|s.longs|),
         Arr(Nums(s.longs))])
  }

  function SectionValues(ss: seq<SectionFields>): (vs: seq<Value>)
    ensures |vs| == |ss|
  {
    seq(|ss|, k requires 0 <= k < |ss| => SectionValue(ss[k]))
  }

  /** The packet of a chunk: full_chunk is set, there are no block entities. dataLen is
    * the number the server leaves in the length field before the packet is written. */
  function ChunkFields(x: int, z: int, mask: int, heightmaps: Nbt.Root, biomes: seq<int>, dataLen: int,
                       sections: seq<SectionFields>): seq<Value> {
    [Num(x), Num(z), Num(1), Num(mask), Tree(heightmaps), Arr(Nums(biomes)), Num(dataLen),
     Arr(SectionValues(sections)), Num(0), Arr([])]
  }

  function IntParts(ns: seq<int>): (parts: seq<seq<byte>>)
    ensures |parts| == |ns|
  {
    seq(|ns|, k requires 0 <= k < |ns| => BigEndian(ns[k] % 0x1_0000_0000, 4))
  }

  function LongParts(ns: seq<int>): (parts: seq<seq<byte>>)
    ensures |parts| == |ns|
  {
    seq(|ns|, k requires 0 <= k < |ns| => BigEndian(ns[k] % 0x1_0000_0000_0000_0000, 8))
  }

  function VarIntParts(ns: seq<int>): (parts: seq<seq<byte>>)
    ensures |parts| == |ns|
  {
    seq(|ns|, k requires 0 <= k < |ns| => VarInt(ns[k] % 0x1_0000_0000))
  }

  /** Its blocks, its bits, its palette with its length and its words with theirs. */
  function SectionParts(s: SectionFields): seq<seq<byte>> {
    [BigEndian(s.blockCount % 0x1_0000, 2), BigEndian(s.bitsPerBlock % 0x100, 1), VarInt(|s.palette| % TWO_32),
     Joined(VarIntParts(s.palette)), VarInt(|s.longs| % TWO_32), Joined(LongParts(s.longs))]
  }

  function SectionsParts(ss: seq<SectionFields>): (parts: seq<seq<byte>>)
    ensures |parts| == |ss|
  {
    seq(|ss|, k requires 0 <= k < |ss| => Joined(SectionParts(ss[k])))
  }

  lemma {:induction false} Powers()
    ensures Pow256(1) == 0x100 && Pow256(2) == 0x1_0000 && Pow256(4) == 0x1_0000_0000
    ensures Pow256(8) == 0x1_0000_0000_0000_0000
  {
    assert Pow256(3) == 256 * Pow256(2);
    assert Pow256(5) == 256 * Pow256(4) && Pow256(6) == 256 * Pow256(5) && Pow256(7) == 256 * Pow256(6);
  }

  lemma {:induction false} IntsBytes(env: Env, count: Count, ns: seq<int>)
    ensures WriteType(TArray(TPrim(PInt), count), env, Arr(Nums(ns))) == Wrote(Joined(IntParts(ns)), Arr(Nums(ns)))
  {
    hide Joined;
    Powers();
    ElemsJoin(TPrim(PInt), env, Nums(ns), IntParts(ns));
  }

  lemma {:induction false} LongsBytes(env: Env, count: Count, ns: seq<int>)
    ensures WriteType(TArray(TPrim(PLong), count), env, Arr(Nums(ns))) == Wrote(Joined(LongParts(ns)), Arr(Nums(ns)))
  {
    hide Joined;
    Powers();
    ElemsJoin(TPrim(PLong), env, Nums(ns), LongParts(ns));
  }

  lemma {:induction false} VarIntsBytes(env: Env, count: Count, ns: seq<int>)
    ensures WriteType(TArray(TPrim(PVarInt), count), env, Arr(Nums(ns)))
         == Wrote(Joined(VarIntParts(ns)), Arr(Nums(ns)))
  {
    hide Joined;
    ElemsJoin(TPrim(PVarInt), env, Nums(ns), VarIntParts(ns));
  }

  lemma {:induction false} SectionBytes(env: Env, s: SectionFields)
    ensures WriteType(CHUNK_SECTION, env, SectionValue(s)) == Wrote(Joined(SectionParts(s)), SectionValue(s))
  {
    hide WriteFields, Joined, VarInt, Nums, VarIntParts, LongParts;
    var fs, vs, parts := CHUNK_SECTION.fields, SectionValue(s).fields, SectionParts(s);
    Powers();
    forall i | 0 <= i < 6 ensures WriteType(fs[i].ty, [vs[..i]] + env, vs[i]) == Wrote(parts[i], vs[i]) {
      VarIntsBytes([vs[..i]] + env, FieldLen(Ref(0, 2)), s.palette);
      LongsBytes([vs[..i]] + env, FieldLen(Ref(0, 4)), s.longs);
    }
    SimpleFields(fs, env, vs, vs, parts);
  }

  lemma {:induction false} SectionsBytes(env: Env, count: Count, ss: seq<SectionFields>)
    ensures WriteType(TArray(CHUNK_SECTION, count), env, Arr(SectionValues(ss)))
         == Wrote(Joined(SectionsParts(ss)), Arr(SectionValues(ss)))
  {
    hide Joined, SectionValue, SectionParts;
    forall k | 0 <= k < |ss|
      ensures WriteType(CHUNK_SECTION, env, SectionValues(ss)[k]) == Wrote(SectionsParts(ss)[k], SectionValues(ss)[k])
    {
      SectionBytes(env, ss[k]);
    }
    ElemsJoin(CHUNK_SECTION, env, SectionValues(ss), SectionsParts(ss));
  }

  function Before7(x: int, z: int, mask: int, heightmaps: Nbt.Root, biomes: seq<int>): seq<Value> {
    [Num(x), Num(z), Num(1), Num(mask), Tree(Nbt.AsCompound(heightmaps)), Arr(Nums(biomes))]
  }

  /** The frames of the packet: the length field is set when the sections have been written. */
  function ChunkFrames(x: int, z: int, mask: int, heightmaps: Nbt.Root, biomes: seq<int>, dataLen: int,
                       sections: seq<SectionFields>, len: nat): seq<seq<Value>> {
    var b, data := Before7(x, z, mask, heightmaps, biomes), Arr(SectionValues(sections));
    [[], b[..1], b[..2], b[..3], b[..4], b[..5], b, b + [Num(dataLen)], b + [Num(len), data],
     b + [Num(len), data] + [Num(0)], b + [Num(len), data] + [Num(0)] + [Arr([])]]
  }

  function ChunkParts(x: int, z: int, mask: int, heightmaps: Nbt.Root, biomes: seq<int>, data: seq<byte>)
    : seq<seq<byte>> {
    [BigEndian(x % 0x1_0000_0000, 4), BigEndian(z % 0x1_0000_0000, 4), [1], VarInt(mask % TWO_32),
     Nbt.PackRoot(heightmaps), Joined(IntParts(biomes)), [], VarInt(|data| % TWO_32) + data, [0], []]
  }

  lemma {:induction false} NoElems(elem: Type, env: Env)
    ensures WriteElems(elem, env, []) == Wrote([], [])
  {
  }

  lemma {:induction false} SmallPrims()
    ensures EncodePrim(PBool, 1) == [1] && EncodePrim(PVarInt, 0) == [0]
  {
    assert VarInt(0) == [0];
    assert Pow256(1) == 256 && BigEndian(1, 1) == BigEndian(0, 0) + [1];
  }

  /** The fields before the length of the sections, in turn. */
  lemma {:induction false} FirstSteps(x: int, z: int, mask: int, heightmaps: Nbt.Root, biomes: seq<int>, dataLen: int,
          sections: seq<SectionFields>, data: seq<byte>, i: nat)
    requires i < 6
    ensures var frames := ChunkFrames(x, z, mask, heightmaps, biomes, dataLen, sections, |data|);
      WriteField(CHUNK_DATA[i], frames[i], [], ChunkFields(x, z, mask, heightmaps, biomes, dataLen, sections)[i])
        == Wrote(ChunkParts(x, z, mask, heightmaps, biomes, data)[i], frames[i + 1])
  {
    hide WriteFields, Joined, VarInt, Nums, IntParts, SectionValues, Nbt.PackRoot;
    Powers();
    SmallPrims();
    hide BigEndian, Pow256;
    var b := Before7(x, z, mask, heightmaps, biomes);
    var frame := b[..i];
    assert i == 0 ==> frame == [];
    assert frame + [b[i]] == b[..i + 1] && b[..6] == b;
    if i == 5 {
      assert Lookup([frame] + [], Ref(0, 2)) == Some(1);
      IntsBytes([frame] + [], Fixed(1024), biomes);
    }
  }

  /** The sections with their length, and no block entities. */
  lemma {:induction false} LastSteps(x: int, z: int, mask: int, heightmaps: Nbt.Root, biomes: seq<int>, dataLen: int,
          sections: seq<SectionFields>, i: nat)
    requires 6 <= i < 10
    ensures var data := Joined(SectionsParts(sections));
      var frames := ChunkFrames(x, z, mask, heightmaps, biomes, dataLen, sections, |data|);
      WriteField(CHUNK_DATA[i], frames[i], [], ChunkFields(x, z, mask, heightmaps, biomes, dataLen, sections)[i])
        == Wrote(ChunkParts(x, z, mask, heightmaps, biomes, data)[i], frames[i + 1])
  {
    hide WriteFields, WriteElems, Joined, VarInt, Nums, IntParts, SectionsParts, SectionValues, Nbt.PackRoot;
    hide BigEndian, Pow256;
    var data := Joined(SectionsParts(sections));
    var frames := ChunkFrames(x, z, mask, heightmaps, biomes, dataLen, sections, |data|);
    SmallPrims();
    if i == 7 {
      var b := Before7(x, z, mask, heightmaps, biomes);
      assert Before(frames[7]) == b;
      SectionsBytes([b] + [], BitCount(Ref(0, 3)), sections);
    } else if i == 9 {
      NoElems(TNbt, [frames[9]] + []);
    }
  }

  lemma {:induction false} ChunkSteps(x: int, z: int, mask: int, heightmaps: Nbt.Root, biomes: seq<int>, dataLen: int,
          sections: seq<SectionFields>)
    ensures var data := Joined(SectionsParts(sections));
      Steps(CHUNK_DATA, [], ChunkFields(x, z, mask, heightmaps, biomes, dataLen, sections),
            ChunkParts(x, z, mask, heightmaps, biomes, data),
            ChunkFrames(x, z, mask, heightmaps, biomes, dataLen, sections, |data|))
  {
    hide WriteField, Joined, SectionsParts, ChunkFields, ChunkFrames, ChunkParts;
    var data := Joined(SectionsParts(sections));
    ChunkLengths(x, z, mask, heightmaps, biomes, dataLen, sections, data);
    forall i | 0 <= i < 10
      ensures var frames := ChunkFrames(x, z, mask, heightmaps, biomes, dataLen, sections, |data|);
        WriteField(CHUNK_DATA[i], frames[i], [], ChunkFields(x, z, mask, heightmaps, biomes, dataLen, sections)[i])
          == Wrote(ChunkParts(x, z, mask, heightmaps, biomes, data)[i], frames[i + 1])
    {
      if i < 6 {
        FirstSteps(x, z, mask, heightmaps, biomes, dataLen, sections, data, i);
      } else {
        LastSteps(x, z, mask, heightmaps, biomes, dataLen, sections, i);
      }
    }
  }

  lemma {:induction false} ChunkLengths(x: int, z: int, mask: int, heightmaps: Nbt.Root, biomes: seq<int>, dataLen: int,
          sections: seq<SectionFields>, data: seq<byte>)
    ensures |ChunkFields(x, z, mask, heightmaps, biomes, dataLen, sections)| == 10
    ensures |ChunkParts(x, z, mask, heightmaps, biomes, data)| == 10
    ensures var frames := ChunkFrames(x, z, mask, heightmaps, biomes, dataLen, sections, |data|);
      && |frames| == 11 && frames[0] == []
      && frames[10] == ChunkFields(x, z, mask, Nbt.AsCompound(heightmaps), biomes, |data|, sections)
  {
  }

  /** The chunk packet byte by byte: the coordinates as words of four bytes, full_chunk set,
    * the mask, the height maps, the biomes, the sections with their length and no block
    * entities. What it leaves is what it was, but for the length field being set and the
    * height maps being a compound. */
  lemma {:induction false} ChunkDataBytes(x: int, z: int, mask: int, heightmaps: Nbt.Root, biomes: seq<int>,
          dataLen: int, sections: seq<SectionFields>)
    ensures var data := Joined(SectionsParts(sections));
      WriteFields(CHUNK_DATA, [], [], ChunkFields(x, z, mask, heightmaps, biomes, dataLen, sections))
        == Wrote(BigEndian(x % 0x1_0000_0000, 4) + (BigEndian(z % 0x1_0000_0000, 4) + ([1]
                 + (VarInt(mask % TWO_32) + (Nbt.PackRoot(heightmaps) + (Joined(IntParts(biomes))
                 + (VarInt(|data| % TWO_32) + data + [0])))))),
                 ChunkFields(x, z, mask, Nbt.AsCompound(heightmaps), biomes, |data|, sections))
  {
    hide WriteFields, WriteField, Joined, SectionsParts, ChunkFields, ChunkFrames, IntParts, VarInt, BigEndian;
    hide Nbt.PackRoot;
    var data := Joined(SectionsParts(sections));
    var vs := ChunkFields(x, z, mask, heightmaps, biomes, dataLen, sections);
    var parts := ChunkParts(x, z, mask, heightmaps, biomes, data);
    var frames := ChunkFrames(x, z, mask, heightmaps, biomes, dataLen, sections, |data|);
    ChunkLengths(x, z, mask, heightmaps, biomes, dataLen, sections, data);
    ChunkSteps(x, z, mask, heightmaps, biomes, dataLen, sections);
    StepsJoin(CHUNK_DATA, [], vs, parts, frames, 0);
    assert CHUNK_DATA[0..] == CHUNK_DATA && vs[0..] == vs && parts[0..] == parts;
    TenJoined(parts);
  }

  lemma {:induction false} TenJoined(p: seq<seq<byte>>)
    requires |p| == 10 && p[6] == p[9] == []
    ensures Joined(p) == p[0] + (p[1] + (p[2] + (p[3] + (p[4] + (p[5] + (p[7] + p[8]))))))
  {
    var q := p[2..];
    EightJoined(q);
    assert p[1..][1..] == q && p[0..][1..] == p[1..] && p[0..] == p;
    assert Joined(p) == p[0] + (p[1] + Joined(q));
    assert q[4] + (q[5] + (q[6] + q[7])) == p[7] + p[8];
  }

  // ---- a chunk read back ------------------------------------------------------------------------

  predicate SectionFits(s: SectionFields) {
    && PShort.Holds(s.blockCount) && PUByte.Holds(s.bitsPerBlock)
    && PVarInt.Holds(|s.palette|) && PVarInt.Holds(|s.longs|)
    && (forall k | 0 <= k < |s.palette| :: PVarInt.Holds(s.palette[k]))
    && (forall k | 0 <= k < |s.longs| :: PLong.Holds(s.longs[k]))
  }

  /** A chunk whose numbers fit their C types, with as many sections as its mask has bits. */
  ghost predicate ChunkFits(x: int, z: int, mask: int, heightmaps: Nbt.Root, biomes: seq<int>,
                            sections: seq<SectionFields>) {
    && PInt.Holds(x) && PInt.Holds(z) && PVarInt.Holds(mask) && Nbt.RootInDomain(heightmaps)
    && |biomes| == 1024 && (forall k | 0 <= k < |biomes| :: PInt.Holds(biomes[k]))
    && |sections| == PopCount(mask % 0x1_0000_0000_0000_0000)
    && (forall k | 0 <= k < |sections| :: SectionFits(sections[k]))
    && |Joined(SectionsParts(sections))| < 0x8000_0000
  }

  lemma {:induction false} NumsConform(p: Prim, env: Env, count: Count, ns: seq<int>)
    requires CountOf(count, env) == Some(|ns|) && forall k | 0 <= k < |ns| :: p.Holds(ns[k])
    ensures Conforms(TArray(TPrim(p), count), env, Arr(Nums(ns)))
  {
    hide Prim.Holds;
  }

  lemma {:induction false} SectionConforms(env: Env, s: SectionFields)
    requires SectionFits(s)
    ensures Conforms(CHUNK_SECTION, env, SectionValue(s))
  {
    hide Prim.Holds, ConformsFields;
    var fs, vs := CHUNK_SECTION.fields, SectionValue(s).fields;
    forall i | 0 <= i < 6 ensures PlainField(fs[i]) && Conforms(fs[i].ty, [vs[..i]] + env, vs[i]) {
      var env' := [vs[..i]] + env;
      if i == 3 {
        assert Lookup(env', Ref(0, 2)) == Some(|s.palette|);
        NumsConform(PVarInt, env', FieldLen(Ref(0, 2)), s.palette);
      } else if i == 5 {
        assert Lookup(env', Ref(0, 4)) == Some(|s.longs|);
        NumsConform(PLong, env', FieldLen(Ref(0, 4)), s.longs);
      }
    }
    PlainConforms(fs, env, vs, 0);
    assert fs[0..] == fs && vs[0..] == vs && vs[..0] == [];
  }

  lemma {:induction false} SectionsConform(env: Env, r: Ref, mask: int, ss: seq<SectionFields>)
    requires Lookup(env, r) == Some(mask) && |ss| == PopCount(mask % 0x1_0000_0000_0000_0000)
    requires forall k | 0 <= k < |ss| :: SectionFits(ss[k])
    ensures Conforms(TArray(CHUNK_SECTION, BitCount(r)), env, Arr(SectionValues(ss)))
  {
    hide SectionValue, SectionFits, PopCount;
    forall k | 0 <= k < |ss| ensures Conforms(CHUNK_SECTION, env, SectionValues(ss)[k]) {
      SectionConforms(env, ss[k]);
    }
  }

  lemma {:induction false} ChunkFieldConforms(x: int, z: int, mask: int, heightmaps: Nbt.Root, biomes: seq<int>,
          dataLen: int, sections: seq<SectionFields>, i: nat)
    requires ChunkFits(x, z, mask, heightmaps, biomes, sections) && i < 10
    ensures var len := |Joined(SectionsParts(sections))|;
      var frames := ChunkFrames(x, z, mask, heightmaps, biomes, dataLen, sections, len);
      ConformsField(CHUNK_DATA[i], frames[i], [], ChunkFields(x, z, mask, heightmaps, biomes, dataLen, sections)[i])
  {
    hide Joined, SectionsParts, SectionValues, SectionFits, Nbt.RootInDomain, PopCount, WriteElems, WriteFields;
    var data := Joined(SectionsParts(sections));
    var frames := ChunkFrames(x, z, mask, heightmaps, biomes, dataLen, sections, |data|);
    var b := Before7(x, z, mask, heightmaps, biomes);
    if i == 5 {
      assert Lookup([frames[5]] + [], Ref(0, 2)) == Some(1);
      NumsConform(PInt, [frames[5]] + [], Fixed(1024), biomes);
    } else if i == 7 {
      assert Before(frames[7]) == b && Lookup([b] + [], Ref(0, 3)) == Some(mask);
      SectionsConform([b] + [], Ref(0, 3), mask, sections);
      SectionsBytes([b] + [], BitCount(Ref(0, 3)), sections);
    } else if i == 9 {
      assert Lookup([frames[9]] + [], Ref(0, 8)) == Some(0);
    }
  }

  /** The chunk packet the server fills is read back as it was, but for the length field
    * being set and the height maps being a compound. */
  lemma {:induction false} FilledChunkReadsBack(x: int, z: int, mask: int, heightmaps: Nbt.Root, biomes: seq<int>,
          dataLen: int, sections: seq<SectionFields>, suffix: seq<byte>)
    requires ChunkFits(x, z, mask, heightmaps, biomes, sections)
    ensures var w := WriteFields(CHUNK_DATA, [], [], ChunkFields(x, z, mask, heightmaps, biomes, dataLen, sections));
      var len := |Joined(SectionsParts(sections))|;
      && w.Wrote?
      && ReadFields(w.bytes + suffix, CHUNK_DATA, [], [], w.bytes + suffix)
         == Some((ChunkFields(x, z, mask, Nbt.AsCompound(heightmaps), biomes, len, sections), suffix))
  {
    hide WriteFields, ReadFields, ConformsField, ConformsFields, ChunkFits, Joined, SectionsParts;
    hide ChunkFrames, ChunkParts;
    var data := Joined(SectionsParts(sections));
    var vs := ChunkFields(x, z, mask, heightmaps, biomes, dataLen, sections);
    var parts := ChunkParts(x, z, mask, heightmaps, biomes, data);
    var frames := ChunkFrames(x, z, mask, heightmaps, biomes, dataLen, sections, |data|);
    ChunkSteps(x, z, mask, heightmaps, biomes, dataLen, sections);
    ChunkLengths(x, z, mask, heightmaps, biomes, dataLen, sections, data);
    forall i | 0 <= i < |CHUNK_DATA| ensures ConformsField(CHUNK_DATA[i], frames[i], [], vs[i]) {
      ChunkFieldConforms(x, z, mask, heightmaps, biomes, dataLen, sections, i);
    }
    StepsConform(CHUNK_DATA, [], vs, parts, frames, 0);
    assert CHUNK_DATA[0..] == CHUNK_DATA && vs[0..] == vs;
    ChunkDataBytes(x, z, mask, heightmaps, biomes, dataLen, sections);
    ChunkDataRoundTrip(vs, suffix);
  }
}
