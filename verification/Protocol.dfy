/** Three of the server's packet schemas, resolved, and what the generated writer
  * and reader do with them. */
module Protocol {
  import opened Bytes
  import opened Schema
  import opened SchemaConds
  import SchemaRoundTrip
  import ChunkPacket

  function Always(ty: Type): Field { Field(ty, None) }

  // ---- schemas without conditions, strings, unions, slots, NBT and typed buffers ---------

  predicate Plain(ty: Type) {
    match ty
    case TPrim(_) => true
    case TUuid => true
    case TBytes(_) => true
    case TEmpty => true
    case TArray(elem, _) => Plain(elem)
    case TStruct(fields) => PlainFields(fields)
    case _ => false
  }

  predicate PlainFields(fs: seq<Field>) {
    fs == [] || (PlainField(fs[0]) && PlainFields(fs[1..]))
  }

  predicate PlainField(f: Field) {
    f.cond.None? && Plain(f.ty)
  }

  /** The writer accepts every conforming value and leaves it as it was. */
  lemma {:induction false} PlainWrites(ty: Type, env: Env, v: Value)
    requires Plain(ty) && Conforms(ty, env, v)
    ensures Transparent(ty, env, v)
    ensures WriteType(ty, env, v).Wrote? && WriteType(ty, env, v).left == v
    decreases ty, 0
  {
    match ty
    case TArray(elem, _) =>
      PlainElems(elem, env, v.elems);
      forall k | 0 <= k < |v.elems| ensures Transparent(elem, env, v.elems[k]) {
        PlainWrites(elem, env, v.elems[k]);
      }
    case TStruct(fields) =>
      PlainFieldsWrite(fields, [], env, v.fields);
      assert [] + v.fields == v.fields;
    case _ =>
  }

  lemma {:induction false} PlainElems(elem: Type, env: Env, vs: seq<Value>)
    requires Plain(elem) && forall k | 0 <= k < |vs| :: Conforms(elem, env, vs[k])
    ensures WriteElems(elem, env, vs).Wrote? && WriteElems(elem, env, vs).left == vs
    decreases elem, 1, |vs|
  {
    if vs != [] {
      PlainWrites(elem, env, vs[0]);
      PlainElems(elem, env, vs[1..]);
    }
  }

  lemma {:induction false} PlainFieldsWrite(fs: seq<Field>, frame: seq<Value>, outer: Env, vs: seq<Value>)
    requires PlainFields(fs) && ConformsFields(fs, frame, outer, vs)
    ensures TransparentFields(fs, frame, outer, vs)
    ensures WriteFields(fs, frame, outer, vs).Wrote? && WriteFields(fs, frame, outer, vs).left == frame + vs
    decreases fs, 1
  {
    if fs != [] {
      PlainFieldWrites(fs[0], frame, outer, vs[0]);
      PlainFieldsWrite(fs[1..], frame + [vs[0]], outer, vs[1..]);
      assert frame + [vs[0]] + vs[1..] == frame + vs;
    }
  }

  lemma {:induction false} PlainFieldWrites(f: Field, frame: seq<Value>, outer: Env, v: Value)
    requires PlainField(f) && ConformsField(f, frame, outer, v)
    ensures TransparentField(f, frame, outer, v)
    ensures WriteField(f, frame, outer, v).Wrote? && WriteField(f, frame, outer, v).left == frame + [v]
    decreases f, 0
  {
    PlainWrites(f.ty, [frame] + outer, v);
  }

  /** For these schemas the reader returns exactly the value that was written. */
  lemma {:induction false} PlainRoundTrip(fs: seq<Field>, vs: seq<Value>, suffix: seq<byte>)
    requires WellFormedFields(fs) && PlainFields(fs) && ConformsFields(fs, [], [], vs)
    ensures var w := WriteFields(fs, [], [], vs);
      w.Wrote? && ReadFields(w.bytes + suffix, fs, [], [], w.bytes + suffix) == Some((vs, suffix))
  {
    PlainFieldsWrite(fs, [], [], vs);
    var w := WriteFields(fs, [], [], vs);
    SchemaRoundTrip.FieldsRoundTrip(w.bytes + suffix, fs, [], [], vs, suffix);
    assert [] + vs == vs;
  }

  /** Conformance field by field, each under the values before it. */
  lemma {:induction false} PlainConforms(fs: seq<Field>, outer: Env, vs: seq<Value>, k: nat)
    requires |fs| == |vs| && k <= |fs| && forall i | 0 <= i < |fs| :: PlainField(fs[i])
    requires forall i | 0 <= i < |fs| :: Conforms(fs[i].ty, [vs[..i]] + outer, vs[i])
    ensures ConformsFields(fs[k..], vs[..k], outer, vs[k..])
    decreases |fs| - k
  {
    if k < |fs| {
      PlainConforms(fs, outer, vs, k + 1);
      assert fs[k..][0] == fs[k] && fs[k..][1..] == fs[k + 1..];
      assert vs[k..][0] == vs[k] && vs[k..][1..] == vs[k + 1..];
      PlainFieldWrites(fs[k], vs[..k], outer, vs[k]);
      assert vs[..k] + [vs[k]] == vs[..k + 1];
    }
  }

  // ---- update_light ------------------------------------------------------------------------

  const LIGHT_ARRAY: Type := TStruct([Always(TPrim(PVarInt)), Always(TBytes(FieldLen(Ref(0, 0))))])

  const UPDATE_LIGHT: seq<Field> := [
    Always(TPrim(PVarInt)),
    Always(TPrim(PVarInt)),
    Always(TPrim(PVarInt)),
    Always(TPrim(PVarInt)),
    Always(TPrim(PVarInt)),
    Always(TPrim(PVarInt)),
    Always(TArray(LIGHT_ARRAY, BitCount(Ref(0, 2)))),
    Always(TArray(LIGHT_ARRAY, BitCount(Ref(0, 3))))
  ]

  function LightArrays(bs: seq<seq<byte>>): (vs: seq<Value>)
    ensures |vs| == |bs|
  {
    seq(|bs|, i requires 0 <= i < |bs| => Rec([Num(ChunkPacket.SECTION_LIGHT_LEN), Blob(bs[i])]))
  }

  /** The update_light packet of a chunk. */
  function UpdateLight(x: int, z: int, sky: ChunkPacket.LightPart, block: ChunkPacket.LightPart): seq<Value> {
    [Num(x), Num(z), Num(sky.mask), Num(block.mask), Num(sky.emptyMask), Num(block.emptyMask),
     Arr(LightArrays(sky.arrays)), Arr(LightArrays(block.arrays))]
  }

  /** A light part as write_light_data_to_packet fills it. */
  predicate LightOk(p: ChunkPacket.LightPart) {
    && ChunkPacket.InRange(p) && |p.arrays| == PopCount(p.mask)
    && forall k | 0 <= k < |p.arrays| :: |p.arrays[k]| == ChunkPacket.SECTION_LIGHT_LEN
  }

  lemma {:induction false} ArrayConforms(env: Env, bs: seq<byte>)
    requires |bs| == ChunkPacket.SECTION_LIGHT_LEN
    ensures Conforms(LIGHT_ARRAY, env, Rec([Num(ChunkPacket.SECTION_LIGHT_LEN), Blob(bs)]))
  {
    var fs, vs := LIGHT_ARRAY.fields, [Num(ChunkPacket.SECTION_LIGHT_LEN), Blob(bs)];
    var env1 := [vs[..1]] + env;
    assert Lookup(env1, Ref(0, 0)) == Some(|bs|);
    assert Conforms(fs[0].ty, [vs[..0]] + env, vs[0]);
    assert Conforms(fs[1].ty, env1, vs[1]);
    PlainConforms(fs, env, vs, 0);
    assert fs[0..] == fs && vs[0..] == vs && vs[..0] == [];
  }

  lemma {:induction false} ArraysConform(vs: seq<Value>, r: Ref, env: Env, p: ChunkPacket.LightPart)
    requires LightOk(p) && Lookup(env, r) == Some(p.mask)
    ensures Conforms(TArray(LIGHT_ARRAY, BitCount(r)), env, Arr(LightArrays(p.arrays)))
  {
    hide PopCount;
    var arrays := LightArrays(p.arrays);
    assert CountOf(BitCount(r), env) == Some(PopCount(p.mask)) by {
      assert p.mask % 0x1_0000_0000_0000_0000 == p.mask;
    }
    forall k | 0 <= k < |arrays| ensures Conforms(LIGHT_ARRAY, env, arrays[k]) {
      ArrayConforms(env, p.arrays[k]);
    }
  }

  /** The light packet the server fills for any chunk is written without error and
    * reads back as it was, masks and arrays agreeing in number. */
  lemma {:induction false} UpdateLightRoundTrip(x: int, z: int, sky: ChunkPacket.LightPart,
          block: ChunkPacket.LightPart, suffix: seq<byte>)
    requires PVarInt.Holds(x) && PVarInt.Holds(z) && LightOk(sky) && LightOk(block)
    ensures var w := WriteFields(UPDATE_LIGHT, [], [], UpdateLight(x, z, sky, block));
      && w.Wrote?
      && ReadFields(w.bytes + suffix, UPDATE_LIGHT, [], [], w.bytes + suffix)
        == Some((UpdateLight(x, z, sky, block), suffix))
  {
    hide LightOk, PlainFields, WellFormedFields;
    var fs, vs := UPDATE_LIGHT, UpdateLight(x, z, sky, block);
    UpdateLightPlain();
    LightHolds(sky);
    LightHolds(block);
    forall i | 0 <= i < |fs| ensures Conforms(fs[i].ty, [vs[..i]] + [], vs[i]) {
      var env := [vs[..i]] + [];
      if i == 6 {
        assert Lookup(env, Ref(0, 2)) == Some(sky.mask);
        ArraysConform(vs, Ref(0, 2), env, sky);
      } else if i == 7 {
        assert Lookup(env, Ref(0, 3)) == Some(block.mask);
        ArraysConform(vs, Ref(0, 3), env, block);
      }
    }
    PlainConforms(fs, [], vs, 0);
    assert fs[0..] == fs && vs[0..] == vs && vs[..0] == [];
    PlainRoundTrip(fs, vs, suffix);
  }

  lemma {:induction false} LightHolds(p: ChunkPacket.LightPart)
    requires LightOk(p)
    ensures PVarInt.Holds(p.mask) && PVarInt.Holds(p.emptyMask)
  {
  }

  lemma {:induction false} UpdateLightPlain()
    ensures WellFormedFields(UPDATE_LIGHT) && PlainFields(UPDATE_LIGHT)
    ensures forall i | 0 <= i < |UPDATE_LIGHT| :: PlainField(UPDATE_LIGHT[i])
  {
    AllPlain(UPDATE_LIGHT, 0);
    AllPlain(LIGHT_ARRAY.fields, 0);
  }

  lemma {:induction false} AllPlain(fs: seq<Field>, k: nat)
    requires k <= |fs| && forall i | 0 <= i < |fs| :: PlainField(fs[i]) && WellFormedField(fs[i])
    ensures PlainFields(fs[k..]) && WellFormedFields(fs[k..])
    decreases |fs| - k
  {
    if k < |fs| {
      AllPlain(fs, k + 1);
      assert fs[k..][1..] == fs[k + 1..];
    }
  }

  // ---- chunk_data ----------------------------------------------------------------------------

  const CHUNK_SECTION: Type := TStruct([
    Always(TPrim(PShort)),
    Always(TPrim(PUByte)),
    Always(TPrim(PVarInt)),
    Always(TArray(TPrim(PVarInt), FieldLen(Ref(0, 2)))),
    Always(TPrim(PVarInt)),
    Always(TArray(TPrim(PLong), FieldLen(Ref(0, 4))))
  ])

  const CHUNK_SECTIONS: Type := TArray(CHUNK_SECTION, BitCount(Ref(0, 3)))

  const CHUNK_DATA: seq<Field> := [
    Always(TPrim(PInt)),
    Always(TPrim(PInt)),
    Always(TPrim(PBool)),
    Always(TPrim(PVarInt)),
    Always(TNbt),
    Field(TArray(TPrim(PInt), Fixed(1024)), Some(Ref(0, 2))),
    Always(TLenOf(PVarInt)),
    Always(TTypedBytes(PVarInt, CHUNK_SECTIONS)),
    Always(TPrim(PVarInt)),
    Always(TArray(TNbt, FieldLen(Ref(0, 8))))
  ]

  lemma {:induction false} AllWellFormed(fs: seq<Field>, k: nat)
    requires k <= |fs| && forall i | k <= i < |fs| :: WellFormedField(fs[i]) && !fs[i].ty.TLenOf?
    ensures WellFormedFields(fs[k..])
    decreases |fs| - k
  {
    if k < |fs| {
      AllWellFormed(fs, k + 1);
      assert fs[k..][1..] == fs[k + 1..];
    }
  }

  lemma {:induction false} ChunkSectionOk()
    ensures NoConds(CHUNK_SECTION) && WellFormed(CHUNK_SECTION)
  {
    hide WellFormedFields;
    var fs := CHUNK_SECTION.fields;
    AllWellFormed(fs, 0);
    assert fs[0..] == fs;
  }

  lemma {:induction false} ChunkDataField(i: nat)
    requires i < |CHUNK_DATA|
    ensures NoConds(CHUNK_DATA[i].ty)
    ensures i != 6 && i != 7 ==> WellFormedField(CHUNK_DATA[i]) && !CHUNK_DATA[i].ty.TLenOf?
  {
    hide WellFormedFields;
    ChunkSectionOk();
    var ty := CHUNK_DATA[i].ty;
    if i == 5 {
      assert ty == TArray(TPrim(PInt), Fixed(1024));
    } else if i == 7 {
      assert ty == TTypedBytes(PVarInt, CHUNK_SECTIONS);
    } else if i == 9 {
      assert ty == TArray(TNbt, FieldLen(Ref(0, 8)));
    } else {
      assert ty.TPrim? || ty == TNbt || ty.TLenOf?;
    }
  }

  lemma {:induction false} ChunkDataFields()
    ensures forall i | 0 <= i < |CHUNK_DATA| :: NoConds(CHUNK_DATA[i].ty)
    ensures forall i | 0 <= i < |CHUNK_DATA| && i != 6 && i != 7 ::
              WellFormedField(CHUNK_DATA[i]) && !CHUNK_DATA[i].ty.TLenOf?
    ensures CHUNK_DATA[6].ty == TLenOf(PVarInt) && CHUNK_DATA[6].cond.None? && WellFormedBuffer(CHUNK_DATA[7], PVarInt)
  {
    hide NoConds, WellFormedField, WellFormedFields;
    ChunkSectionOk();
    forall i | 0 <= i < |CHUNK_DATA|
      ensures NoConds(CHUNK_DATA[i].ty)
      ensures i != 6 && i != 7 ==> WellFormedField(CHUNK_DATA[i]) && !CHUNK_DATA[i].ty.TLenOf?
    {
      ChunkDataField(i);
    }
  }

  lemma {:induction false} ChunkDataWellFormed()
    ensures WellFormedFields(CHUNK_DATA)
  {
    hide WellFormedFields, WellFormedField, WellFormedBuffer;
    var fs := CHUNK_DATA;
    ChunkDataFields();
    AllWellFormed(fs, 8);
    assert WellFormedFields(fs[6..]) by {
      assert fs[6..][2..] == fs[8..];
      BufferWellFormed(fs[6..]);
    }
    WellFormedJoin(fs[..6], fs[6..]);
    assert fs[..6] + fs[6..] == fs;
  }

  lemma {:induction false} BufferWellFormed(fs: seq<Field>)
    requires |fs| >= 2 && fs[0].ty.TLenOf? && fs[0].cond.None?
    requires WellFormedBuffer(fs[1], fs[0].ty.p) && WellFormedFields(fs[2..])
    ensures WellFormedFields(fs)
  {
  }

  lemma {:induction false} WellFormedJoin(fs: seq<Field>, gs: seq<Field>)
    requires WellFormedFields(gs) && forall i | 0 <= i < |fs| :: WellFormedField(fs[i]) && !fs[i].ty.TLenOf?
    ensures WellFormedFields(fs + gs)
  {
    if fs == [] {
      assert fs + gs == gs;
    } else {
      WellFormedJoin(fs[1..], gs);
      assert (fs + gs)[1..] == fs[1..] + gs;
    }
  }

  /** The fields written so far stay, but for a length field being set. */
  lemma {:induction false} FrameAfter(f: Field, frame: seq<Value>, outer: Env, v: Value)
    ensures var w := WriteField(f, frame, outer, v);
      w.Wrote? ==>
        && |w.left| == |frame| + 1
        && (forall i | 0 <= i < |frame| - 1 :: w.left[i] == frame[i])
        && (!f.ty.TTypedBytes? ==> w.left[..|frame|] == frame)
        && (f.ty.TPrim? ==> w.left == frame + [v])
  {
  }

  lemma {:induction false} ChunkDataConds(k: nat, frame: seq<Value>, vs: seq<Value>)
    requires k <= |CHUNK_DATA| == |vs| && vs[2].Num? && vs[2].n != 0
    requires |frame| == k && (k > 2 ==> frame[2] == vs[2])
    ensures CondsHoldFields(CHUNK_DATA[k..], frame, [], vs[k..])
    decreases |CHUNK_DATA| - k
  {
    hide WriteField, CondsHoldField, NoConds;
    if k < |CHUNK_DATA| {
      var fs, us := CHUNK_DATA[k..], vs[k..];
      assert fs[0] == CHUNK_DATA[k] && fs[1..] == CHUNK_DATA[k + 1..] && us[0] == vs[k] && us[1..] == vs[k + 1..];
      ChunkDataField(k);
      ChunkDataCond(k, frame);
      NoCondsFieldHolds(fs[0], frame, [], us[0]);
      FrameAfter(fs[0], frame, [], us[0]);
      match WriteField(fs[0], frame, [], us[0])
      case Refused(_) =>
      case Wrote(_, frame') =>
        if k > 2 {
          assert k > 3 || frame'[..k] == frame;
          assert frame'[2] == frame[2];
        }
        ChunkDataConds(k + 1, frame', vs);
    }
  }

  lemma {:induction false} ChunkDataCond(k: nat, frame: seq<Value>)
    requires k < |CHUNK_DATA| && |frame| == k && (k > 2 ==> frame[2].Num? && frame[2].n != 0)
    ensures CondHolds(CHUNK_DATA[k].cond, [frame] + [])
  {
    if k == 5 {
      assert Lookup([frame] + [], Ref(0, 2)) == Some(frame[2].n);
    }
  }

  lemma {:induction false} ThirdIsFlag(vs: seq<Value>)
    requires ConformsFields(CHUNK_DATA, [], [], vs)
    ensures |vs| == |CHUNK_DATA| && vs[2].Num?
  {
    var fs := CHUNK_DATA;
    assert ConformsField(fs[0], [], [], vs[0]);
    assert WriteField(fs[0], [], [], vs[0]).left == [vs[0]];
    assert fs[1..][0] == fs[1] && vs[1..][0] == vs[1];
    assert ConformsFields(fs[1..], [vs[0]], [], vs[1..]);
    assert ConformsField(fs[1], [vs[0]], [], vs[1]);
    assert WriteField(fs[1], [vs[0]], [], vs[1]).left == [vs[0], vs[1]];
    assert fs[1..][1..][0] == fs[2] && vs[1..][1..][0] == vs[2];
    assert ConformsFields(fs[1..][1..], [vs[0], vs[1]], [], vs[1..][1..]);
    assert ConformsField(fs[2], [vs[0], vs[1]], [], vs[2]);
  }

  /** Every chunk_data packet with full_chunk set, as the server sends them, reads
    * back: only then is the condition on its biomes met. */
  lemma {:induction false} ChunkDataRoundTrip(vs: seq<Value>, suffix: seq<byte>)
    requires ConformsFields(CHUNK_DATA, [], [], vs) && |vs| > 2 && vs[2] != Num(0)
    requires WriteFields(CHUNK_DATA, [], [], vs).Wrote?
    ensures var w := WriteFields(CHUNK_DATA, [], [], vs);
      ReadFields(w.bytes + suffix, CHUNK_DATA, [], [], w.bytes + suffix) == Some((w.left, suffix))
  {
    ChunkDataWellFormed();
    ChunkDataTransparent(vs);
    var w := WriteFields(CHUNK_DATA, [], [], vs);
    SchemaRoundTrip.FieldsRoundTrip(w.bytes + suffix, CHUNK_DATA, [], [], vs, suffix);
  }

  lemma {:induction false} ChunkDataTransparent(vs: seq<Value>)
    requires ConformsFields(CHUNK_DATA, [], [], vs) && |vs| > 2 && vs[2] != Num(0)
    ensures TransparentFields(CHUNK_DATA, [], [], vs)
  {
    hide ConformsFields, TransparentFields, CondsHoldFields;
    ThirdIsFlag(vs);
    ChunkDataConds(0, [], vs);
    assert CHUNK_DATA[0..] == CHUNK_DATA && vs[0..] == vs;
    FieldsTransparent(CHUNK_DATA, [], [], vs);
  }
}
