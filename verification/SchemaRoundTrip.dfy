/** The emitted reader inverts the emitted writer. */
module SchemaRoundTrip {
  import opened Bytes
  import opened Schema
  import Nbt

  // ---- primitives -------------------------------------------------------------

  lemma {:induction false} WidthPattern(p: Prim, v: int)
    requires p.Holds(v)
    ensures var u := v % Pow256(p.Width()); Signed(p, u) == v && u < Pow256(p.Width())
  {
    Nbt.Pow256Values();
    assert Pow256(1) == 256;
    assert Pow256(5) == 256 * Pow256(4);
    assert Pow256(6) == 256 * Pow256(5);
    assert Pow256(7) == 256 * Pow256(6);
    assert Pow256(8) == 256 * Pow256(7);
  }

  lemma {:induction false} PrimReadsBack(p: Prim, v: int, rest: seq<byte>)
    requires p.Holds(v)
    ensures ReadPrim(p, EncodePrim(p, v) + rest) == Some((v, rest))
  {
    WidthPattern(p, v);
    if p.PVarInt? {
      assert v % TWO_32 == v % Pow256(4) by { Nbt.Pow256Values(); }
      VarIntRoundTrip(v % TWO_32, rest);
    } else {
      var w := p.Width();
      BigEndianRoundTrip(v % Pow256(w), w);
      Cut(BigEndian(v % Pow256(w), w), rest);
    }
  }

  lemma {:induction false} Cut(bs: seq<byte>, rest: seq<byte>)
    ensures (bs + rest)[..|bs|] == bs && (bs + rest)[|bs|..] == rest
  {
  }

  lemma {:induction false} BlobReadsBack(bs: seq<byte>, rest: seq<byte>)
    ensures ReadBlob(|bs|, bs + rest) == Some((bs, rest))
  {
    Cut(bs, rest);
  }

  lemma {:induction false} StringReadsBack(max: nat, s: seq<byte>, rest: seq<byte>)
    requires |s| <= max < 0x8000_0000
    ensures ReadString(max, EncodeString(s) + rest) == Some((s, rest))
  {
    Assoc3(VarInt(|s|), s, rest);
    assert EncodePrim(PVarInt, |s|) == VarInt(|s|);
    PrimReadsBack(PVarInt, |s|, s + rest);
    BlobReadsBack(s, rest);
  }

  lemma {:induction false} SlotNbtReadsBack(nbt: Option<Nbt.Root>, rest: seq<byte>)
    requires nbt.Some? ==> Nbt.RootInDomain(nbt.value)
    ensures Nbt.ParseRoot(EncodeSlotNbt(nbt) + rest)
         == Some((if nbt.None? then EMPTY_NBT else Nbt.AsCompound(nbt.value), rest))
  {
    if nbt.None? {
      Cut([Nbt.TAG_END], rest);
    } else {
      Nbt.RootRoundTrip(nbt.value, rest);
    }
  }

  /** A slot without NBT reads back with an empty compound. */
  lemma {:induction false} SlotReadsBack(s: Slot, rest: seq<byte>)
    requires SlotOk(s)
    ensures ReadSlot(EncodeSlot(s) + rest) == Some((AsRead(s), rest))
  {
    match s
    case Absent => Cut([0], rest);
    case Present(id, count, nbt) =>
      var a, b, c := EncodePrim(PVarInt, id), EncodePrim(PByte, count), EncodeSlotNbt(nbt);
      SlotNbtReadsBack(nbt, rest);
      Assoc3([1] + a + b, c, rest);
      Assoc4([1], a, b, c + rest);
      SlotStep(a + (b + (c + rest)), id, count, c + rest, AsRead(s).nbt.value, rest) by {
        assert EncodePrim(PByte, count) == [count % 256];
      }
  }

  lemma {:induction false} SlotStep(input: seq<byte>, id: int, count: int, rest: seq<byte>, root: Nbt.Root,
          rest': seq<byte>)
    requires PVarInt.Holds(id) && PByte.Holds(count)
    requires input == EncodePrim(PVarInt, id) + ([count % 256] + rest)
    requires Nbt.ParseRoot(rest) == Some((root, rest'))
    ensures ReadSlot([1] + input) == Some((Present(id, count, Some(root)), rest'))
  {
    Cut([1], input);
    Cut([count % 256], rest);
    VarIntRoundTrip(id % TWO_32, [count % 256] + rest);
    WidthPattern(PVarInt, id);
    Nbt.Pow256Values();
    WidthPattern(PByte, count);
    assert Pow256(1) == 256;
  }

  // ---- types --------------------------------------------------------------------

  /** Reading what was written for a type, followed by any suffix, gives the
    * value the writer left and stops exactly at the suffix. */
  lemma {:induction false} TypeRoundTrip(all: seq<byte>, ty: Type, env: Env, v: Value, suffix: seq<byte>)
    requires WellFormed(ty) && Conforms(ty, env, v) && Transparent(ty, env, v)
    requires WriteType(ty, env, v).Wrote?
    ensures var w := WriteType(ty, env, v);
      ReadType(all, ty, env, w.bytes + suffix) == Some((w.left, suffix))
    decreases ty, 2
  {
    match ty
    case TPrim(p) => PrimReadsBack(p, v.n, suffix);
    case TEnum(p, _) => PrimReadsBack(p, v.n, suffix);
    case TString(max) => StringReadsBack(max, v.s, suffix);
    case TStrEnum(max, _) => StringReadsBack(max, v.s, suffix);
    case TUuid => BlobReadsBack(v.bs, suffix);
    case TBytes(_) => BlobReadsBack(v.bs, suffix);
    case TSlot => SlotReadsBack(v.slot, suffix);
    case TNbt => Nbt.RootRoundTrip(v.root, suffix);
    case TEmpty => assert [] + suffix == suffix;
    case TArray(elem, count) =>
      var n := CountOf(count, env).value;
      ElemsRoundTrip(all, elem, env, n, v.elems, suffix);
    case TStruct(fields) => FieldsRoundTrip(all, fields, [], env, v.fields, suffix);
    case TUnion(_, _, fields) =>
      if Branch(ty, env).Some? {
        var k := Branch(ty, env).value;
        assert WellFormedBranch(fields[k]);
        BranchRoundTrip(all, fields[k], v, suffix);
      } else {
        assert [] + suffix == suffix;
      }
  }

  lemma {:induction false} BranchRoundTrip(all: seq<byte>, f: Field, v: Value, suffix: seq<byte>)
    requires WellFormedBranch(f) && ConformsBranch(f, v) && TransparentBranch(f, v)
    requires WriteBranch(f, v).Wrote?
    ensures var w := WriteBranch(f, v); ReadBranch(all, f, w.bytes + suffix) == Some((w.left, suffix))
    decreases f, 0
  {
    TypeRoundTrip(all, f.ty, [], v, suffix);
  }

  lemma {:induction false} ElemsRoundTrip(all: seq<byte>, elem: Type, env: Env, n: int, vs: seq<Value>,
          suffix: seq<byte>)
    requires WellFormed(elem) && |vs| == if n > 0 then n else 0
    requires forall k | 0 <= k < |vs| :: Conforms(elem, env, vs[k])
    requires forall k | 0 <= k < |vs| :: Transparent(elem, env, vs[k])
    requires WriteElems(elem, env, vs).Wrote?
    ensures var w := WriteElems(elem, env, vs);
      ReadElems(all, elem, env, n, w.bytes + suffix) == Some((w.left, suffix))
    decreases elem, 3, |vs|
  {
    hide WellFormed, Conforms, Transparent, WriteType, ReadType;
    if vs == [] {
      assert [] + suffix == suffix;
    } else {
      var w, ws := WriteType(elem, env, vs[0]), WriteElems(elem, env, vs[1..]);
      TypeRoundTrip(all, elem, env, vs[0], ws.bytes + suffix);
      ElemsRoundTrip(all, elem, env, n - 1, vs[1..], suffix);
      Assoc3(w.bytes, ws.bytes, suffix);
    }
  }

  lemma {:induction false} FieldsRoundTrip(all: seq<byte>, fs: seq<Field>, frame: seq<Value>, outer: Env,
          vs: seq<Value>, suffix: seq<byte>)
    requires WellFormedFields(fs) && ConformsFields(fs, frame, outer, vs) && TransparentFields(fs, frame, outer, vs)
    requires WriteFields(fs, frame, outer, vs).Wrote?
    ensures var w := WriteFields(fs, frame, outer, vs);
      ReadFields(all, fs, frame, outer, w.bytes + suffix) == Some((w.left, suffix))
    decreases fs, 2
  {
    if fs == [] {
      assert [] + suffix == suffix;
    } else if fs[0].ty.TLenOf? {
      BufferRoundTrip(all, fs, frame, outer, vs, suffix);
    } else {
      var w := WriteField(fs[0], frame, outer, vs[0]);
      var ws := WriteFields(fs[1..], w.left, outer, vs[1..]);
      FieldRoundTrip(all, fs[0], frame, outer, vs[0], ws.bytes + suffix);
      FieldsRoundTrip(all, fs[1..], w.left, outer, vs[1..], suffix);
      Assoc3(w.bytes, ws.bytes, suffix);
    }
  }

  lemma {:induction false} FieldRoundTrip(all: seq<byte>, f: Field, frame: seq<Value>, outer: Env, v: Value,
          suffix: seq<byte>)
    requires WellFormed(f.ty)
    requires ConformsField(f, frame, outer, v) && TransparentField(f, frame, outer, v)
    requires WriteField(f, frame, outer, v).Wrote?
    ensures var w := WriteField(f, frame, outer, v);
      exists v' :: ReadField(all, f, frame, outer, w.bytes + suffix) == Some((v', suffix)) && w.left == frame + [v']
    decreases f, 1
  {
    var env := [frame] + outer;
    if CondHolds(f.cond, env) {
      TypeRoundTrip(all, f.ty, env, v, suffix);
    } else {
      assert [] + suffix == suffix;
      SkippedReadsNothing(all, f.ty, env, v, suffix);
    }
  }

  /** The length field itself writes nothing. */
  lemma {:induction false} LenStep(fs: seq<Field>, frame: seq<Value>, outer: Env, vs: seq<Value>)
    requires fs != [] && fs[0].ty.TLenOf? && fs[0].cond.None?
    requires ConformsFields(fs, frame, outer, vs) && WriteFields(fs, frame, outer, vs).Wrote?
    ensures vs[0].Num? && ConformsFields(fs[1..], frame + [vs[0]], outer, vs[1..])
    ensures TransparentFields(fs, frame, outer, vs) <==> TransparentFields(fs[1..], frame + [vs[0]], outer, vs[1..])
    ensures WriteFields(fs, frame, outer, vs) == WriteFields(fs[1..], frame + [vs[0]], outer, vs[1..])
  {
    var f, v, frame' := fs[0], vs[0], frame + [vs[0]];
    assert CondHolds(f.cond, [frame] + outer);
    assert WriteType(f.ty, [frame] + outer, v) == Wrote([], v);
    assert WriteField(f, frame, outer, v) == Wrote([], frame');
    assert ConformsField(f, frame, outer, v) && Conforms(f.ty, [frame] + outer, v);
    assert TransparentField(f, frame, outer, v);
    var ws := WriteFields(fs[1..], frame', outer, vs[1..]);
    assert WriteFields(fs, frame, outer, vs) == Wrote([] + ws.bytes, ws.left);
    assert [] + ws.bytes == ws.bytes;
  }

  /** What the writer does at a typed byte array whose length field is v0. */
  lemma {:induction false} BufferStep(fs: seq<Field>, frame: seq<Value>, outer: Env, v0: Value, vs: seq<Value>)
    requires fs != [] && fs[0].ty.TTypedBytes? && CondHolds(fs[0].cond, [frame + [v0]] + outer)
    requires ConformsFields(fs, frame + [v0], outer, vs) && WriteFields(fs, frame + [v0], outer, vs).Wrote?
    ensures vs != [] && WriteType(fs[0].ty.body, [frame] + outer, vs[0]).Wrote?
    ensures Conforms(fs[0].ty.body, [frame] + outer, vs[0])
    ensures var w := WriteType(fs[0].ty.body, [frame] + outer, vs[0]);
      var frame' := frame + [Num(|w.bytes|), w.left];
      var ws := WriteFields(fs[1..], frame', outer, vs[1..]);
      && fs[0].ty.p.Holds(|w.bytes|)
      && ConformsFields(fs[1..], frame', outer, vs[1..])
      && (TransparentFields(fs, frame + [v0], outer, vs)
          <==> Transparent(fs[0].ty.body, [frame] + outer, vs[0]) && TransparentFields(fs[1..], frame', outer, vs[1..]))
      && ws.Wrote?
      && WriteFields(fs, frame + [v0], outer, vs)
         == Wrote(EncodePrim(fs[0].ty.p, |w.bytes|) + w.bytes + ws.bytes, ws.left)
  {
    assert Before(frame + [v0]) == frame;
    assert ConformsField(fs[0], frame + [v0], outer, vs[0]);
    assert TransparentField(fs[0], frame + [v0], outer, vs[0])
      <==> Transparent(fs[0].ty.body, [frame] + outer, vs[0]);
  }

  /** What the reader does at a length field ... */
  lemma {:induction false} LenReads(all: seq<byte>, f: Field, frame: seq<Value>, outer: Env, n: int, rest: seq<byte>)
    requires f.ty.TLenOf? && f.ty.p.Holds(n)
    ensures ReadField(all, f, frame, outer, EncodePrim(f.ty.p, n) + rest) == Some((Num(n), rest))
  {
    PrimReadsBack(f.ty.p, n, rest);
  }

  /** ... and at the typed byte array that follows it. */
  lemma {:induction false} BufferReads(all: seq<byte>, f: Field, frame: seq<Value>, outer: Env, buf: seq<byte>,
          v: Value, rest: seq<byte>)
    requires f.ty.TTypedBytes?
    requires ReadType(buf, f.ty.body, [frame] + outer, buf) == Some((v, []))
    ensures ReadField(all, f, frame + [Num(|buf|)], outer, buf + rest) == Some((v, rest))
  {
    var frame' := frame + [Num(|buf|)];
    assert frame'[|frame'| - 1] == Num(|buf|) && Before(frame') == frame;
    Cut(buf, rest);
  }

  /** A typed byte array and the length field before it. */
  lemma {:induction false} BufferRoundTrip(all: seq<byte>, fs: seq<Field>, frame: seq<Value>, outer: Env,
          vs: seq<Value>, suffix: seq<byte>)
    requires fs != [] && fs[0].ty.TLenOf?
    requires WellFormedFields(fs) && ConformsFields(fs, frame, outer, vs) && TransparentFields(fs, frame, outer, vs)
    requires WriteFields(fs, frame, outer, vs).Wrote?
    ensures var w := WriteFields(fs, frame, outer, vs);
      ReadFields(all, fs, frame, outer, w.bytes + suffix) == Some((w.left, suffix))
    decreases fs, 1
  {
    hide WellFormed, Conforms, Transparent, WriteType, ReadType, WriteField, ReadField, EncodePrim;
    var fs1, vs1, fs2, vs2 := fs[1..], vs[1..], fs[2..], vs[2..];
    LenStep(fs, frame, outer, vs);
    assert TransparentField(fs1[0], frame + [vs[0]], outer, vs1[0]);
    BufferStep(fs1, frame, outer, vs[0], vs1);
    assert fs1[1..] == fs2 && vs1[1..] == vs2;
    var w := BodyRoundTrip(fs1[0], frame, outer, vs1[0]);
    var n := Num(|w.bytes|);
    var ws := WriteFields(fs2, frame + [n, w.left], outer, vs2);
    FieldsRoundTrip(all, fs2, frame + [n, w.left], outer, vs2, suffix);
    var tail := w.bytes + (ws.bytes + suffix);
    LenReads(all, fs[0], frame, outer, |w.bytes|, tail);
    BufferReads(all, fs1[0], frame, outer, w.bytes, w.left, ws.bytes + suffix);
    assert frame + [n] + [w.left] == frame + [n, w.left];
    var len := EncodePrim(fs[0].ty.p, |w.bytes|);
    TwoFields(all, fs, frame, outer, len + tail, n, tail, w.left, ws.bytes + suffix);
    Assoc4(len, w.bytes, ws.bytes, suffix);
  }

  lemma {:induction false} TwoFields(all: seq<byte>, fs: seq<Field>, frame: seq<Value>, outer: Env, input: seq<byte>,
          v: Value, rest: seq<byte>, v': Value, rest': seq<byte>)
    requires |fs| >= 2
    requires ReadField(all, fs[0], frame, outer, input) == Some((v, rest))
    requires ReadField(all, fs[1], frame + [v], outer, rest) == Some((v', rest'))
    ensures ReadFields(all, fs, frame, outer, input) == ReadFields(all, fs[2..], frame + [v] + [v'], outer, rest')
  {
    assert fs[1..][0] == fs[1] && fs[1..][1..] == fs[2..];
    assert ReadFields(all, fs, frame, outer, input) == ReadFields(all, fs[1..], frame + [v], outer, rest);
  }

  lemma {:induction false} BodyRoundTrip(f: Field, frame: seq<Value>, outer: Env, v: Value) returns (w: Written<Value>)
    requires f.ty.TTypedBytes? && WellFormed(f.ty.body)
    requires Conforms(f.ty.body, [frame] + outer, v) && Transparent(f.ty.body, [frame] + outer, v)
    requires WriteType(f.ty.body, [frame] + outer, v).Wrote?
    ensures w == WriteType(f.ty.body, [frame] + outer, v)
    ensures ReadType(w.bytes, f.ty.body, [frame] + outer, w.bytes) == Some((w.left, []))
    decreases f, 0
  {
    w := WriteType(f.ty.body, [frame] + outer, v);
    TypeRoundTrip(w.bytes, f.ty.body, [frame] + outer, v, []);
    assert w.bytes + [] == w.bytes;
  }

  /** A type the reader needs no bytes for is read as the value itself. */
  lemma {:induction false} SkippedReadsNothing(all: seq<byte>, ty: Type, env: Env, v: Value, input: seq<byte>)
    requires WellFormed(ty) && MinBytes(ty, env, v) == 0
    ensures ReadType(all, ty, env, input) == Some((v, input))
    decreases ty, 0
  {
    match ty
    case TArray(elem, count) => SkippedElems(all, elem, env, CountOf(count, env).value, v.elems, input);
    case TStruct(fields) =>
      SkippedFields(all, fields, [], env, v.fields, input);
      assert [] + v.fields == v.fields;
    case TUnion(_, _, fields) =>
      if Branch(ty, env).Some? {
        var k := Branch(ty, env).value;
        assert WellFormedBranch(fields[k]);
        SkippedBranch(all, fields[k], v, input);
      }
    case _ =>
  }

  lemma {:induction false} SkippedBranch(all: seq<byte>, f: Field, v: Value, input: seq<byte>)
    requires WellFormedBranch(f) && MinBranch(f, v) == 0
    ensures ReadBranch(all, f, input) == Some((v, input))
    decreases f, 0
  {
    SkippedReadsNothing(all, f.ty, [], v, input);
  }

  lemma {:induction false} SkippedElems(all: seq<byte>, elem: Type, env: Env, n: int, vs: seq<Value>, input: seq<byte>)
    requires WellFormed(elem) && MinElems(elem, env, vs) == 0
    requires |vs| == if n > 0 then n else 0
    ensures ReadElems(all, elem, env, n, input) == Some((vs, input))
    decreases elem, 1, |vs|
  {
    if vs != [] {
      SkippedReadsNothing(all, elem, env, vs[0], input);
      SkippedElems(all, elem, env, n - 1, vs[1..], input);
      assert vs == [vs[0]] + vs[1..];
    }
  }

  lemma {:induction false} SkippedFields(all: seq<byte>, fs: seq<Field>, frame: seq<Value>, outer: Env,
          vs: seq<Value>, input: seq<byte>)
    requires WellFormedFields(fs) && MinFields(fs, frame, outer, vs) == 0
    ensures ReadFields(all, fs, frame, outer, input) == Some((frame + vs, input))
    decreases fs, 1
  {
    if fs == [] {
      assert frame + [] == frame;
    } else {
      SkippedField(all, fs[0], frame, outer, vs[0], input);
      SkippedFields(all, fs[1..], frame + [vs[0]], outer, vs[1..], input);
      assert frame + [vs[0]] + vs[1..] == frame + vs;
    }
  }

  lemma {:induction false} SkippedField(all: seq<byte>, f: Field, frame: seq<Value>, outer: Env, v: Value,
          input: seq<byte>)
    requires f.ty.TLenOf? || WellFormed(f.ty)
    requires MinField(f, frame, outer, v) == 0
    ensures ReadField(all, f, frame, outer, input) == Some((v, input))
    decreases f, 0
  {
    if !f.ty.TLenOf? {
      SkippedReadsNothing(all, f.ty, [frame] + outer, v, input);
    }
  }
}
