/** The writer honours conditions and the reader ignores them: exactly which
  * values survive. */
module SchemaSkips {
  import opened Bytes
  import opened Schema
  import opened SchemaConds
  import SchemaRoundTrip

  /** No NBT and no slots, and no condition inside a typed byte array. An unnamed NBT
    * root can be read from three bytes fewer than it is written with, and a typed
    * byte array ends where its own packet does, so with either a skipped field can
    * go unnoticed; see module SchemaWitnesses. */
  predicate Traceable(ty: Type)
  {
    match ty
    case TSlot => false
    case TNbt => false
    case TArray(elem, _) => Traceable(elem)
    case TTypedBytes(_, body) => NoConds(body)
    case TStruct(fields) => forall k | 0 <= k < |fields| :: TraceableField(fields[k])
    case TUnion(_, _, fields) => forall k | 0 <= k < |fields| :: TraceableField(fields[k])
    case _ => true
  }

  predicate TraceableField(f: Field)
  {
    Traceable(f.ty)
  }

  // ---- a reader consumes at least MinBytes, unless it reaches the end -----------------

  lemma {:induction false} PrimConsumes(p: Prim, input: seq<byte>)
    requires ReadPrim(p, input).Some?
    ensures var (v, rest) := ReadPrim(p, input).value;
      |rest| <= |input| && (rest != [] ==> |rest| + |EncodePrim(p, v)| <= |input|)
  {
    if p.PVarInt? {
      VarIntConsumes(input);
    } else {
      hide BigEndian, FromBigEndian, Signed, Pow256;
    }
  }

  lemma {:induction false} SignedBack(u: u32)
    ensures Signed(PVarInt, u) % TWO_32 == u
  {
  }

  lemma {:induction false} VarIntConsumes(input: seq<byte>)
    requires ReadPrim(PVarInt, input).Some?
    ensures var (v, rest) := ReadPrim(PVarInt, input).value;
      |rest| <= |input| && (rest != [] ==> |rest| + |EncodePrim(PVarInt, v)| <= |input|)
  {
    hide ReadVarInt, VarInt, Signed;
    ReadVarIntConsumes(input);
    match ReadVarInt(input)
    case VarIntOk(u, _, _) => SignedBack(u);
    case _ =>
  }

  lemma {:induction false} StringConsumes(max: nat, input: seq<byte>)
    requires ReadString(max, input).Some?
    ensures var (s, rest) := ReadString(max, input).value;
      |rest| <= |input| && (rest != [] ==> |rest| + |EncodeString(s)| <= |input|)
  {
    hide ReadVarInt, VarInt;
    VarIntConsumes(input);
    var (len, rest) := ReadPrim(PVarInt, input).value;
    ReadVarIntConsumes(input);
    assert EncodePrim(PVarInt, len) == VarInt(len);
  }

  /** The input got shorter, and if some is left, by all the bytes that are needed. */
  predicate Consumed(input: seq<byte>, rest: seq<byte>, need: nat) {
    |rest| <= |input| && (rest != [] ==> |rest| + need <= |input|)
  }

  /** Whatever the reader returns without having come to the end of the packet took at
    * least the fewest bytes from which it can be read. */
  lemma {:induction false} ReadConsumes(all: seq<byte>, ty: Type, env: Env, input: seq<byte>)
    requires WellFormed(ty) && Traceable(ty) && ReadType(all, ty, env, input).Some?
    requires LengthsOk(ty, env, ReadType(all, ty, env, input).value.0)
    ensures var (v, rest) := ReadType(all, ty, env, input).value;
      Consumed(input, rest, MinBytes(ty, env, v))
    decreases ty, 1
  {
    match ty
    case TPrim(p) => PrimConsumes(p, input);
    case TEnum(p, _) => PrimConsumes(p, input);
    case TString(max) => StringConsumes(max, input);
    case TStrEnum(max, _) => StringConsumes(max, input);
    case TArray(elem, count) => ElemsConsume(all, elem, env, CountOf(count, env).value, input);
    case TStruct(fields) =>
      var cs := FieldsConsume(all, fields, [], env, input);
      assert [] + cs == cs;
    case TUnion(_, _, fields) =>
      if Branch(ty, env).Some? {
        var k := Branch(ty, env).value;
        assert WellFormedBranch(fields[k]) && TraceableField(fields[k]);
        BranchConsumes(all, fields[k], input);
      }
    case _ =>
  }

  lemma {:induction false} BranchConsumes(all: seq<byte>, f: Field, input: seq<byte>)
    requires WellFormedBranch(f) && TraceableField(f) && ReadBranch(all, f, input).Some?
    requires LengthsOkBranch(f, ReadBranch(all, f, input).value.0)
    ensures var (v, rest) := ReadBranch(all, f, input).value; Consumed(input, rest, MinBranch(f, v))
    decreases f, 0
  {
    ReadConsumes(all, f.ty, [], input);
  }

  lemma {:induction false} ElemsConsume(all: seq<byte>, elem: Type, env: Env, n: int, input: seq<byte>)
    requires WellFormed(elem) && Traceable(elem) && ReadElems(all, elem, env, n, input).Some?
    requires var vs := ReadElems(all, elem, env, n, input).value.0;
      forall k | 0 <= k < |vs| :: LengthsOk(elem, env, vs[k])
    ensures var (vs, rest) := ReadElems(all, elem, env, n, input).value;
      |vs| == (if n > 0 then n else 0) && Consumed(input, rest, MinElems(elem, env, vs))
    decreases elem, 2, if n > 0 then n else 0
  {
    hide WellFormed, Traceable, ReadType, LengthsOk, MinBytes;
    if n > 0 {
      var (v, rest) := ReadType(all, elem, env, input).value;
      var (vs, _) := ReadElems(all, elem, env, n - 1, rest).value;
      assert ([v] + vs)[0] == v && ([v] + vs)[1..] == vs;
      assert forall k | 0 <= k < |vs| :: vs[k] == ([v] + vs)[k + 1];
      ReadConsumes(all, elem, env, input);
      ElemsConsume(all, elem, env, n - 1, rest);
    }
  }

  lemma {:induction false} FieldsConsume(all: seq<byte>, fs: seq<Field>, frame: seq<Value>, outer: Env,
          input: seq<byte>)
    returns (cs: seq<Value>)
    requires WellFormedTail(fs) && (forall k | 0 <= k < |fs| :: TraceableField(fs[k]))
    requires ReadFields(all, fs, frame, outer, input).Some?
    ensures var (values, rest) := ReadFields(all, fs, frame, outer, input).value;
      && |cs| == |fs| && values == frame + cs
      && (LengthsOkFields(fs, frame, outer, cs) ==> Consumed(input, rest, MinFields(fs, frame, outer, cs)))
    decreases fs, 1
  {
    hide WellFormed, WellFormedTail, ReadField, MinField, TraceableField, LengthsOkField;
    if fs == [] {
      cs := [];
      assert frame + cs == frame;
    } else {
      TailStep(fs);
      assert TraceableField(fs[0]);
      forall k | 0 <= k < |fs[1..]| ensures TraceableField(fs[1..][k]) { assert fs[1..][k] == fs[k + 1]; }
      var (v, rest) := ReadField(all, fs[0], frame, outer, input).value;
      var cs' := FieldsConsume(all, fs[1..], frame + [v], outer, rest);
      cs := [v] + cs';
      assert cs[1..] == cs' && frame + [v] + cs' == frame + cs;
      if LengthsOkField(fs[0], frame, outer, v) {
        FieldConsumes(all, fs[0], frame, outer, input);
      }
    }
  }

  /** Like WellFormedFields, but also past a length field. */
  predicate WellFormedTail(fs: seq<Field>)
  {
    WellFormedFields(fs) || (fs != [] && IsBuffer(fs[0]) && WellFormedFields(fs[1..]))
  }

  predicate IsBuffer(f: Field) {
    f.ty.TTypedBytes? && WellFormed(f.ty.body)
  }

  lemma {:induction false} TailStep(fs: seq<Field>)
    requires WellFormedTail(fs) && fs != []
    ensures fs[0].ty.TLenOf? || WellFormed(fs[0].ty) || IsBuffer(fs[0])
    ensures WellFormedTail(fs[1..])
  {
    if WellFormedFields(fs) {
      if fs[0].ty.TLenOf? {
        assert WellFormedBuffer(fs[1], fs[0].ty.p) && WellFormedFields(fs[2..]);
        assert fs[1..][0] == fs[1] && fs[1..][1..] == fs[2..] && IsBuffer(fs[1..][0]);
      } else {
        assert WellFormedField(fs[0]) && WellFormedFields(fs[1..]);
      }
    }
  }

  lemma {:induction false} FieldConsumes(all: seq<byte>, f: Field, frame: seq<Value>, outer: Env, input: seq<byte>)
    requires f.ty.TLenOf? || WellFormed(f.ty) || IsBuffer(f)
    requires TraceableField(f) && ReadField(all, f, frame, outer, input).Some?
    requires LengthsOkField(f, frame, outer, ReadField(all, f, frame, outer, input).value.0)
    ensures var (v, rest) := ReadField(all, f, frame, outer, input).value;
      Consumed(input, rest, MinField(f, frame, outer, v))
    decreases f, 0
  {
    if f.ty.TLenOf? {
      PrimConsumes(f.ty.p, input);
    } else if !f.ty.TTypedBytes? {
      ReadConsumes(all, f.ty, [frame] + outer, input);
    }
  }

  // ---- a writer emits at most MinBytes, and that many only when transparent ----------

  lemma {:induction false} WriteWithin(ty: Type, env: Env, v: Value)
    requires WellFormed(ty) && Traceable(ty) && Conforms(ty, env, v) && WriteType(ty, env, v).Wrote?
    ensures var w := WriteType(ty, env, v);
      && LengthsOk(ty, env, w.left) && |w.bytes| <= MinBytes(ty, env, w.left)
      && (|w.bytes| == MinBytes(ty, env, w.left) <==> Transparent(ty, env, v))
    decreases ty, 1
  {
    match ty
    case TArray(elem, _) => ElemsWithin(elem, env, v.elems);
    case TStruct(fields) =>
      var cs := FieldsWithin(fields, [], env, v.fields);
      assert [] + cs == cs;
    case TUnion(_, _, fields) =>
      if Branch(ty, env).Some? {
        var k := Branch(ty, env).value;
        assert WellFormedBranch(fields[k]) && TraceableField(fields[k]);
        BranchWithin(fields[k], v);
      }
    case _ =>
  }

  lemma {:induction false} BranchWithin(f: Field, v: Value)
    requires WellFormedBranch(f) && TraceableField(f) && ConformsBranch(f, v) && WriteBranch(f, v).Wrote?
    ensures var w := WriteBranch(f, v);
      && LengthsOkBranch(f, w.left) && |w.bytes| <= MinBranch(f, w.left)
      && (|w.bytes| == MinBranch(f, w.left) <==> TransparentBranch(f, v))
    decreases f, 0
  {
    WriteWithin(f.ty, [], v);
  }

  lemma {:induction false} ElemsWithin(elem: Type, env: Env, vs: seq<Value>)
    requires WellFormed(elem) && Traceable(elem) && WriteElems(elem, env, vs).Wrote?
    requires forall k | 0 <= k < |vs| :: Conforms(elem, env, vs[k])
    ensures var w := WriteElems(elem, env, vs);
      && |w.left| == |vs| && (forall k | 0 <= k < |vs| :: LengthsOk(elem, env, w.left[k]))
      && |w.bytes| <= MinElems(elem, env, w.left)
      && (|w.bytes| == MinElems(elem, env, w.left) <==> forall k | 0 <= k < |vs| :: Transparent(elem, env, vs[k]))
    decreases elem, 2, |vs|
  {
    if vs != [] {
      WriteWithin(elem, env, vs[0]);
      ElemsWithin(elem, env, vs[1..]);
      var w, ws := WriteType(elem, env, vs[0]), WriteElems(elem, env, vs[1..]);
      assert ([w.left] + ws.left)[1..] == ws.left;
      ForallSplit(elem, env, vs);
    }
  }

  lemma {:induction false} ForallSplit(elem: Type, env: Env, vs: seq<Value>)
    requires vs != []
    ensures (forall k | 0 <= k < |vs| :: Transparent(elem, env, vs[k]))
       <==> Transparent(elem, env, vs[0]) && forall k | 0 <= k < |vs[1..]| :: Transparent(elem, env, vs[1..][k])
  {
    if Transparent(elem, env, vs[0]) && forall k | 0 <= k < |vs[1..]| :: Transparent(elem, env, vs[1..][k]) {
      forall k | 0 <= k < |vs| ensures Transparent(elem, env, vs[k]) {
        if k > 0 { assert vs[k] == vs[1..][k - 1]; }
      }
    }
  }

  lemma {:induction false} FieldsWithin(fs: seq<Field>, frame: seq<Value>, outer: Env, vs: seq<Value>)
    returns (cs: seq<Value>)
    requires WellFormedFields(fs) && (forall k | 0 <= k < |fs| :: TraceableField(fs[k]))
    requires ConformsFields(fs, frame, outer, vs) && WriteFields(fs, frame, outer, vs).Wrote?
    ensures var w := WriteFields(fs, frame, outer, vs);
      && w.left == frame + cs && LengthsOkFields(fs, frame, outer, cs) && |w.bytes| <= MinFields(fs, frame, outer, cs)
      && (|w.bytes| == MinFields(fs, frame, outer, cs) <==> TransparentFields(fs, frame, outer, vs))
    decreases fs, 2
  {
    hide WellFormed, WriteField, ConformsField, MinField, TransparentField, LengthsOkField;
    if fs == [] {
      cs := [];
      assert frame + cs == frame;
    } else if fs[0].ty.TLenOf? {
      cs := BufferWithin(fs, frame, outer, vs);
    } else {
      assert TraceableField(fs[0]);
      forall k | 0 <= k < |fs[1..]| ensures TraceableField(fs[1..][k]) { assert fs[1..][k] == fs[k + 1]; }
      var w := WriteField(fs[0], frame, outer, vs[0]);
      var c := FieldWithin(fs[0], frame, outer, vs[0]);
      var cs' := FieldsWithin(fs[1..], frame + [c], outer, vs[1..]);
      cs := [c] + cs';
      assert cs[1..] == cs' && frame + [c] + cs' == frame + cs;
    }
  }

  lemma {:induction false} FieldWithin(f: Field, frame: seq<Value>, outer: Env, v: Value) returns (c: Value)
    requires WellFormed(f.ty) && TraceableField(f)
    requires ConformsField(f, frame, outer, v) && WriteField(f, frame, outer, v).Wrote?
    ensures var w := WriteField(f, frame, outer, v);
      && w.left == frame + [c] && LengthsOkField(f, frame, outer, c) && |w.bytes| <= MinField(f, frame, outer, c)
      && (|w.bytes| == MinField(f, frame, outer, c) <==> TransparentField(f, frame, outer, v))
    decreases f, 1
  {
    var env := [frame] + outer;
    if CondHolds(f.cond, env) {
      WriteWithin(f.ty, env, v);
      c := WriteType(f.ty, env, v).left;
    } else {
      c := v;
    }
  }

  lemma {:induction false} BufferWithin(fs: seq<Field>, frame: seq<Value>, outer: Env, vs: seq<Value>)
    returns (cs: seq<Value>)
    requires fs != [] && fs[0].ty.TLenOf?
    requires WellFormedFields(fs) && (forall k | 0 <= k < |fs| :: TraceableField(fs[k]))
    requires ConformsFields(fs, frame, outer, vs) && WriteFields(fs, frame, outer, vs).Wrote?
    ensures var w := WriteFields(fs, frame, outer, vs);
      && w.left == frame + cs && LengthsOkFields(fs, frame, outer, cs) && |w.bytes| <= MinFields(fs, frame, outer, cs)
      && (|w.bytes| == MinFields(fs, frame, outer, cs) <==> TransparentFields(fs, frame, outer, vs))
    decreases fs, 1
  {
    SchemaRoundTrip.LenStep(fs, frame, outer, vs);
    PairTail(fs);
    if CondHolds(fs[1].cond, [frame + [vs[0]]] + outer) {
      cs := WrittenBufferWithin(fs, frame, outer, vs);
    } else {
      cs := SkippedBufferWithin(fs, frame, outer, vs);
    }
  }

  lemma {:induction false} PairTail(fs: seq<Field>)
    requires |fs| >= 2 && forall k | 0 <= k < |fs| :: TraceableField(fs[k])
    ensures fs[1..][0] == fs[1] && fs[1..][1..] == fs[2..] && TraceableField(fs[1])
    ensures forall k | 0 <= k < |fs[2..]| :: TraceableField(fs[2..][k])
  {
    forall k | 0 <= k < |fs[2..]| ensures TraceableField(fs[2..][k]) { assert fs[2..][k] == fs[k + 2]; }
  }

  lemma {:induction false} WrittenBufferWithin(fs: seq<Field>, frame: seq<Value>, outer: Env, vs: seq<Value>)
    returns (cs: seq<Value>)
    requires |fs| >= 2 && fs[0].ty.TLenOf? && IsBuffer(fs[1]) && WellFormedFields(fs[2..])
    requires (forall k | 0 <= k < |fs| :: TraceableField(fs[k])) && |vs| == |fs|
    requires CondHolds(fs[1].cond, [frame + [vs[0]]] + outer)
    requires ConformsFields(fs[1..], frame + [vs[0]], outer, vs[1..])
    requires WriteFields(fs[1..], frame + [vs[0]], outer, vs[1..]).Wrote?
    requires fs[0].ty.p == fs[1].ty.p
    ensures var w := WriteFields(fs[1..], frame + [vs[0]], outer, vs[1..]);
      && w.left == frame + cs && LengthsOkFields(fs, frame, outer, cs) && |w.bytes| <= MinFields(fs, frame, outer, cs)
      && (|w.bytes| == MinFields(fs, frame, outer, cs)
          <==> TransparentFields(fs[1..], frame + [vs[0]], outer, vs[1..]))
    decreases fs, 0
  {
    PairTail(fs);
    SchemaRoundTrip.BufferStep(fs[1..], frame, outer, vs[0], vs[1..]);
    assert vs[1..][0] == vs[1] && vs[1..][1..] == vs[2..];
    var w := BodyTransparent(fs[1], frame, outer, vs[1]);
    var n := Num(|w.bytes|);
    var cs' := FieldsWithin(fs[2..], frame + [n, w.left], outer, vs[2..]);
    cs := [n, w.left] + cs';
    MinPair(fs, frame, outer, n, w.left, cs');
    Assoc3(frame, [n, w.left], cs');
  }

  lemma {:induction false} SkippedBufferWithin(fs: seq<Field>, frame: seq<Value>, outer: Env, vs: seq<Value>)
    returns (cs: seq<Value>)
    requires |fs| >= 2 && fs[0].ty.TLenOf? && IsBuffer(fs[1]) && WellFormedFields(fs[2..])
    requires (forall k | 0 <= k < |fs| :: TraceableField(fs[k])) && |vs| == |fs| && vs[0].Num?
    requires !CondHolds(fs[1].cond, [frame + [vs[0]]] + outer)
    requires ConformsFields(fs[1..], frame + [vs[0]], outer, vs[1..])
    requires WriteFields(fs[1..], frame + [vs[0]], outer, vs[1..]).Wrote?
    ensures var w := WriteFields(fs[1..], frame + [vs[0]], outer, vs[1..]);
      && w.left == frame + cs && LengthsOkFields(fs, frame, outer, cs) && |w.bytes| < MinFields(fs, frame, outer, cs)
      && !TransparentFields(fs[1..], frame + [vs[0]], outer, vs[1..])
    decreases fs, 0
  {
    PairTail(fs);
    assert vs[1..][0] == vs[1] && vs[1..][1..] == vs[2..];
    assert frame + [vs[0]] + [vs[1]] == frame + [vs[0], vs[1]];
    assert WriteField(fs[1], frame + [vs[0]], outer, vs[1]) == Wrote([], frame + [vs[0], vs[1]]);
    assert !TransparentField(fs[1], frame + [vs[0]], outer, vs[1]);
    var cs' := FieldsWithin(fs[2..], frame + [vs[0], vs[1]], outer, vs[2..]);
    cs := [vs[0], vs[1]] + cs';
    MinPair(fs, frame, outer, vs[0], vs[1], cs');
    Assoc3(frame, [vs[0], vs[1]], cs');
  }

  /** What a typed byte array holds is written whole. */
  lemma {:induction false} BodyTransparent(f: Field, frame: seq<Value>, outer: Env, v: Value)
    returns (w: Written<Value>)
    requires IsBuffer(f) && TraceableField(f) && Conforms(f.ty.body, [frame] + outer, v)
    requires WriteType(f.ty.body, [frame] + outer, v).Wrote?
    ensures w == WriteType(f.ty.body, [frame] + outer, v) && Transparent(f.ty.body, [frame] + outer, v)
  {
    w := WriteType(f.ty.body, [frame] + outer, v);
    NoCondsHold(f.ty.body, [frame] + outer, v);
    CondsHoldTransparent(f.ty.body, [frame] + outer, v);
  }

  lemma {:induction false} MinPair(fs: seq<Field>, frame: seq<Value>, outer: Env, n: Value, v: Value, cs: seq<Value>)
    requires |fs| >= 2 && fs[0].ty.TLenOf? && fs[1].ty.TTypedBytes? && HasLength(n)
    ensures MinFields(fs, frame, outer, [n, v] + cs)
         == |EncodePrim(fs[0].ty.p, n.n)| + n.n + MinFields(fs[2..], frame + [n, v], outer, cs)
    ensures LengthsOkFields(fs, frame, outer, [n, v] + cs) <==> LengthsOkFields(fs[2..], frame + [n, v], outer, cs)
  {
    MinCons(fs, frame, outer, n, [v] + cs);
    assert [n] + ([v] + cs) == [n, v] + cs;
    MinCons(fs[1..], frame + [n], outer, v, cs);
    assert fs[1..][0] == fs[1] && fs[1..][1..] == fs[2..];
    assert frame + [n] + [v] == frame + [n, v];
    assert LengthsOkField(fs[0], frame, outer, n) && LengthsOkField(fs[1], frame + [n], outer, v);
  }

  lemma {:induction false} MinCons(fs: seq<Field>, frame: seq<Value>, outer: Env, v: Value, cs: seq<Value>)
    requires fs != []
    ensures MinFields(fs, frame, outer, [v] + cs)
         == MinField(fs[0], frame, outer, v) + MinFields(fs[1..], frame + [v], outer, cs)
    ensures LengthsOkFields(fs, frame, outer, [v] + cs)
       <==> LengthsOkField(fs[0], frame, outer, v) && LengthsOkFields(fs[1..], frame + [v], outer, cs)
  {
    assert ([v] + cs)[1..] == cs;
  }

  // ---- exactly which values survive ---------------------------------------------------

  /** When something follows the packet's fields, the emitted reader gives back what
    * the emitted writer left, and stops exactly there, if and only if every field the
    * writer skipped is one the reader needs no bytes for. */
  lemma {:induction false} SurvivesIffTransparent(fs: seq<Field>, vs: seq<Value>, suffix: seq<byte>)
    requires WellFormedFields(fs) && (forall k | 0 <= k < |fs| :: TraceableField(fs[k]))
    requires ConformsFields(fs, [], [], vs) && WriteFields(fs, [], [], vs).Wrote?
    requires suffix != []
    ensures var w := WriteFields(fs, [], [], vs);
      var all := w.bytes + suffix;
      ReadFields(all, fs, [], [], all) == Some((w.left, suffix)) <==> TransparentFields(fs, [], [], vs)
  {
    var w := WriteFields(fs, [], [], vs);
    var all := w.bytes + suffix;
    if TransparentFields(fs, [], [], vs) {
      SchemaRoundTrip.FieldsRoundTrip(all, fs, [], [], vs, suffix);
    }
    if ReadFields(all, fs, [], [], all) == Some((w.left, suffix)) {
      var cs := FieldsConsume(all, fs, [], [], all);
      var cs' := FieldsWithin(fs, [], [], vs);
      assert cs == [] + cs == [] + cs' == cs';
    }
  }
}
