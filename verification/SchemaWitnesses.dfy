/** Concrete packets that survive although the writer skipped fields of them: what
  * SchemaSkips asks for is needed. */
module SchemaWitnesses {
  import opened Bytes
  import opened Schema
  import Nbt

  const FLAG := Some(Ref(0, 0))

  // ---- step by step ----------------------------------------------------------------------

  lemma {:induction false} ReadStep(all: seq<byte>, fs: seq<Field>, frame: seq<Value>, outer: Env, input: seq<byte>,
          v: Value, rest: seq<byte>)
    requires fs != [] && ReadField(all, fs[0], frame, outer, input) == Some((v, rest))
    ensures ReadFields(all, fs, frame, outer, input) == ReadFields(all, fs[1..], frame + [v], outer, rest)
  {
  }

  lemma {:induction false} WriteStep(fs: seq<Field>, frame: seq<Value>, outer: Env, vs: seq<Value>, bs: seq<byte>,
          frame': seq<Value>)
    requires fs != [] && vs != [] && WriteField(fs[0], frame, outer, vs[0]) == Wrote(bs, frame')
    ensures WriteFields(fs, frame, outer, vs)
         == match WriteFields(fs[1..], frame', outer, vs[1..])
            case Refused(e) => Refused(e)
            case Wrote(bs', all) => Wrote(bs + bs', all)
    ensures |fs| == |vs| && ConformsField(fs[0], frame, outer, vs[0]) && ConformsFields(fs[1..], frame', outer, vs[1..])
        ==> ConformsFields(fs, frame, outer, vs)
    ensures TransparentFields(fs, frame, outer, vs)
       <==> TransparentField(fs[0], frame, outer, vs[0]) && TransparentFields(fs[1..], frame', outer, vs[1..])
  {
  }

  /** A field of a primitive type, with its condition. */
  lemma {:induction false} PrimField(all: seq<byte>, f: Field, frame: seq<Value>, outer: Env, n: int, input: seq<byte>)
    requires f.ty.TPrim? && (f.cond.Some? ==> Lookup([frame] + outer, f.cond.value).Some?) && f.ty.p.Holds(n)
    ensures var bs: seq<byte> := if CondHolds(f.cond, [frame] + outer) then EncodePrim(f.ty.p, n) else [];
      WriteField(f, frame, outer, Num(n)) == Wrote(bs, frame + [Num(n)])
    ensures ConformsField(f, frame, outer, Num(n))
    ensures TransparentField(f, frame, outer, Num(n)) <==> CondHolds(f.cond, [frame] + outer)
    ensures ReadField(all, f, frame, outer, input) == AsNum(ReadPrim(f.ty.p, input))
  {
    hide WriteFields, ReadFields, ReadPrim, Lookup, Prim.Holds;
    assert |EncodePrim(f.ty.p, n)| > 0;
    hide EncodePrim;
    var env := [frame] + outer;
    assert WriteType(f.ty, env, Num(n)) == Wrote(EncodePrim(f.ty.p, n), Num(n));
    assert Conforms(f.ty, env, Num(n)) && LengthsOk(f.ty, env, Num(n)) && Transparent(f.ty, env, Num(n));
    assert MinBytes(f.ty, env, Num(n)) > 0;
    assert ReadType(all, f.ty, env, input) == AsNum(ReadPrim(f.ty.p, input));
    hide WriteType, Conforms, LengthsOk, Transparent, MinBytes, ReadType;
  }

  /** An unconditional typed byte array whose sub-packet is a struct. */
  lemma {:induction false} BufferField(f: Field, frame: seq<Value>, outer: Env, vs: seq<Value>)
    requires f.ty.TTypedBytes? && f.ty.body.TStruct? && f.cond.None? && frame != []
    requires WriteFields(f.ty.body.fields, [], [Before(frame)] + outer, vs).Wrote?
    ensures var w := WriteFields(f.ty.body.fields, [], [Before(frame)] + outer, vs);
      && WriteField(f, frame, outer, Rec(vs)) ==
         Wrote(EncodePrim(f.ty.p, |w.bytes|) + w.bytes, Before(frame) + [Num(|w.bytes|), Rec(w.left)])
      && (ConformsField(f, frame, outer, Rec(vs)) <==>
          ConformsFields(f.ty.body.fields, [], [Before(frame)] + outer, vs) && f.ty.p.Holds(|w.bytes|))
      && (TransparentField(f, frame, outer, Rec(vs)) <==>
          TransparentFields(f.ty.body.fields, [], [Before(frame)] + outer, vs))
  {
    hide WriteFields, ConformsFields, TransparentFields, EncodePrim, Prim.Holds, Before, Lookup;
    var env := [Before(frame)] + outer;
    var w := WriteFields(f.ty.body.fields, [], env, vs);
    assert WriteType(f.ty.body, env, Rec(vs)) == Wrote(w.bytes, Rec(w.left));
    assert Conforms(f.ty.body, env, Rec(vs)) == ConformsFields(f.ty.body.fields, [], env, vs);
    assert Transparent(f.ty.body, env, Rec(vs)) == TransparentFields(f.ty.body.fields, [], env, vs);
    hide WriteType, Conforms, Transparent;
  }

  // ---- at the end of the packet ------------------------------------------------------------

  const FLAGGED: seq<Field> := [Field(TPrim(PBool), None), Field(TPrim(PByte), FLAG)]
  const UNFLAGGED: seq<Value> := [Num(0), Num(0)]

  lemma {:induction false} FlaggedFields(all: seq<byte>, outer: Env, f1: seq<Value>)
    requires f1 == [Num(0)]
    ensures WriteField(FLAGGED[0], [], outer, Num(0)) == Wrote([0], f1) && ConformsField(FLAGGED[0], [], outer, Num(0))
    ensures WriteField(FLAGGED[1], f1, outer, Num(0)) == Wrote([], UNFLAGGED)
    ensures ConformsField(FLAGGED[1], f1, outer, Num(0))
    ensures !TransparentField(FLAGGED[1], f1, outer, Num(0))
    ensures ReadField(all, FLAGGED[0], [], outer, [0]) == Some((Num(0), []))
    ensures ReadField(all, FLAGGED[1], f1, outer, []) == Some((Num(0), []))
  {
    hide WriteField, ReadField, ConformsField, TransparentField;
    var zero: seq<byte> := [0];
    assert Lookup([f1] + outer, Ref(0, 0)) == Some(0);
    PrimField(all, FLAGGED[0], [], outer, 0, zero);
    PrimField(all, FLAGGED[1], f1, outer, 0, []);
    assert EncodePrim(PBool, 0) == zero && [] + [Num(0)] == f1 && f1 + [Num(0)] == UNFLAGGED;
    assert FromBigEndian(zero) == 0 && zero[..1] == zero && zero[1..] == [];
  }

  /** The two fields, skipped one included, at the end of a packet. */
  lemma {:induction false} FlaggedAtEnd(all: seq<byte>, outer: Env)
    ensures WriteFields(FLAGGED, [], outer, UNFLAGGED) == Wrote([0], UNFLAGGED)
    ensures WellFormedFields(FLAGGED) && ConformsFields(FLAGGED, [], outer, UNFLAGGED)
    ensures !TransparentFields(FLAGGED, [], outer, UNFLAGGED)
    ensures ReadFields(all, FLAGGED, [], outer, [0]) == Some((UNFLAGGED, []))
  {
    hide WriteField, ReadField, ConformsField, TransparentField;
    var fs, vs := FLAGGED, UNFLAGGED;
    var f1, zero: seq<byte> := [Num(0)], [0];
    FlaggedFields(all, outer, f1);
    WriteStep(fs, [], outer, vs, zero, f1);
    WriteStep(fs[1..], f1, outer, vs[1..], [], vs);
    assert WriteFields(fs[1..][1..], vs, outer, vs[1..][1..]) == Wrote([], vs);
    assert zero + ([] + []) == zero;
    assert ConformsFields(fs[1..][1..], vs, outer, vs[1..][1..]);
    assert [] + [Num(0)] == f1 && f1 + [Num(0)] == vs;
    ReadStep(all, fs, [], outer, zero, Num(0), []);
    ReadStep(all, fs[1..], f1, outer, [], Num(0), []);
    assert WellFormedFields(fs[1..][1..]) && WellFormedFields(fs[1..]);
  }

  /** A byte is read as 0 at the end of the packet, so that the value survives although
    * the byte was skipped. */
  lemma {:induction false} EndHidesASkip()
    ensures var w := WriteFields(FLAGGED, [], [], UNFLAGGED);
      && WellFormedFields(FLAGGED) && ConformsFields(FLAGGED, [], [], UNFLAGGED)
      && !TransparentFields(FLAGGED, [], [], UNFLAGGED)
      && w.Wrote? && ReadFields(w.bytes, FLAGGED, [], [], w.bytes) == Some((w.left, []))
  {
    FlaggedAtEnd([0], []);
  }

  // ---- at the end of a typed byte array -----------------------------------------------------

  const FLAGGED_BUFFER: seq<Field> := [
    Field(TLenOf(PByte), None),
    Field(TTypedBytes(PByte, TStruct(FLAGGED)), None)
  ]
  const BUFFER_VALUES: seq<Value> := [Num(1), Rec(UNFLAGGED)]

  /** A typed byte array is a packet of its own, with an end of its own: the value
    * survives although something follows the array. */
  lemma {:induction false} BufferHidesASkip(suffix: seq<byte>)
    ensures var w := WriteFields(FLAGGED_BUFFER, [], [], BUFFER_VALUES);
      && WellFormedFields(FLAGGED_BUFFER) && ConformsFields(FLAGGED_BUFFER, [], [], BUFFER_VALUES)
      && !TransparentFields(FLAGGED_BUFFER, [], [], BUFFER_VALUES)
      && w.Wrote? && ReadFields(w.bytes + suffix, FLAGGED_BUFFER, [], [], w.bytes + suffix) == Some((w.left, suffix))
  {
    hide WriteField, ReadField, ConformsField, TransparentField, WriteFields, ReadFields;
    var fs, vs, f1 := FLAGGED_BUFFER, BUFFER_VALUES, [Num(1)];
    var bs: seq<byte> := [1, 0];
    BufferWrites(f1);
    BufferReads(bs + suffix, suffix, f1);
    assert bs + suffix == [1] + ([0] + suffix);
    assert fs[1..][0] == fs[1] && fs[1..][1..] == fs[2..] == [] && WellFormedFields(fs[2..]);
    FlaggedAtEnd([], [[]]);
    assert WellFormed(TStruct(FLAGGED));
    assert WellFormedBuffer(fs[1], PByte);
  }

  lemma {:induction false} LengthField(f: Field)
    requires f == FLAGGED_BUFFER[0]
    ensures WriteField(f, [], [], Num(1)) == Wrote([], [Num(1)]) && ConformsField(f, [], [], Num(1))
    ensures TransparentField(f, [], [], Num(1))
  {
    hide WriteFields, ConformsFields, TransparentFields;
    assert [] + [Num(1)] == [Num(1)];
  }

  lemma {:induction false} BufferFields(f1: seq<Value>)
    requires f1 == [Num(1)]
    ensures WriteField(FLAGGED_BUFFER[1], f1, [], BUFFER_VALUES[1]) == Wrote([1, 0], BUFFER_VALUES)
    ensures ConformsField(FLAGGED_BUFFER[1], f1, [], BUFFER_VALUES[1])
    ensures !TransparentField(FLAGGED_BUFFER[1], f1, [], BUFFER_VALUES[1])
  {
    hide WriteFields, ConformsFields, TransparentFields, WriteField, ConformsField, TransparentField;
    var env: Env, one: seq<byte>, zero: seq<byte> := [[]], [1], [0];
    FlaggedAtEnd([], env);
    assert [[]] + [] == env && Before(f1) == [];
    BufferField(FLAGGED_BUFFER[1], f1, [], UNFLAGGED);
    assert [] + [Num(1), BUFFER_VALUES[1]] == BUFFER_VALUES;
    assert EncodePrim(PByte, 1) == one && one + zero == [1, 0];
  }

  lemma {:induction false} BufferWrites(f1: seq<Value>)
    requires f1 == [Num(1)]
    ensures WriteFields(FLAGGED_BUFFER, [], [], BUFFER_VALUES) == Wrote([1, 0], BUFFER_VALUES)
    ensures ConformsFields(FLAGGED_BUFFER, [], [], BUFFER_VALUES)
    ensures !TransparentFields(FLAGGED_BUFFER, [], [], BUFFER_VALUES)
  {
    hide WriteField, ConformsField, TransparentField;
    var fs, vs := FLAGGED_BUFFER, BUFFER_VALUES;
    var bs: seq<byte> := [1, 0];
    LengthField(fs[0]);
    BufferFields(f1);
    WriteStep(fs, [], [], vs, [], f1);
    WriteStep(fs[1..], f1, [], vs[1..], bs, vs);
    assert WriteFields(fs[1..][1..], vs, [], vs[1..][1..]) == Wrote([], vs);
    assert ConformsFields(fs[1..][1..], vs, [], vs[1..][1..]);
    assert [] + (bs + []) == bs;
  }

  lemma {:induction false} BufferFieldsRead(all: seq<byte>, suffix: seq<byte>, f1: seq<Value>)
    requires f1 == [Num(1)]
    ensures ReadField(all, FLAGGED_BUFFER[0], [], [], [1] + ([0] + suffix)) == Some((Num(1), [0] + suffix))
    ensures ReadField(all, FLAGGED_BUFFER[1], f1, [], [0] + suffix) == Some((BUFFER_VALUES[1], suffix))
  {
    hide ReadFields, WriteFields, ConformsFields, TransparentFields;
    var one: seq<byte>, zero: seq<byte> := [1], [0];
    var input := one + (zero + suffix);
    var env: Env := [[]];
    FlaggedAtEnd(zero, env);
    assert [[]] + [] == env && Before(f1) == [];
    assert input[..1] == one && input[1..] == zero + suffix;
    assert (zero + suffix)[..1] == zero && (zero + suffix)[1..] == suffix;
    assert FromBigEndian(one) == 1;
    assert ReadType(zero, TStruct(FLAGGED), env, zero) == Some((BUFFER_VALUES[1], []));
  }

  lemma {:induction false} BufferReads(all: seq<byte>, suffix: seq<byte>, f1: seq<Value>)
    requires f1 == [Num(1)]
    ensures ReadFields(all, FLAGGED_BUFFER, [], [], [1] + ([0] + suffix)) == Some((BUFFER_VALUES, suffix))
  {
    hide ReadFields, ReadField;
    var fs, vs := FLAGGED_BUFFER, BUFFER_VALUES;
    BufferFieldsRead(all, suffix, f1);
    assert [] + [Num(1)] == f1 && f1 + [vs[1]] == vs;
    ReadStep(all, fs, [], [], [1] + ([0] + suffix), Num(1), [0] + suffix);
    ReadStep(all, fs[1..], f1, [], [0] + suffix, vs[1], suffix);
    NoneLeft(all, fs[1..][1..], vs, suffix);
  }

  lemma {:induction false} NoneLeft(all: seq<byte>, fs: seq<Field>, frame: seq<Value>, input: seq<byte>)
    requires fs == []
    ensures ReadFields(all, fs, frame, [], input) == Some((frame, input))
  {
  }

  // ---- with a negative length ----------------------------------------------------------------

  const BACKWARD: seq<Field> := [
    Field(TPrim(PBool), None),
    Field(TLenOf(PByte), None),
    Field(TTypedBytes(PByte, TStruct([Field(TPrim(PBool), None)])), FLAG)
  ]
  const BACKWARD_VALUES: seq<Value> := [Num(0), Num(-1), Rec([Num(0)])]

  /** A skipped typed byte array of length -1: the reader takes the length from what
    * follows and its index goes back over it. */
  lemma {:induction false} NegativeLengthHidesASkip()
    ensures var w := WriteFields(BACKWARD, [], [], BACKWARD_VALUES);
      var suffix: seq<byte> := [255];
      && WellFormedFields(BACKWARD) && !LengthsOkFields(BACKWARD, [], [], BACKWARD_VALUES)
      && !TransparentFields(BACKWARD, [], [], BACKWARD_VALUES)
      && w.Wrote? && ReadFields(w.bytes + suffix, BACKWARD, [], [], w.bytes + suffix) == Some((w.left, suffix))
  {
    BackwardWrites(BACKWARD_VALUES[..1], BACKWARD_VALUES[..2]);
    BackwardReads(BACKWARD_VALUES[..1], BACKWARD_VALUES[..2]);
    var bs: seq<byte>, suffix: seq<byte> := [0], [255];
    assert bs + suffix == [0, 255];
    assert BACKWARD[1..][0] == BACKWARD[1] && BACKWARD[1..][1] == BACKWARD[2];
    assert WellFormedFields(BACKWARD[1..][2..]);
    var inner := [Field(TPrim(PBool), None)];
    assert WellFormedFields(inner[1..]) && WellFormedFields(inner);
  }

  lemma {:induction false} BackwardWrites(a: seq<Value>, b: seq<Value>)
    requires a == BACKWARD_VALUES[..1] && b == BACKWARD_VALUES[..2]
    ensures WriteFields(BACKWARD, [], [], BACKWARD_VALUES) == Wrote([0], BACKWARD_VALUES)
    ensures !TransparentFields(BACKWARD, [], [], BACKWARD_VALUES)
    ensures !LengthsOkFields(BACKWARD, [], [], BACKWARD_VALUES)
  {
    var fs, vs := BACKWARD, BACKWARD_VALUES;
    var zero: seq<byte> := [0];
    assert [] + [vs[0]] == a && a + [vs[1]] == b && b + [vs[2]] == vs && EncodePrim(PBool, 0) == zero;
    assert WriteField(fs[0], [], [], vs[0]) == Wrote(zero, a);
    assert WriteField(fs[1], a, [], vs[1]) == Wrote([], b);
    assert Lookup([b] + [], Ref(0, 0)) == Some(0);
    assert WriteField(fs[2], b, [], vs[2]) == Wrote([], vs);
    WriteStep(fs, [], [], vs, zero, a);
    WriteStep(fs[1..], a, [], vs[1..], [], b);
    WriteStep(fs[1..][1..], b, [], vs[1..][1..], [], vs);
    assert WriteFields(fs[1..][1..][1..], vs, [], vs[1..][1..][1..]) == Wrote([], vs);
    assert zero + ([] + ([] + [])) == zero;
    assert !TransparentField(fs[2], b, [], vs[2]);
    assert !LengthsOkField(fs[2], b, [], vs[2]);
    assert !LengthsOkFields(fs[1..][1..], b, [], vs[1..][1..]);
    assert !LengthsOkFields(fs[1..], a, [], vs[1..]);
  }

  lemma {:induction false} BackwardReads(a: seq<Value>, b: seq<Value>)
    requires a == BACKWARD_VALUES[..1] && b == BACKWARD_VALUES[..2]
    ensures ReadFields([0, 255], BACKWARD, [], [], [0, 255]) == Some((BACKWARD_VALUES, [255]))
  {
    var fs, vs := BACKWARD, BACKWARD_VALUES;
    var all: seq<byte>, last: seq<byte> := [0, 255], [255];
    assert [] + [vs[0]] == a && a + [vs[1]] == b && b + [vs[2]] == vs;
    assert all[..1] == [0] && all[1..] == last && last[..1] == last && last[1..] == [];
    assert FromBigEndian([0]) == 0 && FromBigEndian(last) == 255;
    assert Signed(PByte, 255) == -1;
    ReadStep(all, fs, [], [], all, vs[0], last);
    ReadStep(all, fs[1..], a, [], last, vs[1], []);
    EmptyPacket([Before(b)] + []);
    assert ReadField(all, fs[2], b, [], []) == Some((vs[2], last));
    ReadStep(all, fs[1..][1..], b, [], [], vs[2], last);
  }

  /** One flag read from nothing. */
  lemma {:induction false} EmptyPacket(env: Env)
    ensures ReadType([], TStruct([Field(TPrim(PBool), None)]), env, []) == Some((Rec([Num(0)]), []))
  {
    var fs := [Field(TPrim(PBool), None)];
    ReadStep([], fs, [], env, [], Num(0), []);
    assert [] + [Num(0)] == [Num(0)];
  }

  // ---- with NBT ---------------------------------------------------------------------------------

  const F0 := Field(TPrim(PBool), None)
  const F1 := Field(TPrim(PByte), FLAG)
  const F2 := Field(TPrim(PShort), FLAG)
  const F3 := Field(TNbt, None)
  const VALUES := [Num(0), Num(10), Num(0), Tree(EMPTY_NBT)]

  /** Three skipped bytes and an unnamed root, whose three header bytes the
    * reader mistakes for them: the value survives although fields were skipped. */
  lemma {:induction false} NbtHidesASkip()
    ensures var fs := [F0, F1, F2, F3];
      var w := WriteFields(fs, [], [], VALUES);
      && WellFormedFields(fs) && ConformsFields(fs, [], [], VALUES) && !TransparentFields(fs, [], [], VALUES)
      && w.Wrote? && ReadFields(w.bytes + [0], fs, [], [], w.bytes + [0]) == Some((w.left, [0]))
  {
    var vs := VALUES;
    HiddenSkipWrites(vs, vs[..1], vs[..2], vs[..3]);
    HiddenSkipConforms(vs, vs[..1], vs[..2], vs[..3]);
    HiddenSkipReads([0, 10, 0, 0, 0, 0], vs, vs[..1], vs[..2], vs[..3]);
    var bs: seq<byte> := [0, 10, 0, 0, 0];
    assert bs + [0] == [0, 10, 0, 0, 0, 0];
  }

  lemma {:induction false} Tails()
    ensures [F0, F1, F2, F3][1..] == [F1, F2, F3] && [F1, F2, F3][1..] == [F2, F3]
    ensures [F2, F3][1..] == [F3] && [F3][1..] == []
    ensures VALUES[1..] == [Num(10), Num(0), Tree(EMPTY_NBT)]
    ensures [Num(10), Num(0), Tree(EMPTY_NBT)][1..] == [Num(0), Tree(EMPTY_NBT)]
    ensures [Num(0), Tree(EMPTY_NBT)][1..] == [Tree(EMPTY_NBT)] && [Tree(EMPTY_NBT)][1..] == []
  {
  }

  lemma {:induction false} HiddenFieldsWrite(vs: seq<Value>, a: seq<Value>, b: seq<Value>, c: seq<Value>)
    requires vs == VALUES && a == vs[..1] && b == vs[..2] && c == vs[..3]
    ensures WriteField(F0, [], [], Num(0)) == Wrote([0], a)
    ensures WriteField(F1, a, [], Num(10)) == Wrote([], b)
    ensures WriteField(F2, b, [], Num(0)) == Wrote([], c)
    ensures WriteField(F3, c, [], Tree(EMPTY_NBT)) == Wrote([10, 0, 0, 0], vs)
  {
    assert [] + [Num(0)] == a && a + [Num(10)] == b && b + [Num(0)] == c && c + [Tree(EMPTY_NBT)] == vs;
    assert Nbt.PackString(None) == [0, 0] && Nbt.PackRoot(EMPTY_NBT) == [10, 0, 0, 0];
    assert EncodePrim(PBool, 0) == [0];
  }

  lemma {:induction false} HiddenSkipWrites(vs: seq<Value>, a: seq<Value>, b: seq<Value>, c: seq<Value>)
    requires vs == VALUES && a == vs[..1] && b == vs[..2] && c == vs[..3]
    ensures WriteFields([F0, F1, F2, F3], [], [], vs) == Wrote([0, 10, 0, 0, 0], vs)
  {
    hide WriteField;
    Tails();
    HiddenFieldsWrite(vs, a, b, c);
    var root: seq<byte> := [10, 0, 0, 0];
    assert WriteFields([F3], c, [], [Tree(EMPTY_NBT)]) == Wrote(root + [], vs);
    assert WriteFields([F2, F3], b, [], [Num(0), Tree(EMPTY_NBT)]) == Wrote([] + (root + []), vs);
    assert WriteFields([F1, F2, F3], a, [], [Num(10), Num(0), Tree(EMPTY_NBT)]) == Wrote([] + ([] + (root + [])), vs);
  }

  lemma {:induction false} HiddenSkipWellFormed()
    ensures WellFormedFields([F0, F1, F2, F3])
  {
    Tails();
    assert WellFormedFields([]);
    assert WellFormedField(F3) && WellFormedFields([F3]);
    assert WellFormedField(F2) && WellFormedFields([F2, F3]);
    assert WellFormedField(F1) && WellFormedFields([F1, F2, F3]);
  }

  lemma {:induction false} HiddenFieldsConform(a: seq<Value>, b: seq<Value>, c: seq<Value>)
    requires a == VALUES[..1] && b == VALUES[..2] && c == VALUES[..3]
    ensures ConformsField(F0, [], [], Num(0)) && ConformsField(F1, a, [], Num(10)) && ConformsField(F2, b, [], Num(0))
    ensures ConformsField(F3, c, [], Tree(EMPTY_NBT)) && !TransparentField(F1, a, [], Num(10))
  {
    hide WriteFields, ReadFields;
    assert Nbt.RootInDomain(EMPTY_NBT);
    assert Lookup([a] + [], Ref(0, 0)) == Some(0) == Lookup([b] + [], Ref(0, 0));
    assert Conforms(TNbt, [c] + [], Tree(EMPTY_NBT));
  }

  lemma {:induction false} HiddenSkipConforms(vs: seq<Value>, a: seq<Value>, b: seq<Value>, c: seq<Value>)
    requires vs == VALUES && a == vs[..1] && b == vs[..2] && c == vs[..3]
    ensures WellFormedFields([F0, F1, F2, F3])
    ensures ConformsFields([F0, F1, F2, F3], [], [], vs) && !TransparentFields([F0, F1, F2, F3], [], [], vs)
  {
    Tails();
    HiddenSkipWellFormed();
    hide WriteField, ConformsField, TransparentField, WellFormedFields;
    HiddenFieldsConform(a, b, c);
    HiddenFieldsWrite(vs, a, b, c);
    var root := Tree(EMPTY_NBT);
    assert ConformsFields([], vs, [], []);
    assert ConformsFields([F3], c, [], [root]);
    assert ConformsFields([F2, F3], b, [], [Num(0), root]);
    assert ConformsFields([F1, F2, F3], a, [], [Num(10), Num(0), root]);
  }

  lemma {:induction false} FirstFieldsRead(all: seq<byte>, a: seq<Value>)
    ensures ReadField(all, F0, [], [], [0, 10, 0, 0, 0, 0]) == Some((Num(0), [10, 0, 0, 0, 0]))
    ensures ReadField(all, F1, a, [], [10, 0, 0, 0, 0]) == Some((Num(10), [0, 0, 0, 0]))
  {
    hide ReadFields, Lookup, CondHolds;
    var i0: seq<byte>, i1: seq<byte>, i2: seq<byte> := [0, 10, 0, 0, 0, 0], [10, 0, 0, 0, 0], [0, 0, 0, 0];
    assert i0[1..] == i1 && i1[1..] == i2;
    assert i0[..1] == [0] && i1[..1] == [10];
    assert FromBigEndian([0]) == 0 && FromBigEndian([10]) == 10;
  }

  lemma {:induction false} LastFieldsRead(all: seq<byte>, b: seq<Value>, c: seq<Value>)
    ensures ReadField(all, F2, b, [], [0, 0, 0, 0]) == Some((Num(0), [0, 0]))
    ensures ReadField(all, F3, c, [], [0, 0]) == Some((Tree(EMPTY_NBT), [0]))
  {
    hide Nbt.ParseRoot, ReadFields, Lookup, CondHolds;
    var i2: seq<byte>, i3: seq<byte> := [0, 0, 0, 0], [0, 0];
    assert i2[2..] == i3 && i2[..2] == i3;
    assert FromBigEndian([0, 0]) == 0;
    EndTagReads();
  }

  lemma {:induction false} EndTagReads()
    ensures Nbt.ParseRoot([0, 0]) == Some((EMPTY_NBT, [0]))
  {
    var i: seq<byte> := [0, 0];
    assert i[1..] == [0];
  }

  lemma {:induction false} HiddenSkipReads(all: seq<byte>, vs: seq<Value>, a: seq<Value>, b: seq<Value>, c: seq<Value>)
    requires vs == VALUES && a == vs[..1] && b == vs[..2] && c == vs[..3]
    ensures ReadFields(all, [F0, F1, F2, F3], [], [], [0, 10, 0, 0, 0, 0]) == Some((vs, [0]))
  {
    hide ReadField;
    FirstFieldsRead(all, a);
    LastFieldsRead(all, b, c);
    Tails();
    assert [] + [Num(0)] == a && a + [Num(10)] == b && b + [Num(0)] == c && c + [Tree(EMPTY_NBT)] == vs;
    assert ReadFields(all, [F3], c, [], [0, 0]) == Some((vs, [0]));
    assert ReadFields(all, [F2, F3], b, [], [0, 0, 0, 0]) == Some((vs, [0]));
    assert ReadFields(all, [F1, F2, F3], a, [], [10, 0, 0, 0, 0]) == Some((vs, [0]));
  }
}
