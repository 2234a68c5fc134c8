/** The player_info packet: nested structs, a union, optional fields in three
  * places. Which of its values the generated reader gives back. */
module PlayerInfo {
  import opened Bytes
  import opened Schema
  import opened Protocol
  import opened SchemaWitnesses
  import SchemaRoundTrip
  import SchemaSkips

  const ACTIONS: seq<EnumConst> := [
    EnumConst("ADD_PLAYER", None),
    EnumConst("UPDATE_GAMEMODE", None),
    EnumConst("UPDATE_LATENCY", None),
    EnumConst("UPDATE_DISPLAY_NAME", None),
    EnumConst("REMOVE_PLAYER", None)
  ]

  const PROPERTY_FIELDS: seq<Field> := [
    Always(TString(32767)),
    Always(TString(32767)),
    Always(TPrim(PBool)),
    Field(TString(32767), Some(Ref(0, 2)))
  ]

  const ADD_PLAYER_FIELDS: seq<Field> := [
    Always(TString(16)),
    Always(TPrim(PVarInt)),
    Always(TArray(TStruct(PROPERTY_FIELDS), FieldLen(Ref(0, 1)))),
    Always(TPrim(PVarInt)),
    Always(TPrim(PVarInt)),
    Always(TPrim(PBool)),
    Field(TChat, Some(Ref(0, 5)))
  ]

  const DISPLAY_NAME_FIELDS: seq<Field> := [
    Always(TPrim(PBool)),
    Field(TChat, Some(Ref(0, 0)))
  ]

  const ACTION_FIELDS: seq<Field> := [
    Always(TStruct(ADD_PLAYER_FIELDS)),
    Always(TPrim(PVarInt)),
    Always(TPrim(PVarInt)),
    Always(TStruct(DISPLAY_NAME_FIELDS)),
    Always(TEmpty)
  ]

  const UNION: Type := TUnion(Ref(1, 0), ACTIONS, ACTION_FIELDS)

  const PLAYER_FIELDS: seq<Field> := [
    Always(TUuid),
    Always(UNION)
  ]

  const PLAYER_INFO: seq<Field> := [
    Always(TEnum(PVarInt, ACTIONS)),
    Always(TPrim(PVarInt)),
    Always(TArray(TStruct(PLAYER_FIELDS), FieldLen(Ref(0, 1))))
  ]

  // ---- one field at a time --------------------------------------------------------------

  /** The first field of a struct that is written without error. */
  lemma {:induction false} Unroll(fs: seq<Field>, frame: seq<Value>, outer: Env, vs: seq<Value>)
    returns (frame': seq<Value>)
    requires fs != [] && !fs[0].ty.TTypedBytes?
    requires ConformsFields(fs, frame, outer, vs) && WriteFields(fs, frame, outer, vs).Wrote?
    ensures |vs| == |fs| && ConformsField(fs[0], frame, outer, vs[0])
    ensures WriteField(fs[0], frame, outer, vs[0]).Wrote? && frame' == WriteField(fs[0], frame, outer, vs[0]).left
    ensures |frame'| == |frame| + 1 && frame'[..|frame|] == frame
    ensures fs[0].ty.TPrim? || fs[0].ty.TEnum? ==> frame' == frame + [vs[0]]
    ensures ConformsFields(fs[1..], frame', outer, vs[1..]) && WriteFields(fs[1..], frame', outer, vs[1..]).Wrote?
    ensures TransparentFields(fs, frame, outer, vs)
       <==> TransparentField(fs[0], frame, outer, vs[0]) && TransparentFields(fs[1..], frame', outer, vs[1..])
  {
    frame' := WriteField(fs[0], frame, outer, vs[0]).left;
  }

  lemma {:induction false} NoFieldsLeft(frame: seq<Value>, outer: Env, vs: seq<Value>)
    ensures TransparentFields([], frame, outer, vs)
  {
  }

  /** A primitive or string field without a condition is never skipped. */
  lemma {:induction false} LeafTransparent(f: Field, frame: seq<Value>, outer: Env, v: Value)
    requires f.cond.None? && (f.ty.TPrim? || f.ty.TEnum? || f.ty.TString? || f.ty.TUuid? || f.ty.TEmpty?)
    ensures TransparentField(f, frame, outer, v)
  {
  }

  // ---- properties ---------------------------------------------------------------------------

  predicate IsSigned(v: Value) {
    v.Rec? && |v.fields| == 4 && v.fields[2] != Num(0)
  }

  /** An unsigned property has a signature the writer skips and the reader expects. */
  lemma {:induction false} PropertyTransparentIff(env: Env, v: Value)
    requires Conforms(TStruct(PROPERTY_FIELDS), env, v) && WriteType(TStruct(PROPERTY_FIELDS), env, v).Wrote?
    ensures Transparent(TStruct(PROPERTY_FIELDS), env, v) <==> IsSigned(v)
  {
    hide ConformsFields, TransparentFields, WriteFields, WriteField, ConformsField;
    var fs, vs := PROPERTY_FIELDS, v.fields;
    PropertyWritten(env, v);
    var f1 := Unroll(fs, [], env, vs);
    var f2 := Unroll(fs[1..], f1, env, vs[1..]);
    var f3 := Unroll(fs[1..][1..], f2, env, vs[1..][1..]);
    var f4 := Unroll(fs[1..][1..][1..], f3, env, vs[1..][1..][1..]);
    assert f3[2] == vs[2];
    LeafTransparent(fs[0], [], env, vs[0]);
    LeafTransparent(fs[1], f1, env, vs[1]);
    LeafTransparent(fs[2], f2, env, vs[2]);
    NoFieldsLeft(f4, env, vs[1..][1..][1..][1..]);
    assert fs[1..][1..][1..][1..] == [];
    SignatureTransparentIff(f3, env, vs[3]) by {
      BoolValue(fs[2], f2, env, vs[2]);
    }
  }

  lemma {:induction false} PropertyWritten(env: Env, v: Value)
    requires Conforms(TStruct(PROPERTY_FIELDS), env, v) && WriteType(TStruct(PROPERTY_FIELDS), env, v).Wrote?
    ensures v.Rec? && ConformsFields(PROPERTY_FIELDS, [], env, v.fields)
    ensures WriteFields(PROPERTY_FIELDS, [], env, v.fields).Wrote?
  {
  }

  lemma {:induction false} BoolValue(f: Field, frame: seq<Value>, outer: Env, v: Value)
    requires f == Always(TPrim(PBool)) && ConformsField(f, frame, outer, v)
    ensures v.Num?
  {
  }

  lemma {:induction false} SignatureTransparentIff(frame: seq<Value>, outer: Env, v: Value)
    requires |frame| == 3 && frame[2].Num?
    ensures TransparentField(PROPERTY_FIELDS[3], frame, outer, v) <==> frame[2] != Num(0)
  {
    assert Lookup([frame] + outer, Ref(0, 2)) == Some(frame[2].n);
  }

  // ---- players --------------------------------------------------------------------------------

  /** Every property is signed and nothing stands where a display name would. */
  predicate AddReadable(v: Value) {
    && v.Rec? && |v.fields| == 7 && v.fields[2].Arr? && v.fields[6].Nothing?
    && forall k | 0 <= k < |v.fields[2].elems| :: IsSigned(v.fields[2].elems[k])
  }

  lemma {:induction false} AddTransparentIff(v: Value)
    requires Conforms(TStruct(ADD_PLAYER_FIELDS), [], v) && WriteType(TStruct(ADD_PLAYER_FIELDS), [], v).Wrote?
    ensures Transparent(TStruct(ADD_PLAYER_FIELDS), [], v) <==> AddReadable(v)
  {
    hide ConformsFields, TransparentFields, WriteFields, WriteField, ConformsField, TransparentField, IsSigned;
    var fs, vs := ADD_PLAYER_FIELDS, v.fields;
    AddWritten(v);
    var f1 := Unroll(fs, [], [], vs);
    var f2 := Unroll(fs[1..], f1, [], vs[1..]);
    var f3 := Unroll(fs[1..][1..], f2, [], vs[1..][1..]);
    LeafTransparent(fs[0], [], [], vs[0]);
    LeafTransparent(fs[1], f1, [], vs[1]);
    PropertiesTransparentIff(f2, vs[2]);
    assert fs[1..][1..][1..] == ADD_PLAYER_TAIL;
    TailTransparentIff(f3, vs[1..][1..][1..]);
  }

  const ADD_PLAYER_TAIL: seq<Field> := [
    Always(TPrim(PVarInt)),
    Always(TPrim(PVarInt)),
    Always(TPrim(PBool)),
    Field(TChat, Some(Ref(0, 5)))
  ]

  /** The fields after the properties. */
  lemma {:induction false} TailTransparentIff(frame: seq<Value>, vs: seq<Value>)
    requires |frame| == 3
    requires ConformsFields(ADD_PLAYER_TAIL, frame, [], vs) && WriteFields(ADD_PLAYER_TAIL, frame, [], vs).Wrote?
    ensures |vs| == 4 && (TransparentFields(ADD_PLAYER_TAIL, frame, [], vs) <==> vs[3].Nothing?)
  {
    hide ConformsFields, TransparentFields, WriteFields, WriteField, ConformsField, TransparentField;
    var fs := ADD_PLAYER_TAIL;
    var f4 := Unroll(fs, frame, [], vs);
    var f5 := Unroll(fs[1..], f4, [], vs[1..]);
    var f6 := Unroll(fs[1..][1..], f5, [], vs[1..][1..]);
    var f7 := Unroll(fs[1..][1..][1..], f6, [], vs[1..][1..][1..]);
    LeafTransparent(fs[0], frame, [], vs[0]);
    LeafTransparent(fs[1], f4, [], vs[1]);
    LeafTransparent(fs[2], f5, [], vs[2]);
    assert fs[1..][1..][1..][1..] == [];
    NoFieldsLeft(f7, [], vs[1..][1..][1..][1..]);
    BoolValue(fs[2], f5, [], vs[2]);
    assert f6[5] == vs[2];
    NameTransparentIff(fs[3], 5, f6, [], vs[3]);
  }

  lemma {:induction false} AddWritten(v: Value)
    requires Conforms(TStruct(ADD_PLAYER_FIELDS), [], v) && WriteType(TStruct(ADD_PLAYER_FIELDS), [], v).Wrote?
    ensures v.Rec? && ConformsFields(ADD_PLAYER_FIELDS, [], [], v.fields)
    ensures WriteFields(ADD_PLAYER_FIELDS, [], [], v.fields).Wrote?
    ensures Transparent(TStruct(ADD_PLAYER_FIELDS), [], v) <==> TransparentFields(ADD_PLAYER_FIELDS, [], [], v.fields)
  {
  }

  lemma {:induction false} PropertiesTransparentIff(frame: seq<Value>, v: Value)
    requires ConformsField(ADD_PLAYER_FIELDS[2], frame, [], v) && WriteField(ADD_PLAYER_FIELDS[2], frame, [], v).Wrote?
    ensures v.Arr?
    ensures TransparentField(ADD_PLAYER_FIELDS[2], frame, [], v)
       <==> forall k | 0 <= k < |v.elems| :: IsSigned(v.elems[k])
  {
    hide IsSigned;
    var elem, env := TStruct(PROPERTY_FIELDS), [frame] + [];
    forall k | 0 <= k < |v.elems| ensures Transparent(elem, env, v.elems[k]) <==> IsSigned(v.elems[k]) {
      ElemWritten(elem, env, v.elems, k);
      PropertyTransparentIff(env, v.elems[k]);
    }
  }

  lemma {:induction false} ElemWritten(elem: Type, env: Env, vs: seq<Value>, k: nat)
    requires k < |vs| && WriteElems(elem, env, vs).Wrote?
    ensures WriteType(elem, env, vs[k]).Wrote?
  {
    if k > 0 {
      ElemWritten(elem, env, vs[1..], k - 1);
      assert vs[1..][k - 1] == vs[k];
    }
  }

  /** A chat field is written only by values that do not conform; skipped, it must be
    * absent. */
  lemma {:induction false} NameTransparentIff(f: Field, idx: nat, frame: seq<Value>, outer: Env, v: Value)
    requires f == Field(TChat, Some(Ref(0, idx))) && idx < |frame| && frame[idx].Num?
    requires ConformsField(f, frame, outer, v)
    ensures TransparentField(f, frame, outer, v) <==> v.Nothing?
  {
    assert Lookup([frame] + outer, Ref(0, idx)) == Some(frame[idx].n);
  }

  predicate DisplayReadable(v: Value) {
    v.Rec? && |v.fields| == 2 && v.fields[1].Nothing?
  }

  lemma {:induction false} DisplayTransparentIff(v: Value)
    requires Conforms(TStruct(DISPLAY_NAME_FIELDS), [], v) && WriteType(TStruct(DISPLAY_NAME_FIELDS), [], v).Wrote?
    ensures Transparent(TStruct(DISPLAY_NAME_FIELDS), [], v) <==> DisplayReadable(v)
  {
    hide TransparentField, WriteField;
    var fs, vs := DISPLAY_NAME_FIELDS, v.fields;
    var f1 := Unroll(fs, [], [], vs);
    var f2 := Unroll(fs[1..], f1, [], vs[1..]);
    LeafTransparent(fs[0], [], [], vs[0]);
    assert fs[1..][1..] == [];
    BoolValue(fs[0], [], [], vs[0]);
    NameTransparentIff(fs[1], 0, f1, [], vs[1]);
  }

  /** What the action of the packet asks of the value of a player. */
  predicate ActionReadable(action: Value, v: Value) {
    && (action == Num(0) ==> AddReadable(v))
    && (action == Num(3) ==> DisplayReadable(v))
  }

  lemma {:induction false} ActionCases(n: int)
    ensures CaseFrom(ACTIONS, n, 0) == if 0 <= n < 5 then Some(n) else None
  {
    assert ConstValue(ACTIONS, 0) == 0;
    assert ConstValue(ACTIONS, 1) == 1;
    assert ConstValue(ACTIONS, 2) == 2;
    assert ConstValue(ACTIONS, 3) == 3;
    assert ConstValue(ACTIONS, 4) == 4;
    assert CaseFrom(ACTIONS, n, 5) == None;
    assert CaseFrom(ACTIONS, n, 4) == if n == 4 then Some(4) else None;
    assert CaseFrom(ACTIONS, n, 3) == if 3 <= n < 5 then Some(n) else None;
    assert CaseFrom(ACTIONS, n, 2) == if 2 <= n < 5 then Some(n) else None;
    assert CaseFrom(ACTIONS, n, 1) == if 1 <= n < 5 then Some(n) else None;
  }

  lemma {:induction false} UnionTransparentIff(env: Env, action: int, v: Value)
    requires Lookup(env, Ref(1, 0)) == Some(action)
    requires Conforms(UNION, env, v) && WriteType(UNION, env, v).Wrote?
    ensures Transparent(UNION, env, v) <==> ActionReadable(Num(action), v)
  {
    hide AddReadable, DisplayReadable, CaseFrom, TransparentFields, ConformsFields, WriteFields;
    ActionCases(action);
    assert Branch(UNION, env) == if 0 <= action < 5 then Some(action) else None;
    if action == 0 {
      AddTransparentIff(v);
    } else if action == 3 {
      DisplayTransparentIff(v);
    }
  }

  predicate PlayerReadable(action: Value, v: Value) {
    v.Rec? && |v.fields| == 2 && ActionReadable(action, v.fields[1])
  }

  lemma {:induction false} PlayerTransparentIff(top: seq<Value>, action: int, v: Value)
    requires |top| > 0 && top[0] == Num(action)
    requires Conforms(TStruct(PLAYER_FIELDS), [top], v) && WriteType(TStruct(PLAYER_FIELDS), [top], v).Wrote?
    ensures Transparent(TStruct(PLAYER_FIELDS), [top], v) <==> PlayerReadable(Num(action), v)
  {
    hide ActionReadable, Branch;
    var fs, vs := PLAYER_FIELDS, v.fields;
    var f1 := Unroll(fs, [], [top], vs);
    var f2 := Unroll(fs[1..], f1, [top], vs[1..]);
    LeafTransparent(fs[0], [], [top], vs[0]);
    assert fs[1..][1..] == [];
    var env := [f1] + [top];
    assert Lookup(env, Ref(1, 0)) == Some(action);
    UnionTransparentIff(env, action, vs[1]);
  }

  /** All players of the packet are readable under its action. */
  predicate Readable(vs: seq<Value>) {
    |vs| == 3 && vs[2].Arr? && forall k | 0 <= k < |vs[2].elems| :: PlayerReadable(vs[0], vs[2].elems[k])
  }

  lemma {:induction false} InfoTransparentIff(vs: seq<Value>)
    requires ConformsFields(PLAYER_INFO, [], [], vs) && WriteFields(PLAYER_INFO, [], [], vs).Wrote?
    ensures TransparentFields(PLAYER_INFO, [], [], vs) <==> Readable(vs)
  {
    hide PlayerReadable, TransparentFields, ConformsFields, WriteFields, WriteField, TransparentField, ConformsField;
    var fs := PLAYER_INFO;
    var f1 := Unroll(fs, [], [], vs);
    var f2 := Unroll(fs[1..], f1, [], vs[1..]);
    var f3 := Unroll(fs[1..][1..], f2, [], vs[1..][1..]);
    LeafTransparent(fs[0], [], [], vs[0]);
    LeafTransparent(fs[1], f1, [], vs[1]);
    assert fs[1..][1..][1..] == [];
    NoFieldsLeft(f3, [], vs[1..][1..][1..]);
    ActionValue(vs[0]);
    assert f2[0] == vs[0];
    PlayersTransparentIff(f2, vs[0].n, vs[2]);
  }

  lemma {:induction false} ActionValue(v: Value)
    requires ConformsField(PLAYER_INFO[0], [], [], v)
    ensures v.Num?
  {
  }

  lemma {:induction false} PlayersTransparentIff(frame: seq<Value>, action: int, v: Value)
    requires |frame| > 0 && frame[0] == Num(action)
    requires ConformsField(PLAYER_INFO[2], frame, [], v) && WriteField(PLAYER_INFO[2], frame, [], v).Wrote?
    ensures v.Arr?
    ensures TransparentField(PLAYER_INFO[2], frame, [], v)
       <==> forall k | 0 <= k < |v.elems| :: PlayerReadable(Num(action), v.elems[k])
  {
    hide PlayerReadable;
    var elem := TStruct(PLAYER_FIELDS);
    assert [frame] + [] == [frame];
    forall k | 0 <= k < |v.elems|
      ensures Transparent(elem, [frame], v.elems[k]) <==> PlayerReadable(Num(action), v.elems[k])
    {
      ElemWritten(elem, [frame], v.elems, k);
      PlayerTransparentIff(frame, action, v.elems[k]);
    }
  }

  // ---- the packet -----------------------------------------------------------------------------

  lemma {:induction false} StructShape(fs: seq<Field>)
    requires forall k | 0 <= k < |fs| ::
               WellFormedField(fs[k]) && !fs[k].ty.TLenOf? && SchemaSkips.TraceableField(fs[k])
    ensures WellFormedFields(fs) && WellFormed(TStruct(fs)) && SchemaSkips.Traceable(TStruct(fs))
  {
    AllWellFormed(fs, 0);
    assert fs[0..] == fs;
  }

  lemma {:induction false} ActionShape()
    ensures WellFormed(UNION) && SchemaSkips.Traceable(UNION)
  {
    hide WellFormedFields;
    StructShape(PROPERTY_FIELDS);
    StructShape(ADD_PLAYER_FIELDS);
    StructShape(DISPLAY_NAME_FIELDS);
    assert forall k | 0 <= k < |ACTION_FIELDS| :: WellFormedBranch(ACTION_FIELDS[k]);
    assert forall k | 0 <= k < |ACTION_FIELDS| :: SchemaSkips.TraceableField(ACTION_FIELDS[k]);
  }

  lemma {:induction false} InfoShape()
    ensures WellFormedFields(PLAYER_INFO)
    ensures forall k | 0 <= k < |PLAYER_INFO| :: SchemaSkips.TraceableField(PLAYER_INFO[k])
  {
    ActionShape();
    hide WellFormedFields;
    assert PLAYER_FIELDS[1].ty == UNION;
    StructShape(PLAYER_FIELDS);
    var players := TArray(TStruct(PLAYER_FIELDS), FieldLen(Ref(0, 1)));
    assert WellFormed(players) && SchemaSkips.Traceable(players);
    assert PLAYER_INFO[2].ty == players;
    StructShape(PLAYER_INFO);
  }

  /** A player_info packet that something follows is read back if and only if every
    * property of an added player is signed and no display name is left behind. */
  lemma {:induction false} PlayerInfoSurvivesIff(vs: seq<Value>, suffix: seq<byte>)
    requires ConformsFields(PLAYER_INFO, [], [], vs) && WriteFields(PLAYER_INFO, [], [], vs).Wrote?
    requires suffix != []
    ensures var w := WriteFields(PLAYER_INFO, [], [], vs);
      var all := w.bytes + suffix;
      ReadFields(all, PLAYER_INFO, [], [], all) == Some((w.left, suffix)) <==> Readable(vs)
  {
    hide Readable, TransparentFields, ConformsFields, WriteFields, ReadFields;
    InfoShape();
    InfoTransparentIff(vs);
    SchemaSkips.SurvivesIffTransparent(PLAYER_INFO, vs, suffix);
  }

  // ---- the packet the server sends ---------------------------------------------------------

  /** What varies in the packet with which the server announces a player. The pointer to
    * the signature is never set; signature is what it happens to point to. */
  datatype Player =
    Player(uuid: seq<byte>, name: seq<byte>, key: seq<byte>, textures: seq<byte>, signature: seq<byte>)
  {
    predicate Ok() {
      |uuid| == 16 && |name| <= 16 && |key| <= 32767 && |textures| <= 32767
    }

    /** One unsigned property. */
    function Property(): Value { Rec([Text(key), Text(textures), Num(0), Text(signature)]) }

    function Added(): Value {
      Rec([Text(name), Num(1), Arr([Property()]), Num(0), Num(0), Num(0), Nothing])
    }

    function Entry(): Value { Rec([Blob(uuid), Added()]) }

    function Packet(): seq<Value> { [Num(0), Num(1), Arr([Entry()])] }

    function PropertyBytes(rest: seq<byte>): seq<byte> {
      EncodeString(key) + (EncodeString(textures) + ([0] + rest))
    }

    function AddedBytes(): seq<byte> {
      EncodeString(name) + ([1] + PropertyBytes([0] + ([0] + [0])))
    }

    function Bytes(): seq<byte> { [0] + ([1] + (uuid + AddedBytes())) }
  }

  lemma {:induction false} OneElem(elem: Type, env: Env, v: Value, bs: seq<byte>)
    requires WriteType(elem, env, v) == Wrote(bs, v)
    ensures WriteElems(elem, env, [v]) == Wrote(bs, [v])
  {
    assert [v][1..] == [] && bs + [] == bs && [v] + [] == [v];
    assert WriteElems(elem, env, []) == Wrote([], []);
  }

  lemma {:induction false} OneElemReads(all: seq<byte>, elem: Type, env: Env, input: seq<byte>, v: Value,
          rest: seq<byte>)
    requires ReadType(all, elem, env, input) == Some((v, rest))
    ensures ReadElems(all, elem, env, 1, input) == Some(([v], rest))
  {
    assert ReadElems(all, elem, env, 0, rest) == Some(([], rest));
    assert [v] + [] == [v];
  }

  // ---- ... as it is written

  lemma {:induction false} PropertyWrites(p: Player, env: Env)
    requires p.Ok()
    ensures WriteType(TStruct(PROPERTY_FIELDS), env, p.Property()) == Wrote(p.PropertyBytes([]), p.Property())
    ensures Conforms(TStruct(PROPERTY_FIELDS), env, p.Property())
  {
    hide WriteField, ConformsField, WriteFields, ConformsFields;
    var fs, vs := PROPERTY_FIELDS, p.Property().fields;
    var f1, f2, f3 := [vs[0]], [vs[0], vs[1]], [vs[0], vs[1], vs[2]];
    PropertyFieldsWrite(p, env, f1, f2, f3);
    WriteStep(fs, [], env, vs, EncodeString(p.key), f1);
    WriteStep(fs[1..], f1, env, vs[1..], EncodeString(p.textures), f2);
    WriteStep(fs[1..][1..], f2, env, vs[1..][1..], [0], f3);
    WriteStep(fs[1..][1..][1..], f3, env, vs[1..][1..][1..], [], vs);
    NothingLeft(fs[1..][1..][1..][1..], vs, env, vs[1..][1..][1..][1..]);
  }

  lemma {:induction false} NothingLeft(fs: seq<Field>, frame: seq<Value>, outer: Env, vs: seq<Value>)
    requires fs == [] && vs == []
    ensures WriteFields(fs, frame, outer, vs) == Wrote([], frame) && ConformsFields(fs, frame, outer, vs)
  {
  }

  lemma {:induction false} PropertyFieldsWrite(p: Player, env: Env, f1: seq<Value>, f2: seq<Value>, f3: seq<Value>)
    requires p.Ok()
    requires var vs := p.Property().fields; f1 == vs[..1] && f2 == vs[..2] && f3 == vs[..3]
    ensures var fs, vs := PROPERTY_FIELDS, p.Property().fields;
      && WriteField(fs[0], [], env, vs[0]) == Wrote(EncodeString(p.key), f1) && ConformsField(fs[0], [], env, vs[0])
      && WriteField(fs[1], f1, env, vs[1]) == Wrote(EncodeString(p.textures), f2)
      && ConformsField(fs[1], f1, env, vs[1])
      && WriteField(fs[2], f2, env, vs[2]) == Wrote([0], f3) && ConformsField(fs[2], f2, env, vs[2])
      && WriteField(fs[3], f3, env, vs[3]) == Wrote([], vs) && ConformsField(fs[3], f3, env, vs[3])
  {
    hide EncodeString;
    var vs := p.Property().fields;
    var zero: seq<byte> := [0];
    assert [] + [vs[0]] == f1 && f1 + [vs[1]] == f2 && f2 + [vs[2]] == f3 && f3 + [vs[3]] == vs;
    assert EncodePrim(PBool, 0) == zero;
    assert Lookup([f3] + env, Ref(0, 2)) == Some(0);
  }

  lemma {:induction false} AddedWrites(p: Player)
    requires p.Ok()
    ensures WriteType(TStruct(ADD_PLAYER_FIELDS), [], p.Added()) == Wrote(p.AddedBytes(), p.Added())
    ensures Conforms(TStruct(ADD_PLAYER_FIELDS), [], p.Added())
  {
    hide WriteField, ConformsField, WriteFields, ConformsFields, EncodeString, WriteType, Conforms;
    hide Player.PropertyBytes;
    var fs, vs := ADD_PLAYER_FIELDS, p.Added().fields;
    var f1, f2, f3 := vs[..1], vs[..2], vs[..3];
    var one: seq<byte>, tail: seq<byte> := [1], [0] + ([0] + [0]);
    AddedHeadWrites(p, f1, f2, f3);
    assert fs[1..][1..][1..] == ADD_PLAYER_TAIL && vs[1..][1..][1..] == [Num(0), Num(0), Num(0), Nothing];
    AddedTailWrites(f3, vs);
    WriteStep(fs[1..][1..], f2, [], vs[1..][1..], p.PropertyBytes([]), f3);
    WriteStep(fs[1..], f1, [], vs[1..], one, f2);
    WriteStep(fs, [], [], vs, EncodeString(p.name), f1);
    PropertyThen(p, tail);
    AddedIs(p);
  }

  lemma {:induction false} AddedIs(p: Player)
    requires var fs, vs := ADD_PLAYER_FIELDS, p.Added().fields;
      && WriteFields(fs, [], [], vs) == Wrote(p.AddedBytes(), vs) && ConformsFields(fs, [], [], vs)
    ensures WriteType(TStruct(ADD_PLAYER_FIELDS), [], p.Added()) == Wrote(p.AddedBytes(), p.Added())
    ensures Conforms(TStruct(ADD_PLAYER_FIELDS), [], p.Added())
  {
    hide WriteFields, ConformsFields;
  }

  lemma {:induction false} PropertyThen(p: Player, tail: seq<byte>)
    ensures p.PropertyBytes([]) + tail == p.PropertyBytes(tail)
  {
    hide EncodeString;
    Assoc3(EncodeString(p.key), EncodeString(p.textures) + ([0] + []), tail);
    Assoc3(EncodeString(p.textures), [0] + [], tail);
    assert ([0] + []) + tail == [0] + tail;
  }

  lemma {:induction false} AddedHeadWrites(p: Player, f1: seq<Value>, f2: seq<Value>, f3: seq<Value>)
    requires p.Ok()
    requires var vs := p.Added().fields; f1 == vs[..1] && f2 == vs[..2] && f3 == vs[..3]
    ensures var fs, vs := ADD_PLAYER_FIELDS, p.Added().fields;
      && WriteField(fs[0], [], [], vs[0]) == Wrote(EncodeString(p.name), f1) && ConformsField(fs[0], [], [], vs[0])
      && WriteField(fs[1], f1, [], vs[1]) == Wrote([1], f2) && ConformsField(fs[1], f1, [], vs[1])
      && WriteField(fs[2], f2, [], vs[2]) == Wrote(p.PropertyBytes([]), f3) && ConformsField(fs[2], f2, [], vs[2])
  {
    hide EncodeString, WriteFields, ConformsFields;
    var vs := p.Added().fields;
    var one: seq<byte> := [1];
    var env := [f2] + [];
    assert [] + [vs[0]] == f1 && f1 + [vs[1]] == f2 && f2 + [vs[2]] == f3;
    assert EncodePrim(PVarInt, 1) == one;
    assert Lookup(env, Ref(0, 1)) == Some(1);
    PropertyWrites(p, env);
    OneElem(TStruct(PROPERTY_FIELDS), env, p.Property(), p.PropertyBytes([]));
  }

  lemma {:induction false} AddedTailWrites(f3: seq<Value>, vs: seq<Value>)
    requires |f3| == 3 && vs == f3 + [Num(0), Num(0), Num(0), Nothing]
    ensures var us: seq<Value> := [Num(0), Num(0), Num(0), Nothing];
      && WriteFields(ADD_PLAYER_TAIL, f3, [], us) == Wrote([0] + ([0] + [0]), vs)
      && ConformsFields(ADD_PLAYER_TAIL, f3, [], us)
  {
    hide WriteField, ConformsField, WriteFields, ConformsFields;
    var fs, us: seq<Value> := ADD_PLAYER_TAIL, [Num(0), Num(0), Num(0), Nothing];
    var f4, f5, f6 := vs[..4], vs[..5], vs[..6];
    AddedTailFieldsWrite(f3, f4, f5, f6, vs);
    WriteStep(fs, f3, [], us, [0], f4);
    WriteStep(fs[1..], f4, [], us[1..], [0], f5);
    WriteStep(fs[1..][1..], f5, [], us[1..][1..], [0], f6);
    WriteStep(fs[1..][1..][1..], f6, [], us[1..][1..][1..], [], vs);
    NothingLeft(fs[1..][1..][1..][1..], vs, [], us[1..][1..][1..][1..]);
    assert [0] + ([] + []) == [0];
  }

  lemma {:induction false} AddedTailFieldsWrite(f3: seq<Value>, f4: seq<Value>, f5: seq<Value>, f6: seq<Value>,
          vs: seq<Value>)
    requires |f3| == 3 && vs == f3 + [Num(0), Num(0), Num(0), Nothing]
    requires f4 == vs[..4] && f5 == vs[..5] && f6 == vs[..6]
    ensures var fs, zero := ADD_PLAYER_TAIL, Num(0);
      && WriteField(fs[0], f3, [], zero) == Wrote([0], f4) && ConformsField(fs[0], f3, [], zero)
      && WriteField(fs[1], f4, [], zero) == Wrote([0], f5) && ConformsField(fs[1], f4, [], zero)
      && WriteField(fs[2], f5, [], zero) == Wrote([0], f6) && ConformsField(fs[2], f5, [], zero)
      && WriteField(fs[3], f6, [], Nothing) == Wrote([], vs) && ConformsField(fs[3], f6, [], Nothing)
  {
    var zero: seq<byte> := [0];
    assert f3 + [Num(0)] == f4 && f4 + [Num(0)] == f5 && f5 + [Num(0)] == f6 && f6 + [Nothing] == vs;
    assert EncodePrim(PBool, 0) == zero && EncodePrim(PVarInt, 0) == zero;
    assert Lookup([f6] + [], Ref(0, 5)) == Some(0);
  }

  lemma {:induction false} EntryWrites(p: Player, top: seq<Value>)
    requires p.Ok() && |top| > 0 && top[0] == Num(0)
    ensures WriteType(TStruct(PLAYER_FIELDS), [top], p.Entry()) == Wrote(p.uuid + p.AddedBytes(), p.Entry())
    ensures Conforms(TStruct(PLAYER_FIELDS), [top], p.Entry())
  {
    hide WriteField, ConformsField, WriteFields, ConformsFields;
    var fs, vs := PLAYER_FIELDS, p.Entry().fields;
    var f1 := vs[..1];
    EntryFieldsWrite(p, top, f1);
    WriteStep(fs, [], [top], vs, p.uuid, f1);
    WriteStep(fs[1..], f1, [top], vs[1..], p.AddedBytes(), vs);
    NothingLeft(fs[1..][1..], vs, [top], vs[1..][1..]);
    assert p.AddedBytes() + [] == p.AddedBytes();
  }

  lemma {:induction false} EntryFieldsWrite(p: Player, top: seq<Value>, f1: seq<Value>)
    requires p.Ok() && |top| > 0 && top[0] == Num(0) && f1 == p.Entry().fields[..1]
    ensures var fs, vs := PLAYER_FIELDS, p.Entry().fields;
      && WriteField(fs[0], [], [top], vs[0]) == Wrote(p.uuid, f1) && ConformsField(fs[0], [], [top], vs[0])
      && WriteField(fs[1], f1, [top], vs[1]) == Wrote(p.AddedBytes(), vs) && ConformsField(fs[1], f1, [top], vs[1])
  {
    hide WriteFields, ConformsFields, CaseFrom;
    var vs := p.Entry().fields;
    var env := [f1] + [top];
    assert [] + [vs[0]] == f1 && f1 + [vs[1]] == vs;
    assert Lookup(env, Ref(1, 0)) == Some(0);
    ActionCases(0);
    assert Branch(UNION, env) == Some(0);
    AddedWrites(p);
    assert WriteType(UNION, env, vs[1]) == WriteBranch(ACTION_FIELDS[0], vs[1]);
    assert Conforms(UNION, env, vs[1]) == ConformsBranch(ACTION_FIELDS[0], vs[1]);
  }

  lemma {:induction false} ServerPacketWrites(p: Player)
    requires p.Ok()
    ensures WriteFields(PLAYER_INFO, [], [], p.Packet()) == Wrote(p.Bytes(), p.Packet())
    ensures ConformsFields(PLAYER_INFO, [], [], p.Packet())
  {
    hide WriteField, ConformsField, WriteFields, ConformsFields;
    var fs, vs := PLAYER_INFO, p.Packet();
    var f1, f2 := vs[..1], vs[..2];
    ServerFieldsWrite(p, f1, f2);
    var bs := p.uuid + p.AddedBytes();
    WriteStep(fs, [], [], vs, [0], f1);
    WriteStep(fs[1..], f1, [], vs[1..], [1], f2);
    WriteStep(fs[1..][1..], f2, [], vs[1..][1..], bs, vs);
    NothingLeft(fs[1..][1..][1..], vs, [], vs[1..][1..][1..]);
    assert bs + [] == bs;
  }

  lemma {:induction false} ServerFieldsWrite(p: Player, f1: seq<Value>, f2: seq<Value>)
    requires p.Ok() && f1 == p.Packet()[..1] && f2 == p.Packet()[..2]
    ensures var fs, vs := PLAYER_INFO, p.Packet();
      && WriteField(fs[0], [], [], vs[0]) == Wrote([0], f1) && ConformsField(fs[0], [], [], vs[0])
      && WriteField(fs[1], f1, [], vs[1]) == Wrote([1], f2) && ConformsField(fs[1], f1, [], vs[1])
      && WriteField(fs[2], f2, [], vs[2]) == Wrote(p.uuid + p.AddedBytes(), vs) && ConformsField(fs[2], f2, [], vs[2])
  {
    hide WriteFields, ConformsFields;
    var vs := p.Packet();
    var zero: seq<byte>, one: seq<byte> := [0], [1];
    assert [] + [vs[0]] == f1 && f1 + [vs[1]] == f2 && f2 + [vs[2]] == vs;
    assert EncodePrim(PVarInt, 0) == zero && EncodePrim(PVarInt, 1) == one;
    assert [f2] + [] == [f2] && Lookup([f2], Ref(0, 1)) == Some(1);
    EntryWrites(p, f2);
    OneElem(TStruct(PLAYER_FIELDS), [f2], p.Entry(), p.uuid + p.AddedBytes());
  }

  // ---- ... and as it is read at the end of a packet

  lemma {:induction false} ByteReads(b: byte, rest: seq<byte>)
    requires b < 128
    ensures ReadPrim(PVarInt, [b] + rest) == Some((b, rest))
    ensures b < 2 ==> ReadPrim(PBool, [b] + rest) == Some((b, rest))
    ensures b == 0 ==> Schema.ReadString(32767, [b] + rest) == Some(([], rest))
  {
    assert ([b] + rest)[1..] == rest && ([b] + rest)[..1] == [b];
    assert FromBigEndian([b]) == b;
    assert rest[..0] == [] && rest[0..] == rest;
  }

  /** The byte after an unsigned property is taken for the length of its signature. */
  lemma {:induction false} PropertyReads(all: seq<byte>, p: Player, env: Env, rest: seq<byte>)
    requires p.Ok() && p.signature == []
    ensures ReadType(all, TStruct(PROPERTY_FIELDS), env, p.PropertyBytes([0] + rest)) == Some((p.Property(), rest))
  {
    hide ReadPrim, Schema.ReadString, EncodeString;
    var fs, vs := PROPERTY_FIELDS, p.Property().fields;
    var f1, f2, f3 := vs[..1], vs[..2], vs[..3];
    var r2 := [0] + rest;
    var r1 := [0] + r2;
    SchemaRoundTrip.StringReadsBack(32767, p.key, EncodeString(p.textures) + r1);
    SchemaRoundTrip.StringReadsBack(32767, p.textures, r1);
    ByteReads(0, r2);
    ByteReads(0, rest);
    assert [] + [vs[0]] == f1 && f1 + [vs[1]] == f2 && f2 + [vs[2]] == f3 && f3 + [vs[3]] == vs;
    ReadStep(all, fs, [], env, p.PropertyBytes(r2), vs[0], EncodeString(p.textures) + r1);
    ReadStep(all, fs[1..], f1, env, EncodeString(p.textures) + r1, vs[1], r1);
    ReadStep(all, fs[1..][1..], f2, env, r1, vs[2], r2);
    ReadStep(all, fs[1..][1..][1..], f3, env, r2, vs[3], rest);
    NoneToRead(all, fs[1..][1..][1..][1..], vs, env, rest);
  }

  lemma {:induction false} NoneToRead(all: seq<byte>, fs: seq<Field>, frame: seq<Value>, outer: Env, input: seq<byte>)
    requires fs == []
    ensures ReadFields(all, fs, frame, outer, input) == Some((frame, input))
  {
  }

  lemma {:induction false} AddedFieldsRead(all: seq<byte>, p: Player, f1: seq<Value>, f2: seq<Value>)
    requires p.Ok() && p.signature == [] && f1 == p.Added().fields[..1] && f2 == p.Added().fields[..2]
    ensures var fs, vs := ADD_PLAYER_FIELDS, p.Added().fields;
      var r2 := p.PropertyBytes([0] + ([0] + [0]));
      && ReadField(all, fs[0], [], [], p.AddedBytes()) == Some((vs[0], [1] + r2))
      && ReadField(all, fs[1], f1, [], [1] + r2) == Some((vs[1], r2))
      && ReadField(all, fs[2], f2, [], r2) == Some((vs[2], [0] + [0]))
  {
    hide ReadPrim, Schema.ReadString, EncodeString, ReadFields, Player.PropertyBytes;
    var tail: seq<byte> := [0] + [0];
    var r2 := p.PropertyBytes([0] + tail);
    SchemaRoundTrip.StringReadsBack(16, p.name, [1] + r2);
    ByteReads(1, r2);
    var env := [f2] + [];
    assert Lookup(env, Ref(0, 1)) == Some(1);
    PropertyReads(all, p, env, tail);
    OneElemReads(all, TStruct(PROPERTY_FIELDS), env, r2, p.Property(), tail);
  }

  lemma {:induction false} AddedReads(all: seq<byte>, p: Player)
    requires p.Ok() && p.signature == []
    ensures ReadType(all, TStruct(ADD_PLAYER_FIELDS), [], p.AddedBytes()) == Some((p.Added(), []))
  {
    hide ReadField, ReadFields, EncodeString, Player.PropertyBytes, Player.AddedBytes;
    var fs, vs := ADD_PLAYER_FIELDS, p.Added().fields;
    var f1, f2, f3 := vs[..1], vs[..2], vs[..3];
    var r2 := p.PropertyBytes([0] + ([0] + [0]));
    AddedFieldsRead(all, p, f1, f2);
    assert [] + [vs[0]] == f1 && f1 + [vs[1]] == f2 && f2 + [vs[2]] == f3;
    ReadStep(all, fs, [], [], p.AddedBytes(), vs[0], [1] + r2);
    ReadStep(all, fs[1..], f1, [], [1] + r2, vs[1], r2);
    ReadStep(all, fs[1..][1..], f2, [], r2, vs[2], [0] + [0]);
    assert fs[1..][1..][1..] == ADD_PLAYER_TAIL;
    AddedTailReads(all, f3, vs);
  }

  /** The last flag is read where nothing is left. */
  lemma {:induction false} AddedTailReads(all: seq<byte>, f3: seq<Value>, vs: seq<Value>)
    requires |f3| == 3 && vs == f3 + [Num(0), Num(0), Num(0), Nothing]
    ensures ReadFields(all, ADD_PLAYER_TAIL, f3, [], [0] + [0]) == Some((vs, []))
  {
    hide ReadFields, ReadVarInt, FromBigEndian;
    var fs := ADD_PLAYER_TAIL;
    var f4, f5, f6 := vs[..4], vs[..5], vs[..6];
    var zero: seq<byte> := [0];
    ByteReads(0, zero);
    ByteReads(0, []);
    assert zero + [] == zero;
    assert f3 + [Num(0)] == f4 && f4 + [Num(0)] == f5 && f5 + [Num(0)] == f6 && f6 + [Nothing] == vs;
    assert ReadPrim(PBool, []) == Some((0, []));
    ReadStep(all, fs, f3, [], zero + zero, Num(0), zero);
    ReadStep(all, fs[1..], f4, [], zero, Num(0), []);
    ReadStep(all, fs[1..][1..], f5, [], [], Num(0), []);
    ReadStep(all, fs[1..][1..][1..], f6, [], [], Nothing, []);
    NoneToRead(all, fs[1..][1..][1..][1..], vs, [], []);
  }

  lemma {:induction false} EntryReads(all: seq<byte>, p: Player, top: seq<Value>)
    requires p.Ok() && p.signature == [] && |top| > 0 && top[0] == Num(0)
    ensures ReadType(all, TStruct(PLAYER_FIELDS), [top], p.uuid + p.AddedBytes()) == Some((p.Entry(), []))
  {
    hide ReadFields, CaseFrom;
    var fs, vs := PLAYER_FIELDS, p.Entry().fields;
    var f1 := vs[..1];
    var env := [f1] + [top];
    assert [] + [vs[0]] == f1 && f1 + [vs[1]] == vs;
    SchemaRoundTrip.BlobReadsBack(p.uuid, p.AddedBytes());
    AddedReads(all, p);
    assert Lookup(env, Ref(1, 0)) == Some(0);
    ActionCases(0);
    assert Branch(UNION, env) == Some(0);
    assert ReadType(all, UNION, env, p.AddedBytes()) == ReadBranch(all, ACTION_FIELDS[0], p.AddedBytes());
    ReadStep(all, fs, [], [top], p.uuid + p.AddedBytes(), vs[0], p.AddedBytes());
    ReadStep(all, fs[1..], f1, [top], p.AddedBytes(), vs[1], []);
    NoneToRead(all, fs[1..][1..], vs, [top], []);
  }

  lemma {:induction false} ServerPacketReads(all: seq<byte>, p: Player)
    requires p.Ok() && p.signature == []
    ensures ReadFields(all, PLAYER_INFO, [], [], p.Bytes()) == Some((p.Packet(), []))
  {
    hide ReadFields, ReadPrim;
    var fs, vs := PLAYER_INFO, p.Packet();
    var f1, f2 := vs[..1], vs[..2];
    var entry := p.uuid + p.AddedBytes();
    assert [] + [vs[0]] == f1 && f1 + [vs[1]] == f2 && f2 + [vs[2]] == vs;
    ByteReads(0, [1] + entry);
    ByteReads(1, entry);
    assert [f2] + [] == [f2] && Lookup([f2], Ref(0, 1)) == Some(1);
    EntryReads(all, p, f2);
    OneElemReads(all, TStruct(PLAYER_FIELDS), [f2], entry, p.Entry(), []);
    ReadStep(all, fs, [], [], p.Bytes(), vs[0], [1] + entry);
    ReadStep(all, fs[1..], f1, [], [1] + entry, vs[1], entry);
    ReadStep(all, fs[1..][1..], f2, [], entry, vs[2], []);
    NoneToRead(all, fs[1..][1..][1..], vs, [], []);
  }

  /** The signature is no part of the bytes, but of what is left in the packet. */
  lemma {:induction false} SignatureShows(p: Player, q: Player)
    requires q == p.(signature := [])
    ensures p.Bytes() == q.Bytes() && (p.Packet() == q.Packet() <==> p.signature == [])
  {
    hide EncodeString;
    assert p.Packet()[2].elems[0].fields[1].fields[2].elems[0] == p.Property();
    assert q.Packet()[2].elems[0].fields[1].fields[2].elems[0] == q.Property();
    assert p.Property().fields[3] == Text(p.signature) && q.Property().fields[3] == Text([]);
  }

  /** The packet with which the server announces a player, its one property unsigned,
    * is read back if and only if nothing follows it and the signature that was never set
    * happens to be empty. */
  lemma {:induction false} ServerPacketSurvivesIff(p: Player, suffix: seq<byte>)
    requires p.Ok()
    ensures ConformsFields(PLAYER_INFO, [], [], p.Packet())
    ensures var w := WriteFields(PLAYER_INFO, [], [], p.Packet());
      var all := p.Bytes() + suffix;
      && w == Wrote(p.Bytes(), p.Packet())
      && (ReadFields(all, PLAYER_INFO, [], [], all) == Some((w.left, suffix)) <==> suffix == [] && p.signature == [])
  {
    hide ConformsFields, WriteFields, ReadFields;
    ServerPacketWrites(p);
    if suffix == [] {
      assert p.Bytes() + suffix == p.Bytes();
      var q := p.(signature := []);
      ServerPacketReads(p.Bytes(), q);
      SignatureShows(p, q);
    } else {
      PlayerInfoSurvivesIff(p.Packet(), suffix);
      assert p.Packet()[2].elems[0] == p.Entry() && p.Added().fields[2].elems[0] == p.Property();
      assert !IsSigned(p.Property());
    }
  }
}
