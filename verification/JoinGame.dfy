/** The join_game packet, the first of the play state: an enum of strings among its fields,
  * which is why it can be refused. */
module JoinGame {
  import opened Bytes
  import opened FieldBytes
  import opened PacketBytes
  import opened Protocol
  import opened Schema
  import opened SchemaConds
  import SchemaRefusals
  import SchemaRoundTrip

  const DIMENSIONS: seq<EnumConst> :=
    [EnumConst("NETHER", Some(-1)), EnumConst("OVERWORLD", None), EnumConst("END", None)]

  const DEFAULT: seq<byte> := [100, 101, 102, 97, 117, 108, 116]

  /** default, flat, largeBiomes, amplified, customized, buffet, default_1_1 */
  const LEVEL_TYPES: seq<seq<byte>> := [
    DEFAULT,
    [102, 108, 97, 116],
    [108, 97, 114, 103, 101, 66, 105, 111, 109, 101, 115],
    [97, 109, 112, 108, 105, 102, 105, 101, 100],
    [99, 117, 115, 116, 111, 109, 105, 122, 101, 100],
    [98, 117, 102, 102, 101, 116],
    [100, 101, 102, 97, 117, 108, 116, 95, 49, 95, 49]
  ]

  const JOIN_GAME: seq<Field> := [
    Always(TPrim(PInt)),
    Always(TPrim(PUByte)),
    Always(TEnum(PInt, DIMENSIONS)),
    Always(TPrim(PLong)),
    Always(TPrim(PUByte)),
    Always(TStrEnum(16, LEVEL_TYPES)),
    Always(TPrim(PVarInt)),
    Always(TPrim(PBool)),
    Always(TPrim(PBool))
  ]

  datatype Join = Join(entityId: int, gamemode: int, dimension: int, hashedSeed: int, maxPlayers: int,
                       levelType: seq<byte>, viewDistance: int, reducedDebugInfo: int, enableRespawnScreen: int)

  function Fields(j: Join): seq<Value> {
    [Num(j.entityId), Num(j.gamemode), Num(j.dimension), Num(j.hashedSeed), Num(j.maxPlayers), Text(j.levelType),
     Num(j.viewDistance), Num(j.reducedDebugInfo), Num(j.enableRespawnScreen)]
  }

  predicate Fits(j: Join) {
    && PInt.Holds(j.entityId) && PUByte.Holds(j.gamemode) && PInt.Holds(j.dimension) && PLong.Holds(j.hashedSeed)
    && PUByte.Holds(j.maxPlayers) && PVarInt.Holds(j.viewDistance) && PBool.Holds(j.reducedDebugInfo)
    && PBool.Holds(j.enableRespawnScreen)
  }

  /** The enumerators of dimension. */
  lemma {:induction false} Dimensions()
    ensures ConstValue(DIMENSIONS, 0) == -1 && ConstValue(DIMENSIONS, 1) == 0 && ConstValue(DIMENSIONS, 2) == 1
  {
  }

  function Parts(j: Join): seq<seq<byte>> {
    [EncodePrim(PInt, j.entityId), EncodePrim(PUByte, j.gamemode), EncodePrim(PInt, j.dimension),
     EncodePrim(PLong, j.hashedSeed), EncodePrim(PUByte, j.maxPlayers), VarInt(|j.levelType|) + j.levelType,
     EncodePrim(PVarInt, j.viewDistance), EncodePrim(PBool, j.reducedDebugInfo),
     EncodePrim(PBool, j.enableRespawnScreen)]
  }

  lemma {:induction false} LevelTypesShort(s: seq<byte>)
    requires s in LEVEL_TYPES
    ensures |s| <= 16
  {
  }

  /** Any packet with a declared level type is written, its fields in their order. */
  lemma {:induction false} Writes(j: Join)
    requires j.levelType in LEVEL_TYPES
    ensures Steps(JOIN_GAME, [], Fields(j), Parts(j), Frames(Fields(j)))
    ensures WriteFields(JOIN_GAME, [], [], Fields(j)) == Wrote(Joined(Parts(j)), Fields(j))
  {
    LevelTypesShort(j.levelType);
    hide WriteFields, EncodePrim, VarInt, Joined;
    SimpleFields(JOIN_GAME, [], Fields(j), Fields(j), Parts(j));
  }

  /** Any other is refused for it. */
  lemma {:induction false} Refuses(j: Join)
    requires j.levelType !in LEVEL_TYPES
    ensures WriteFields(JOIN_GAME, [], [], Fields(j)) == Refused(BadEnumConstant)
  {
    hide WriteFields, EncodePrim, VarInt, Joined;
    var fs, vs := JOIN_GAME, Fields(j);
    SimpleFields(fs[..5], [], vs[..5], vs[..5], Parts(j)[..5]) by {
      forall i | 0 <= i < 5 ensures WriteType(fs[i].ty, [vs[..5][..i]] + [], vs[i]) == Wrote(Parts(j)[i], vs[i]) {
      }
    }
    RefusedNext(fs, 5, vs, Joined(Parts(j)[..5]), vs[..5], BadEnumConstant);
  }

  lemma {:induction false} RefusedNext(fs: seq<Field>, k: nat, vs: seq<Value>, bs: seq<byte>, frame: seq<Value>,
          e: InputErr)
    requires k < |fs| && k < |vs| && WriteFields(fs[..k], [], [], vs[..k]) == Wrote(bs, frame)
    requires WriteField(fs[k], frame, [], vs[k]) == Refused(e)
    ensures WriteFields(fs, [], [], vs) == Refused(e)
  {
    hide WriteField;
    assert fs == fs[..k] + fs[k..] && vs == vs[..k] + vs[k..];
    WriteAppended(fs[..k], fs[k..], [], [], vs[..k], vs[k..]);
  }

  /** The fields of a struct are written one after the other. */
  lemma {:induction false} WriteAppended(fs: seq<Field>, gs: seq<Field>, frame: seq<Value>, outer: Env, vs: seq<Value>,
          us: seq<Value>)
    requires |fs| == |vs| && WriteFields(fs, frame, outer, vs).Wrote?
    ensures var w := WriteFields(fs, frame, outer, vs);
      WriteFields(fs + gs, frame, outer, vs + us) ==
      match WriteFields(gs, w.left, outer, us)
      case Refused(e) => Refused(e)
      case Wrote(bs, all) => Wrote(w.bytes + bs, all)
    decreases |fs|
  {
    hide WriteField;
    if fs == [] {
      assert fs + gs == gs && vs + us == us;
      match WriteFields(gs, frame, outer, us)
      case Refused(_) =>
      case Wrote(bs, _) => assert [] + bs == bs;
    } else {
      assert (fs + gs)[1..] == fs[1..] + gs && (vs + us)[1..] == vs[1..] + us;
      var first := WriteField(fs[0], frame, outer, vs[0]);
      WriteAppended(fs[1..], gs, first.left, outer, vs[1..], us);
      var rest := WriteFields(fs[1..], first.left, outer, vs[1..]);
      match WriteFields(gs, rest.left, outer, us)
      case Refused(_) =>
      case Wrote(bs, _) => Assoc3(first.bytes, rest.bytes, bs);
    }
  }

  lemma {:induction false} JoinConforms(j: Join)
    requires Fits(j) && j.levelType in LEVEL_TYPES
    ensures ConformsFields(JOIN_GAME, [], [], Fields(j)) && TransparentFields(JOIN_GAME, [], [], Fields(j))
    ensures WellFormedFields(JOIN_GAME)
  {
    LevelTypesShort(j.levelType);
    hide WriteFields, WriteField, ConformsFields, TransparentFields, WellFormedFields, CondsHoldFields, EncodePrim;
    hide ConformsField, VarInt, Joined;
    var fs, vs := JOIN_GAME, Fields(j);
    Writes(j);
    forall i | 0 <= i < |fs| ensures ConformsField(fs[i], Frames(vs)[i], [], vs[i]) {
      FieldConforms(j, Frames(vs)[i], i);
    }
    StepsConform(fs, [], vs, Parts(j), Frames(vs), 0);
    assert fs[0..] == fs && vs[0..] == vs && vs[..0] == [];
    JoinSchema();
    NoCondsFieldsHold(fs, [], [], vs);
    FieldsTransparent(fs, [], [], vs);
  }

  lemma {:induction false} FieldConforms(j: Join, frame: seq<Value>, i: nat)
    requires Fits(j) && i < 9
    ensures ConformsField(JOIN_GAME[i], frame, [], Fields(j)[i])
  {
    hide Prim.Holds, LengthsOkField, Lookup;
  }

  lemma {:induction false} JoinSchema()
    ensures WellFormedFields(JOIN_GAME) && NoCondsFields(JOIN_GAME)
  {
    hide WellFormedFields;
    AllWellFormed(JOIN_GAME, 0);
    assert JOIN_GAME[0..] == JOIN_GAME;
    forall k | 0 <= k < 9 ensures NoCondsField(JOIN_GAME[k]) {
    }
  }

  /** And then it is read back as it was. */
  lemma {:induction false} ReadsBack(j: Join, suffix: seq<byte>)
    requires Fits(j) && j.levelType in LEVEL_TYPES
    ensures var bs := Joined(Parts(j));
      ReadFields(bs + suffix, JOIN_GAME, [], [], bs + suffix) == Some((Fields(j), suffix))
  {
    hide WriteFields, ReadFields, ConformsFields, TransparentFields, WellFormedFields, Joined, Parts;
    JoinConforms(j);
    Writes(j);
    SchemaRoundTrip.FieldsRoundTrip(Joined(Parts(j)) + suffix, JOIN_GAME, [], [], Fields(j), suffix);
  }

  // ---- the packet the server sends -----------------------------------------------------------------

  const SERVER_JOIN := Join(123, 1, 0, 0, 4, DEFAULT, 10, 0, 1)

  const SERVER_JOIN_BYTES: seq<byte> :=
    [0, 0, 0, 123] + ([1] + ([0, 0, 0, 0] + ([0, 0, 0, 0, 0, 0, 0, 0] + ([4]
    + ([7, 100, 101, 102, 97, 117, 108, 116] + ([10] + ([0] + [1])))))))

  lemma {:induction false} ServerParts()
    ensures Parts(SERVER_JOIN) ==
      [[0, 0, 0, 123], [1], [0, 0, 0, 0], [0, 0, 0, 0, 0, 0, 0, 0], [4], [7] + DEFAULT, [10], [0], [1]]
  {
    ServerIds();
    ServerSeed();
    ServerSmall();
    SmallVarInt(7);
    hide EncodePrim, VarInt;
  }

  lemma {:induction false} ServerIds()
    ensures EncodePrim(PInt, 123) == [0, 0, 0, 123] && EncodePrim(PInt, 0) == [0, 0, 0, 0]
  {
    hide *;
    FourBytes(0, 0, 0, 123);
    FourBytes(0, 0, 0, 0);
    PrimBytes(123);
    PrimBytes(0);
  }

  lemma {:induction false} ServerSeed()
    ensures EncodePrim(PLong, 0) == [0, 0, 0, 0, 0, 0, 0, 0]
  {
    hide *;
    FourBytes(0, 0, 0, 0);
    EightBytes(0, 0, 0, 0, 0);
    PrimBytes(0);
  }

  lemma {:induction false} ServerSmall()
    ensures EncodePrim(PUByte, 1) == [1] && EncodePrim(PUByte, 4) == [4] && EncodePrim(PVarInt, 10) == [10]
    ensures EncodePrim(PBool, 0) == [0] && EncodePrim(PBool, 1) == [1]
  {
    hide *;
    SmallVarInt(10);
    PrimBytes(0);
    PrimBytes(1);
    PrimBytes(4);
    PrimBytes(10);
  }

  lemma {:induction false} ServerBytes()
    ensures Joined(Parts(SERVER_JOIN)) == SERVER_JOIN_BYTES
  {
    hide Joined, Parts, EncodePrim;
    ServerParts();
    NineJoined(Parts(SERVER_JOIN));
    assert [7] + DEFAULT == [7, 100, 101, 102, 97, 117, 108, 116];
  }

  /** Byte by byte, and back. */
  lemma {:induction false} ServerJoin(suffix: seq<byte>)
    ensures WriteFields(JOIN_GAME, [], [], Fields(SERVER_JOIN)) == Wrote(SERVER_JOIN_BYTES, Fields(SERVER_JOIN))
    ensures ReadFields(SERVER_JOIN_BYTES + suffix, JOIN_GAME, [], [], SERVER_JOIN_BYTES + suffix)
         == Some((Fields(SERVER_JOIN), suffix))
  {
    hide WriteFields, ReadFields, Joined, Parts, Fields, Fits;
    ServerFits();
    Writes(SERVER_JOIN);
    ReadsBack(SERVER_JOIN, suffix);
    ServerBytes();
  }

  lemma {:induction false} ServerFits()
    ensures Fits(SERVER_JOIN)
  {
    PrimRanges(123);
    PrimRanges(0);
    PrimRanges(1);
    PrimRanges(4);
    PrimRanges(10);
    hide Prim.Holds;
  }

  lemma {:induction false} NineJoined(p: seq<seq<byte>>)
    requires |p| == 9
    ensures Joined(p) == p[0] + (p[1] + (p[2] + (p[3] + (p[4] + (p[5] + (p[6] + (p[7] + p[8])))))))
  {
    EightJoined(p[1..]);
  }
}
