/** Resolved packet schemas, and the meaning of the writer and the reader that
  * packet-auto-gen emits for them. References between fields are resolved to
  * (how many structs up, position in that struct). */
module Schema {
  import opened Bytes
  import Nbt

  datatype Prim = PBool | PByte | PUByte | PShort | PUShort | PInt | PLong | PPosition | PFloat | PDouble | PVarInt {

    /** Bytes on the wire; a VarInt takes as many as it needs. */
    function Width(): nat {
      match this
      case PBool | PByte | PUByte => 1
      case PShort | PUShort => 2
      case PInt | PFloat | PVarInt => 4
      case PLong | PPosition | PDouble => 8
    }

    predicate Unsigned() {
      PBool? || PUByte? || PUShort? || PFloat? || PDouble?
    }

    /** The values of the C type; floats are carried as bit patterns. */
    predicate Holds(v: int) {
      if PBool? then 0 <= v <= 1
      else if Unsigned() then 0 <= v < Pow256(Width())
      else -Half() <= v < Half()
    }

    function Half(): (h: int)
      ensures h > 0
    {
      if Width() == 1 then 0x80 else if Width() == 2 then 0x8000
      else if Width() == 4 then 0x8000_0000 else 0x8000_0000_0000_0000
    }
  }

  datatype Ref = Ref(up: nat, idx: nat)

  datatype Count = Fixed(n: nat) | FieldLen(r: Ref) | BitCount(mask: Ref)

  datatype EnumConst = EnumConst(name: string, value: Option<int>)

  /** A maximum length of a string, an int of C. */
  type Max = m: nat | m < 0x8000_0000

  datatype Type =
    | TPrim(p: Prim)
    | TString(max: Max)
    | TUuid
    | TSlot
    | TNbt
    | TEmpty
    | TChat
    | TEnum(p: Prim, consts: seq<EnumConst>)
    | TStrEnum(max: Max, values: seq<seq<byte>>)
    | TBytes(count: Count)
    | TArray(elem: Type, count: Count)
    /** The rewritten length field of the typed byte array that follows it. */
    | TLenOf(p: Prim)
    /** A length-prefixed sub-buffer; p is the type its length field had. */
    | TTypedBytes(p: Prim, body: Type)
    | TStruct(fields: seq<Field>)
    | TUnion(tag: Ref, consts: seq<EnumConst>, fields: seq<Field>)

  /** A field and the flag its "if" names. */
  datatype Field = Field(ty: Type, cond: Option<Ref>)

  datatype Slot = Absent | Present(id: int, count: int, nbt: Option<Nbt.Root>)

  datatype Value =
    | Num(n: int)
    | Text(s: seq<byte>)
    | Blob(bs: seq<byte>)
    | SlotVal(slot: Slot)
    | Tree(root: Nbt.Root)
    | Nothing
    | Rec(fields: seq<Value>)
    | Arr(elems: seq<Value>)

  /** The fields of the enclosing structs that precede the current one, innermost first. */
  type Env = seq<seq<Value>>

  function Lookup(env: Env, r: Ref): Option<int> {
    if r.up < |env| && r.idx < |env[r.up]| && env[r.up][r.idx].Num?
    then Some(env[r.up][r.idx].n) else None
  }

  predicate CondHolds(cond: Option<Ref>, env: Env) {
    cond.None? || (Lookup(env, cond.value).Some? && Lookup(env, cond.value).value != 0)
  }

  // ---- counts and cases -----------------------------------------------------

  /** Set bits of a non-negative number. */
  function PopCount(n: nat): nat {
    if n == 0 then 0 else n % 2 + PopCount(n / 2)
  }

  /** The emitted bit-count loop: a size_t copy of the mask, shifted right. */
  method CountBits(mask: int) returns (len: nat)
    ensures len == PopCount(mask % 0x1_0000_0000_0000_0000)
  {
    var bits: nat := mask % 0x1_0000_0000_0000_0000;
    var i := 0;
    len := 0;
    assert bits < Pow2(64) by { Pow2Is64(); }
    while i < 64 && bits != 0
      invariant 0 <= i <= 64 && bits < Pow2(64 - i)
      invariant len + PopCount(bits) == PopCount(mask % 0x1_0000_0000_0000_0000)
      decreases 64 - i
    {
      len := len + bits % 2;
      bits := bits / 2;
      i := i + 1;
    }
  }

  lemma {:induction false} Pow2Is64()
    ensures Pow2(64) == 0x1_0000_0000_0000_0000
  {
    EightMore(0);
    EightMore(8);
    EightMore(16);
    EightMore(24);
    EightMore(32);
    EightMore(40);
    EightMore(48);
    EightMore(56);
  }

  lemma {:induction false} EightMore(n: nat)
    ensures Pow2(n + 8) == 256 * Pow2(n)
  {
    FourMore(n);
    FourMore(n + 4);
  }

  lemma {:induction false} FourMore(n: nat)
    ensures Pow2(n + 4) == 16 * Pow2(n)
  {
    assert Pow2(n + 1) == 2 * Pow2(n) && Pow2(n + 3) == 2 * Pow2(n + 2);
  }

  /** How many elements a loop bounded by this count visits. */
  function CountOf(c: Count, env: Env): Option<int> {
    match c
    case Fixed(n) => Some(n)
    case FieldLen(r) => Lookup(env, r)
    case BitCount(r) =>
      if Lookup(env, r).Some? then Some(PopCount(Lookup(env, r).value % 0x1_0000_0000_0000_0000)) else None
  }

  /** The value C gives to the k-th enumerator. */
  function ConstValue(consts: seq<EnumConst>, k: nat): int
    requires k < |consts|
  {
    match consts[k].value
    case Some(v) => v
    case None => if k == 0 then 0 else ConstValue(consts, k - 1) + 1
  }

  /** The case of the emitted switch that n selects, from the k-th on. */
  function CaseFrom(consts: seq<EnumConst>, n: int, k: nat): (c: Option<nat>)
    ensures c.Some? ==> k <= c.value < |consts| && ConstValue(consts, c.value) == n
    ensures c.None? ==> forall j | k <= j < |consts| :: ConstValue(consts, j) != n
    decreases |consts| - k
  {
    if k >= |consts| then None
    else if ConstValue(consts, k) == n then Some(k)
    else CaseFrom(consts, n, k + 1)
  }

  /** The selected field of a union, if any. */
  function Branch(ty: Type, env: Env): (k: Option<nat>)
    requires ty.TUnion?
    ensures k.Some? ==> k.value < |ty.fields|
  {
    match Lookup(env, ty.tag)
    case None => None
    case Some(n) =>
      match CaseFrom(ty.consts, n, 0)
      case None => None
      case Some(k) => if k < |ty.fields| then Some(k) else None
  }

  // ---- primitives -----------------------------------------------------------

  function EncodePrim(p: Prim, v: int): (bs: seq<byte>)
    ensures bs != []
  {
    if p.PVarInt? then VarInt(v % TWO_32) else BigEndian(v % Pow256(p.Width()), p.Width())
  }

  function Signed(p: Prim, u: nat): int {
    if !p.Unsigned() && u >= p.Half() then u - 2 * p.Half() else u
  }

  /** At the end of the packet the emitted reader goes on: a byte is then 0 and a
    * VarInt what its groups so far add up to. None is an error, or a wider field
    * that is left unset. */
  function ReadPrim(p: Prim, input: seq<byte>): (r: Option<(int, seq<byte>)>)
    ensures r.Some? ==> |r.value.1| <= |input|
  {
    if p.PVarInt? then
      ReadVarIntConsumes(input);
      match ReadVarInt(input)
      case VarIntOk(u, _, rest) => Some((Signed(p, u), rest))
      case VarIntEof(u) => Some((Signed(p, u), []))
      case VarIntTooLong(_) => None
    else if p.Width() <= |input| then
      Some((Signed(p, FromBigEndian(input[..p.Width()])), input[p.Width()..]))
    else if p.Width() == 1 then Some((0, []))
    else None
  }

  function ReadBlob(n: int, input: seq<byte>): Option<(seq<byte>, seq<byte>)> {
    if 0 <= n <= |input| then Some((input[..n], input[n..])) else None
  }

  function EncodeString(s: seq<byte>): (bs: seq<byte>)
    ensures bs != []
  {
    VarInt(|s|) + s
  }

  /** packet_read_string with a buffer for max characters. */
  function ReadString(max: nat, input: seq<byte>): (r: Option<(seq<byte>, seq<byte>)>)
    ensures r.Some? ==> |r.value.1| <= |input|
  {
    match ReadPrim(PVarInt, input)
    case None => None
    case Some((len, rest)) => if len <= max then ReadBlob(len, rest) else None
  }

  function EncodeSlot(s: Slot): (bs: seq<byte>)
    ensures bs != []
  {
    match s
    case Absent => [0]
    case Present(id, count, nbt) =>
      [1] + EncodePrim(PVarInt, id) + EncodePrim(PByte, count) + EncodeSlotNbt(nbt)
  }

  function EncodeSlotNbt(nbt: Option<Nbt.Root>): seq<byte> {
    if nbt.None? then [Nbt.TAG_END] else Nbt.PackRoot(nbt.value)
  }

  /** A slot that ends early keeps the zeros it was allocated with. */
  function ReadSlot(input: seq<byte>): Option<(Slot, seq<byte>)> {
    if input == [] then Some((Absent, []))
    else if input[0] == 0 then Some((Absent, input[1..]))
    else
      match ReadVarInt(input[1..])
      case VarIntTooLong(_) => None
      case VarIntEof(id) => Some((Present(Signed(PVarInt, id), 0, None), []))
      case VarIntOk(id, _, rest) =>
        if rest == [] then Some((Present(Signed(PVarInt, id), 0, None), []))
        else
          match Nbt.ParseRoot(rest[1..])
          case None => None
          case Some((root, rest')) => Some((Present(Signed(PVarInt, id), Signed(PByte, rest[0]), Some(root)), rest'))
  }

  // ---- the emitted writer -----------------------------------------------------

  datatype InputErr = BadLength | BadEnumConstant

  /** The bytes a writer appends and the value it leaves in the packet struct
    * (as a reader of the bytes sees it), or the error it returns. */
  datatype Written<+T> = Wrote(bytes: seq<byte>, left: T) | Refused(err: InputErr)

  function WriteString(max: nat, v: Value): Written<Value> {
    if !v.Text? then Wrote([], v)
    else if |v.s| > max then Refused(BadLength)
    else Wrote(EncodeString(v.s), v)
  }

  /** The empty compound that a slot without NBT is read back with. */
  const EMPTY_NBT: Nbt.Root := Nbt.Root(None, Nbt.Compound([]))

  function AsRead(s: Slot): Slot {
    match s
    case Absent => Absent
    case Present(id, count, nbt) =>
      Present(id, count, Some(if nbt.None? then EMPTY_NBT else Nbt.AsCompound(nbt.value)))
  }

  function WriteType(ty: Type, env: Env, v: Value): Written<Value>
    decreases ty, 0
  {
    match ty
    case TPrim(p) => Wrote(if v.Num? then EncodePrim(p, v.n) else [], v)
    case TEnum(p, _) => Wrote(if v.Num? then EncodePrim(p, v.n) else [], v)
    case TString(max) => WriteString(max, v)
    case TChat => WriteString(262144, v)
    case TStrEnum(max, values) =>
      if v.Text? && v.s !in values then Refused(BadEnumConstant) else WriteString(max, v)
    case TUuid => Wrote(if v.Blob? then v.bs else [], v)
    case TBytes(_) => Wrote(if v.Blob? then v.bs else [], v)
    case TSlot => if v.SlotVal? then Wrote(EncodeSlot(v.slot), SlotVal(AsRead(v.slot))) else Wrote([], v)
    case TNbt => if v.Tree? then Wrote(Nbt.PackRoot(v.root), Tree(Nbt.AsCompound(v.root))) else Wrote([], v)
    case TEmpty => Wrote([], v)
    case TLenOf(_) => Wrote([], v)
    case TTypedBytes(_, _) => Wrote([], v)
    case TArray(elem, _) =>
      if !v.Arr? then Wrote([], v)
      else
        (match WriteElems(elem, env, v.elems)
         case Refused(e) => Refused(e)
         case Wrote(bs, vs) => Wrote(bs, Arr(vs)))
    case TStruct(fields) =>
      if !v.Rec? then Wrote([], v)
      else
        (match WriteFields(fields, [], env, v.fields)
         case Refused(e) => Refused(e)
         case Wrote(bs, vs) => Wrote(bs, Rec(vs)))
    case TUnion(_, _, fields) =>
      if Branch(ty, env).Some? then WriteBranch(fields[Branch(ty, env).value], v)
      else Wrote([], v)
  }

  /** A field of a union; nothing outside it can be named from inside. */
  function WriteBranch(f: Field, v: Value): Written<Value>
    decreases f, 0
  {
    WriteType(f.ty, [], v)
  }

  function WriteElems(elem: Type, env: Env, vs: seq<Value>): Written<seq<Value>>
    decreases elem, 1, |vs|
  {
    if vs == [] then Wrote([], [])
    else
      match WriteType(elem, env, vs[0])
      case Refused(e) => Refused(e)
      case Wrote(bs, v) =>
        match WriteElems(elem, env, vs[1..])
        case Refused(e) => Refused(e)
        case Wrote(bs', vs') => Wrote(bs + bs', [v] + vs')
  }

  /** frame holds the fields of this struct already written, outer those around it. */
  function WriteFields(fs: seq<Field>, frame: seq<Value>, outer: Env, vs: seq<Value>): Written<seq<Value>>
    decreases fs, 1
  {
    if fs == [] || vs == [] then Wrote([], frame)
    else
      match WriteField(fs[0], frame, outer, vs[0])
      case Refused(e) => Refused(e)
      case Wrote(bs, frame') =>
        match WriteFields(fs[1..], frame', outer, vs[1..])
        case Refused(e) => Refused(e)
        case Wrote(bs', all) => Wrote(bs + bs', all)
  }

  /** One field; what is left is the frame extended with it. A typed byte array
    * first fills its own buffer, then sets its length field and emits it. */
  function WriteField(f: Field, frame: seq<Value>, outer: Env, v: Value): Written<seq<Value>>
    decreases f, 1
  {
    if !CondHolds(f.cond, [frame] + outer) then Wrote([], frame + [v])
    else if f.ty.TTypedBytes? && frame != [] then
      match WriteType(f.ty.body, [Before(frame)] + outer, v)
      case Refused(e) => Refused(e)
      case Wrote(bs, v') => Wrote(EncodePrim(f.ty.p, |bs|) + bs, Before(frame) + [Num(|bs|), v'])
    else
      match WriteType(f.ty, [frame] + outer, v)
      case Refused(e) => Refused(e)
      case Wrote(bs, v') => Wrote(bs, frame + [v'])
  }

  /** A frame without its last field, the length field of a typed byte array. */
  function Before(frame: seq<Value>): seq<Value>
    requires frame != []
  {
    frame[..|frame| - 1]
  }

  // ---- the emitted reader -----------------------------------------------------
  // Conditions play no part here: the reader's emitter never looks at them. all is
  // the packet the input is the rest of, and None an error or a field without a
  // defined value.

  function ReadType(all: seq<byte>, ty: Type, env: Env, input: seq<byte>): Option<(Value, seq<byte>)>
    decreases ty, 0, 0
  {
    match ty
    case TPrim(p) => AsNum(ReadPrim(p, input))
    case TEnum(p, _) => AsNum(ReadPrim(p, input))
    case TLenOf(p) => AsNum(ReadPrim(p, input))
    case TString(max) => AsText(ReadString(max, input))
    case TStrEnum(max, _) => AsText(ReadString(max, input))
    case TChat => Some((Nothing, input))
    case TEmpty => Some((Nothing, input))
    case TUuid => AsBlob(ReadBlob(16, input))
    case TBytes(count) =>
      if CountOf(count, env).Some? then AsBlob(ReadBlob(CountOf(count, env).value, input)) else None
    case TSlot =>
      (match ReadSlot(input) case None => None case Some((s, rest)) => Some((SlotVal(s), rest)))
    case TNbt =>
      (match Nbt.ParseRoot(input) case None => None case Some((r, rest)) => Some((Tree(r), rest)))
    case TTypedBytes(_, _) => None
    case TArray(elem, count) =>
      if CountOf(count, env).None? then None
      else
        (match ReadElems(all, elem, env, CountOf(count, env).value, input)
         case None => None
         case Some((vs, rest)) => Some((Arr(vs), rest)))
    case TStruct(fields) =>
      (match ReadFields(all, fields, [], env, input)
       case None => None
       case Some((vs, rest)) => Some((Rec(vs), rest)))
    case TUnion(_, _, fields) =>
      if Branch(ty, env).Some? then ReadBranch(all, fields[Branch(ty, env).value], input)
      else Some((Nothing, input))
  }

  function AsNum(r: Option<(int, seq<byte>)>): Option<(Value, seq<byte>)> {
    match r case None => None case Some((n, rest)) => Some((Num(n), rest))
  }

  function AsText(r: Option<(seq<byte>, seq<byte>)>): Option<(Value, seq<byte>)> {
    match r case None => None case Some((s, rest)) => Some((Text(s), rest))
  }

  function AsBlob(r: Option<(seq<byte>, seq<byte>)>): Option<(Value, seq<byte>)> {
    match r case None => None case Some((s, rest)) => Some((Blob(s), rest))
  }

  function ReadBranch(all: seq<byte>, f: Field, input: seq<byte>): Option<(Value, seq<byte>)>
    decreases f, 0, 0
  {
    ReadType(all, f.ty, [], input)
  }

  function ReadElems(all: seq<byte>, elem: Type, env: Env, n: int, input: seq<byte>): Option<(seq<Value>, seq<byte>)>
    decreases elem, 1, if n > 0 then n else 0
  {
    if n <= 0 then Some(([], input))
    else
      match ReadType(all, elem, env, input)
      case None => None
      case Some((v, rest)) =>
        match ReadElems(all, elem, env, n - 1, rest)
        case None => None
        case Some((vs, rest')) => Some(([v] + vs, rest'))
  }

  function ReadFields(all: seq<byte>, fs: seq<Field>, frame: seq<Value>, outer: Env, input: seq<byte>)
    : Option<(seq<Value>, seq<byte>)>
    decreases fs, 1, 0
  {
    if fs == [] then Some((frame, input))
    else
      match ReadField(all, fs[0], frame, outer, input)
      case None => None
      case Some((v, rest)) => ReadFields(all, fs[1..], frame + [v], outer, rest)
  }

  /** The sub-reader of a typed byte array sees as many bytes as the length field
    * says, and the outer index then moves by as many; a negative length shows the
    * sub-reader nothing and moves the index back. */
  function ReadField(all: seq<byte>, f: Field, frame: seq<Value>, outer: Env, input: seq<byte>)
    : Option<(Value, seq<byte>)>
    decreases f, 1, 0
  {
    if !f.ty.TTypedBytes? then ReadType(all, f.ty, [frame] + outer, input)
    else if frame == [] || !frame[|frame| - 1].Num? then None
    else
      var n := frame[|frame| - 1].n;
      var at := |all| - |input| + n;
      var buf := if 0 <= n <= |input| then input[..n] else [];
      match ReadType(buf, f.ty.body, [Before(frame)] + outer, buf)
      case None => None
      case Some((v, _)) =>
        if 0 <= n <= |input| then Some((v, input[n..]))
        else if n < 0 && 0 <= at <= |all| then Some((v, all[at..]))
        else None
  }

  // ---- schemas and values ---------------------------------------------------

  /** What the parser lets through and the emitted code compiles for: arrays of
    * numbers, slots, NBT or structs, masks only for structs, no references out
    * of a union, and a typed byte array right after its length field. */
  predicate WellFormed(ty: Type)
  {
    match ty
    case TArray(elem, count) =>
      && (elem.TPrim? || elem.TSlot? || elem.TNbt? || elem.TStruct?)
      && (count.BitCount? ==> elem.TStruct?)
      && (count.Fixed? ==> !elem.TStruct?)
      && WellFormed(elem)
    case TStruct(fields) => WellFormedFields(fields)
    case TUnion(_, _, fields) => forall k | 0 <= k < |fields| :: WellFormedBranch(fields[k])
    case TLenOf(_) => false
    case TTypedBytes(_, _) => false
    case _ => true
  }

  predicate WellFormedBranch(f: Field)
  {
    f.cond.None? && WellFormed(f.ty)
  }

  predicate WellFormedFields(fs: seq<Field>)
  {
    if fs == [] then true
    else if fs[0].ty.TLenOf? then
      |fs| >= 2 && fs[0].cond.None? && WellFormedBuffer(fs[1], fs[0].ty.p) && WellFormedFields(fs[2..])
    else WellFormedField(fs[0]) && WellFormedFields(fs[1..])
  }

  predicate WellFormedBuffer(f: Field, p: Prim)
  {
    f.ty.TTypedBytes? && f.ty.p == p && WellFormed(f.ty.body)
  }

  predicate WellFormedField(f: Field)
  {
    WellFormed(f.ty)
  }

  ghost predicate SlotOk(s: Slot) {
    s.Present? ==> PVarInt.Holds(s.id) && PByte.Holds(s.count) && (s.nbt.Some? ==> Nbt.RootInDomain(s.nbt.value))
  }

  /** v is a value of the C type, its arrays are as long as their length fields
    * say, what is not written holds no negative length of a typed byte array, and
    * everything it refers to comes before it. */
  ghost predicate Conforms(ty: Type, env: Env, v: Value)
    decreases ty, 0
  {
    match ty
    case TPrim(p) => v.Num? && p.Holds(v.n)
    case TEnum(p, _) => v.Num? && p.Holds(v.n)
    case TString(max) => max < 0x8000_0000 && v.Text?
    case TStrEnum(max, _) => max < 0x8000_0000 && v.Text?
    case TUuid => v.Blob? && |v.bs| == 16
    case TBytes(count) => v.Blob? && CountOf(count, env) == Some(|v.bs|)
    case TSlot => v.SlotVal? && SlotOk(v.slot)
    case TNbt => v.Tree? && Nbt.RootInDomain(v.root)
    case TEmpty => v.Nothing?
    case TArray(elem, count) =>
      && v.Arr? && HasCount(v.elems, count, env)
      && forall k | 0 <= k < |v.elems| :: Conforms(elem, env, v.elems[k])
    case TStruct(fields) => v.Rec? && ConformsFields(fields, [], env, v.fields)
    case TUnion(tag, _, fields) =>
      if Branch(ty, env).Some? then ConformsBranch(fields[Branch(ty, env).value], v)
      else Lookup(env, tag).Some? && v.Nothing?
    case TChat => false
    case TLenOf(_) => v.Num?
    case TTypedBytes(_, _) => false
  }

  predicate HasLength(v: Value) {
    v.Num? && v.n >= 0
  }

  /** No typed byte array inside has a negative length. */
  predicate LengthsOk(ty: Type, env: Env, v: Value)
    decreases ty, 0
  {
    match ty
    case TArray(elem, _) => v.Arr? ==> forall k | 0 <= k < |v.elems| :: LengthsOk(elem, env, v.elems[k])
    case TStruct(fields) => v.Rec? ==> LengthsOkFields(fields, [], env, v.fields)
    case TUnion(_, _, fields) =>
      Branch(ty, env).Some? ==> LengthsOkBranch(fields[Branch(ty, env).value], v)
    case _ => true
  }

  predicate LengthsOkBranch(f: Field, v: Value)
    decreases f, 0
  {
    LengthsOk(f.ty, [], v)
  }

  predicate LengthsOkFields(fs: seq<Field>, frame: seq<Value>, outer: Env, vs: seq<Value>)
    decreases fs, 1
  {
    fs != [] && vs != [] ==>
      LengthsOkField(fs[0], frame, outer, vs[0]) && LengthsOkFields(fs[1..], frame + [vs[0]], outer, vs[1..])
  }

  predicate LengthsOkField(f: Field, frame: seq<Value>, outer: Env, v: Value)
    decreases f, 1
  {
    if f.ty.TTypedBytes? then frame != [] && HasLength(frame[|frame| - 1])
    else LengthsOk(f.ty, [frame] + outer, v)
  }

  predicate HasCount(vs: seq<Value>, count: Count, env: Env) {
    match CountOf(count, env)
    case None => false
    case Some(n) => |vs| == if n > 0 then n else 0
  }

  ghost predicate ConformsBranch(f: Field, v: Value)
    decreases f, 0
  {
    Conforms(f.ty, [], v)
  }

  ghost predicate ConformsFields(fs: seq<Field>, frame: seq<Value>, outer: Env, vs: seq<Value>)
    decreases fs, 1
  {
    && |fs| == |vs|
    && (fs != [] ==>
          && ConformsField(fs[0], frame, outer, vs[0])
          && match WriteField(fs[0], frame, outer, vs[0])
             case Refused(_) => true
             case Wrote(_, frame') => ConformsFields(fs[1..], frame', outer, vs[1..]))
  }

  ghost predicate ConformsField(f: Field, frame: seq<Value>, outer: Env, v: Value)
    decreases f, 1
  {
    var env := [frame] + outer;
    && (f.cond.Some? ==> Lookup(env, f.cond.value).Some?)
    && (!CondHolds(f.cond, env) ==> LengthsOkField(f, frame, outer, v))
    && (CondHolds(f.cond, env) ==>
          if f.ty.TTypedBytes? then
            && frame != []
            && Conforms(f.ty.body, [Before(frame)] + outer, v)
            && match WriteType(f.ty.body, [Before(frame)] + outer, v)
               case Refused(_) => true
               case Wrote(bs, _) => f.ty.p.Holds(|bs|)
          else Conforms(f.ty, env, v))
  }

  // ---- which values survive ---------------------------------------------------

  /** The fewest bytes from which the reader can return v; 1 when it never does. */
  function MinBytes(ty: Type, env: Env, v: Value): nat
    decreases ty, 0, 0
  {
    match ty
    case TPrim(p) => if v.Num? then |EncodePrim(p, v.n)| else 1
    case TEnum(p, _) => if v.Num? then |EncodePrim(p, v.n)| else 1
    case TLenOf(p) => if v.Num? then |EncodePrim(p, v.n)| else 1
    case TString(_) => if v.Text? then |EncodeString(v.s)| else 1
    case TStrEnum(_, _) => if v.Text? then |EncodeString(v.s)| else 1
    case TUuid => 16
    case TBytes(count) => if v.Blob? && CountOf(count, env) == Some(|v.bs|) then |v.bs| else 1
    case TSlot => if v.SlotVal? then |EncodeSlot(v.slot)| else 1
    case TNbt => if v.Tree? then |Nbt.PackRoot(v.root)| else 1
    case TEmpty => if v.Nothing? then 0 else 1
    case TChat => if v.Nothing? then 0 else 1
    case TArray(elem, count) =>
      if v.Arr? && HasCount(v.elems, count, env) then MinElems(elem, env, v.elems) else 1
    case TStruct(fields) => if v.Rec? then MinFields(fields, [], env, v.fields) else 1
    case TUnion(_, _, fields) =>
      if Branch(ty, env).Some? then MinBranch(fields[Branch(ty, env).value], v)
      else if v.Nothing? then 0 else 1
    case TTypedBytes(_, _) => 1
  }

  function MinBranch(f: Field, v: Value): nat
    decreases f, 0, 0
  {
    MinBytes(f.ty, [], v)
  }

  function MinElems(elem: Type, env: Env, vs: seq<Value>): nat
    decreases elem, 1, |vs|
  {
    if vs == [] then 0 else MinBytes(elem, env, vs[0]) + MinElems(elem, env, vs[1..])
  }

  function MinFields(fs: seq<Field>, frame: seq<Value>, outer: Env, vs: seq<Value>): nat
    decreases fs, 1, 0
  {
    if fs == [] && vs == [] then 0
    else if fs == [] || vs == [] then 1
    else MinField(fs[0], frame, outer, vs[0]) + MinFields(fs[1..], frame + [vs[0]], outer, vs[1..])
  }

  /** A typed byte array takes as many bytes as its length field says. */
  function MinField(f: Field, frame: seq<Value>, outer: Env, v: Value): nat
    decreases f, 0, 0
  {
    if !f.ty.TTypedBytes? then MinBytes(f.ty, [frame] + outer, v)
    else if frame != [] && HasLength(frame[|frame| - 1]) then frame[|frame| - 1].n
    else 1
  }

  /** Every field the writer skips is one the reader needs no bytes for. */
  ghost predicate Transparent(ty: Type, env: Env, v: Value)
    decreases ty, 0
  {
    match ty
    case TArray(elem, _) => v.Arr? ==> forall k | 0 <= k < |v.elems| :: Transparent(elem, env, v.elems[k])
    case TStruct(fields) => v.Rec? ==> TransparentFields(fields, [], env, v.fields)
    case TUnion(_, _, fields) =>
      Branch(ty, env).Some? ==> TransparentBranch(fields[Branch(ty, env).value], v)
    case _ => true
  }

  ghost predicate TransparentBranch(f: Field, v: Value)
    decreases f, 0
  {
    Transparent(f.ty, [], v)
  }

  ghost predicate TransparentFields(fs: seq<Field>, frame: seq<Value>, outer: Env, vs: seq<Value>)
    decreases fs, 1
  {
    fs != [] && vs != [] ==>
      && TransparentField(fs[0], frame, outer, vs[0])
      && match WriteField(fs[0], frame, outer, vs[0])
         case Refused(_) => true
         case Wrote(_, frame') => TransparentFields(fs[1..], frame', outer, vs[1..])
  }

  ghost predicate TransparentField(f: Field, frame: seq<Value>, outer: Env, v: Value)
    decreases f, 1
  {
    if !CondHolds(f.cond, [frame] + outer) then
      !f.ty.TTypedBytes? && MinBytes(f.ty, [frame] + outer, v) == 0
    else if f.ty.TTypedBytes? then frame != [] && Transparent(f.ty.body, [Before(frame)] + outer, v)
    else Transparent(f.ty, [frame] + outer, v)
  }
}
