/** The emitted writer and reader as the programs they are: the writer appends to
  * a packet field by field, the reader advances an index over one, arrays are
  * loops, and a typed byte array has a packet of its own. */
module SchemaCodec {
  import opened Bytes
  import opened Schema
  import Nbt
  import NbtCodec
  import Packet
  import SchemaRoundTrip
  import Transfer

  // ---- the writer --------------------------------------------------------------------

  predicate Fits(bs: seq<byte>) { |bs| <= Packet.MAX_PACKET_LEN }

  /** A packet being written. asked is all that was to be written into it so far: while it
    * fits, the packet holds exactly that. */
  class Sink {
    const packet: Packet.Packet
    ghost var asked: seq<byte>

    ghost predicate Valid()
      reads this, packet, packet.data
    {
      && packet.CanWrite() && packet.index == packet.packetLen <= |asked| && packet.packetLen <= Packet.MAX_PACKET_LEN
      && (Fits(asked) ==> packet.Contents() == asked)
    }

    /** packet_init and the switch to writing. */
    constructor ()
      ensures Valid() && asked == [] && fresh(packet) && fresh(packet.data)
    {
      packet := new Packet.Packet();
      asked := [];
      new;
      packet.mode := Packet.Writing;
    }

    /** make_packet */
    constructor ForId(id: int)
      ensures Valid() && asked == [id % 256] && fresh(packet) && fresh(packet.data)
    {
      packet := new Packet.Packet();
      asked := [id % 256];
      new;
      packet.MakePacket(id);
    }

    /** One write and its result, which is negative only if something does not fit. */
    method Put(op: Transfer.Op) returns (n: int)
      requires Valid() && op.Ok()
      modifies this, packet, packet.data
      ensures Valid() && (packet.data == old(packet.data) || fresh(packet.data))
      ensures asked == old(asked) + op.Encoded()
      ensures n < 0 ==> !Fits(asked)
    {
      hide Transfer.Op.Encoded, Transfer.Result;
      ghost var free := Packet.MAX_PACKET_LEN - packet.packetLen;
      n := Transfer.Attempt(packet, op);
      asked := asked + op.Encoded();
      Transfer.FitsIsTaken(free, op);
      assert op.Encoded()[..|op.Encoded()|] == op.Encoded();
    }

    lemma {:induction false} HoldsAsked()
      requires Valid()
      ensures 0 <= packet.packetLen <= packet.data.Length
      ensures Fits(asked) ==> packet.Contents() == asked
    {
    }

    /** More was asked of a packet of its own than that could hold, so of this one, too. */
    ghost method AskMore(bs: seq<byte>)
      requires Valid() && !Fits(bs)
      modifies this`asked
      ensures Valid() && asked == old(asked) + bs
    {
      asked := asked + bs;
    }

    /** The bytes of a byte array, whose result the emitted code does not look at: if they
      * do not fit, none is written and no error returned. */
    method PutUnchecked(bs: seq<byte>)
      requires Valid()
      modifies this, packet, packet.data
      ensures Valid() && (packet.data == old(packet.data) || fresh(packet.data))
      ensures asked == old(asked) + bs
      ensures packet.Contents() == old(packet.Contents())
                + if old(packet.packetLen) + |bs| <= Packet.MAX_PACKET_LEN then bs else []
    {
      ghost var free := Packet.MAX_PACKET_LEN - packet.packetLen;
      var _ := Transfer.Attempt(packet, Transfer.PutBytes(bs));
      asked := asked + bs;
      assert bs[..|bs|] == bs && bs[..0] == [];
    }
  }

  datatype Failure = Input(err: InputErr) | PacketErr(n: int)

  datatype Outcome<+T> = Done(left: T) | Error(err: Failure)

  /** What was asked of the packet went from before to after and the program returned r,
    * as w says; once more is asked of a packet than it can hold, w is only known to ask
    * that much. */
  ghost predicate Emitted<T>(before: seq<byte>, after: seq<byte>, r: Outcome<T>, w: Written<T>) {
    && |before| <= |after|
    && if !Fits(after) then w.Wrote? ==> !Fits(before + w.bytes)
       else
         match w
         case Wrote(bs, left) => r == Done(left) && after == before + bs
         case Refused(e) => r == Error(Input(e))
  }

  /** w with bytes and values already written in front of it. */
  function Behind(bs: seq<byte>, left: seq<Value>, w: Written<seq<Value>>): Written<seq<Value>> {
    match w
    case Wrote(bs', left') => Wrote(bs + bs', left + left')
    case Refused(e) => Refused(e)
  }

  lemma {:induction false} BehindNothing(w: Written<seq<Value>>)
    ensures Behind([], [], w) == w
  {
    match w
    case Wrote(bs, left) => assert [] + bs == bs && [] + left == left;
    case Refused(_) =>
  }

  lemma {:induction false} BehindTwice(a: seq<byte>, l: seq<Value>, b: seq<byte>, m: seq<Value>,
          w: Written<seq<Value>>)
    ensures Behind(a, l, Behind(b, m, w)) == Behind(a + b, l + m, w)
  {
    if w.Wrote? {
      Assoc3(a, b, w.bytes);
      Assoc3(l, m, w.left);
    }
  }

  /** The state of a loop: bs was asked for and left is done, and rest is what remains of
    * w; or too much was asked for. */
  ghost predicate Halfway(before: seq<byte>, now: seq<byte>, bs: seq<byte>, left: seq<Value>,
          w: Written<seq<Value>>, rest: Written<seq<Value>>)
  {
    && |before| <= |now|
    && if !Fits(now) then w.Wrote? ==> !Fits(before + w.bytes)
       else now == before + bs && w == Behind(bs, left, rest)
  }

  /** One more part p of what remains. */
  lemma {:induction false} HalfwayStep<T>(before: seq<byte>, now: seq<byte>, bs: seq<byte>, left: seq<Value>,
          w: Written<seq<Value>>, p: Written<T>, m: seq<Value>, after: Written<seq<Value>>, next: seq<byte>,
          r: Outcome<T>)
    requires Emitted(now, next, r, p)
    requires Halfway(before, now, bs, left, w, if p.Wrote? then Behind(p.bytes, m, after) else Refused(p.err))
    ensures r.Error? ==> Emitted(before, next, Error(r.err), w)
    ensures r.Done? && Fits(next) ==> p.Wrote? && r.left == p.left
    ensures r.Done? ==> Halfway(before, next, bs + (if p.Wrote? then p.bytes else []), left + m, w, after)
  {
    if p.Wrote? {
      BehindTwice(bs, left, p.bytes, m, after);
      Assoc3(before, bs, p.bytes);
    }
  }

  lemma {:induction false} HalfwayEnd(before: seq<byte>, now: seq<byte>, bs: seq<byte>, left: seq<Value>,
          w: Written<seq<Value>>, last: seq<Value>)
    requires Halfway(before, now, bs, left, w, Wrote([], last))
    ensures Emitted(before, now, Done(left + last), w)
  {
    assert bs + [] == bs;
  }

  /** A primitive by the packet writer for it. */
  method PutPrim(p: Prim, v: int, out: Sink) returns (n: int)
    requires out.Valid()
    modifies out, out.packet, out.packet.data
    ensures out.Valid() && (out.packet.data == old(out.packet.data) || fresh(out.packet.data))
    ensures out.asked == old(out.asked) + EncodePrim(p, v)
    ensures n < 0 ==> !Fits(out.asked)
  {
    hide Sink.Valid, VarInt;
    if p.PVarInt? {
      n := out.Put(Transfer.PutVarint(v % TWO_32));
    } else if p.Width() == 1 {
      OneByte(v % Pow256(1));
      n := out.Put(Transfer.PutByte(v % 256));
    } else {
      n := out.Put(Transfer.PutBytes(BigEndian(v % Pow256(p.Width()), p.Width())));
    }
  }

  lemma {:induction false} OneByte(n: nat)
    requires n < 256
    ensures BigEndian(n, 1) == [n] && Pow256(1) == 256
  {
    assert BigEndian(n / 256, 0) == [];
  }

  method EmitPrim(p: Prim, v: Value, out: Sink) returns (r: Outcome<Value>)
    requires out.Valid()
    modifies out, out.packet, out.packet.data
    ensures out.Valid() && (out.packet.data == old(out.packet.data) || fresh(out.packet.data))
    ensures Emitted(old(out.asked), out.asked, r, Wrote(if v.Num? then EncodePrim(p, v.n) else [], v))
  {
    hide Sink.Valid, EncodePrim;
    if v.Num? {
      var n := PutPrim(p, v.n, out);
      if n < 0 {
        return Error(PacketErr(n));
      }
    }
    r := Done(v);
  }

  method EmitString(max: Max, v: Value, out: Sink) returns (r: Outcome<Value>)
    requires out.Valid()
    modifies out, out.packet, out.packet.data
    ensures out.Valid() && (out.packet.data == old(out.packet.data) || fresh(out.packet.data))
    ensures Emitted(old(out.asked), out.asked, r, WriteString(max, v))
  {
    hide Sink.Valid, VarInt;
    r := Done(v);
    if v.Text? {
      if |v.s| > max {
        return Error(Input(BadLength));
      }
      var n := out.Put(Transfer.PutString(v.s));
      if n < 0 {
        return Error(PacketErr(n));
      }
    }
  }

  /** The search through the constants of a string enum. */
  method CheckConstant(values: seq<seq<byte>>, s: seq<byte>) returns (found: bool)
    ensures found == (s in values)
  {
    var i := 0;
    while i < |values| && values[i] != s
      invariant 0 <= i <= |values| && s !in values[..i]
    {
      i := i + 1;
    }
    found := i < |values|;
    assert !found ==> values[..i] == values;
  }

  /** All the bytes in one write. */
  method EmitBlock(bs: seq<byte>, left: Value, out: Sink) returns (r: Outcome<Value>)
    requires out.Valid()
    modifies out, out.packet, out.packet.data
    ensures out.Valid() && (out.packet.data == old(out.packet.data) || fresh(out.packet.data))
    ensures Emitted(old(out.asked), out.asked, r, Wrote(bs, left))
  {
    hide Sink.Valid;
    var n := out.Put(Transfer.PutBytes(bs));
    r := if n < 0 then Error(PacketErr(n)) else Done(left);
  }

  /** A slot after its first byte. */
  function ItemBytes(s: Slot): seq<byte>
    requires s.Present?
  {
    EncodePrim(PVarInt, s.id) + EncodePrim(PByte, s.count) + EncodeSlotNbt(s.nbt)
  }

  lemma {:induction false} SlotIsItem(s: Slot)
    requires s.Present?
    ensures EncodeSlot(s) == [1] + ItemBytes(s)
  {
    hide EncodePrim, EncodeSlotNbt;
    var a, b := EncodePrim(PVarInt, s.id), EncodePrim(PByte, s.count);
    Assoc3([1], a, b);
    Assoc3([1], a + b, EncodeSlotNbt(s.nbt));
  }

  method PutItem(s: Slot, out: Sink) returns (n: int)
    requires out.Valid() && s.Present?
    modifies out, out.packet, out.packet.data
    ensures out.Valid() && (out.packet.data == old(out.packet.data) || fresh(out.packet.data))
    ensures n < 0 ==> !Fits(out.asked) && |old(out.asked)| <= |out.asked| <= |old(out.asked)| + |ItemBytes(s)|
    ensures n >= 0 ==> out.asked == old(out.asked) + ItemBytes(s)
  {
    hide Sink.Valid, EncodePrim;
    n := PutPrim(PVarInt, s.id, out);
    if n < 0 {
      return;
    }
    n := PutPrim(PByte, s.count, out);
    if n < 0 {
      return;
    }
    if s.nbt.Some? {
      n := out.Put(Transfer.PutBytes(Nbt.PackRoot(s.nbt.value)));
    } else {
      n := out.Put(Transfer.PutByte(Nbt.TAG_END));
    }
    ghost var a, b := EncodePrim(PVarInt, s.id), EncodePrim(PByte, s.count);
    Assoc3(old(out.asked), a, b);
    Assoc3(old(out.asked), a + b, EncodeSlotNbt(s.nbt));
  }

  /** packet_write_slot */
  method EmitSlot(s: Slot, out: Sink) returns (r: Outcome<Value>)
    requires out.Valid()
    modifies out, out.packet, out.packet.data
    ensures out.Valid() && (out.packet.data == old(out.packet.data) || fresh(out.packet.data))
    ensures Emitted(old(out.asked), out.asked, r, Wrote(EncodeSlot(s), SlotVal(AsRead(s))))
  {
    hide Sink.Valid, EncodePrim, ItemBytes;
    if s.Present? {
      SlotIsItem(s);
      hide EncodeSlot;
      var n := out.Put(Transfer.PutByte(1));
      if n >= 0 {
        n := PutItem(s, out);
        Assoc3(old(out.asked), [1], ItemBytes(s));
      }
      if n < 0 {
        return Error(PacketErr(n));
      }
    } else {
      var n := out.Put(Transfer.PutByte(0));
      if n < 0 {
        return Error(PacketErr(n));
      }
    }
    r := Done(SlotVal(AsRead(s)));
  }

  /** The emitted writer for a type. */
  method EmitType(ty: Type, env: Env, v: Value, out: Sink) returns (r: Outcome<Value>)
    requires out.Valid()
    modifies out, out.packet, out.packet.data
    ensures out.Valid() && (out.packet.data == old(out.packet.data) || fresh(out.packet.data))
    ensures Emitted(old(out.asked), out.asked, r, WriteType(ty, env, v))
    decreases ty, 1
  {
    hide Sink.Valid, EncodePrim, WriteString, EncodeSlot;
    match ty
    case TPrim(p) => r := EmitPrim(p, v, out);
    case TEnum(p, _) => r := EmitPrim(p, v, out);
    case TString(max) => r := EmitString(max, v, out);
    case TChat => r := EmitString(262144, v, out);
    case TStrEnum(max, values) =>
      if v.Text? {
        var found := CheckConstant(values, v.s);
        if !found { return Error(Input(BadEnumConstant)); }
      }
      r := EmitString(max, v, out);
    case TUuid =>
      r := Done(v);
      if v.Blob? { r := EmitBlock(v.bs, v, out); }
    case TBytes(_) =>
      if v.Blob? { out.PutUnchecked(v.bs); }
      r := Done(v);
    case TSlot =>
      r := Done(v);
      if v.SlotVal? { r := EmitSlot(v.slot, out); }
    case TNbt =>
      r := Done(v);
      if v.Tree? { r := EmitBlock(Nbt.PackRoot(v.root), Tree(Nbt.AsCompound(v.root)), out); }
    case TEmpty => r := Done(v);
    case TLenOf(_) => r := Done(v);
    case TTypedBytes(_, _) => r := Done(v);
    case TArray(elem, _) => r := EmitArray(elem, env, v, out);
    case TStruct(fields) => r := EmitStruct(fields, env, v, out);
    case TUnion(_, _, fields) =>
      var k := Branch(ty, env);
      if k.Some? {
        r := EmitType(fields[k.value].ty, [], v, out);
      } else {
        r := Done(v);
      }
  }

  method EmitArray(elem: Type, env: Env, v: Value, out: Sink) returns (r: Outcome<Value>)
    requires out.Valid()
    modifies out, out.packet, out.packet.data
    ensures out.Valid() && (out.packet.data == old(out.packet.data) || fresh(out.packet.data))
    ensures var w := if !v.Arr? then Wrote([], v)
                     else match WriteElems(elem, env, v.elems)
                          case Refused(e) => Refused(e)
                          case Wrote(bs, vs) => Wrote(bs, Arr(vs));
      Emitted(old(out.asked), out.asked, r, w)
    decreases elem, 3
  {
    hide Sink.Valid;
    if !v.Arr? {
      return Done(v);
    }
    var vs := EmitElems(elem, env, v.elems, out);
    r := if vs.Error? then Error(vs.err) else Done(Arr(vs.left));
  }

  /** The loop over an array. */
  method EmitElems(elem: Type, env: Env, vs: seq<Value>, out: Sink) returns (r: Outcome<seq<Value>>)
    requires out.Valid()
    modifies out, out.packet, out.packet.data
    ensures out.Valid() && (out.packet.data == old(out.packet.data) || fresh(out.packet.data))
    ensures Emitted(old(out.asked), out.asked, r, WriteElems(elem, env, vs))
    decreases elem, 2
  {
    hide Sink.Valid, WriteType;
    var left: seq<Value> := [];
    ghost var w, bs := WriteElems(elem, env, vs), [];
    var i := 0;
    BehindNothing(w);
    assert vs[0..] == vs && out.asked + [] == out.asked;
    while i < |vs|
      invariant 0 <= i <= |vs| && out.Valid()
      invariant out.packet.data == old(out.packet.data) || fresh(out.packet.data)
      invariant Halfway(old(out.asked), out.asked, bs, left, w, WriteElems(elem, env, vs[i..]))
    {
      assert vs[i..][1..] == vs[i + 1..];
      ghost var now, p := out.asked, WriteType(elem, env, vs[i]);
      var v := EmitType(elem, env, vs[i], out);
      HalfwayStep(old(out.asked), now, bs, left, w, p, if p.Wrote? then [p.left] else [],
        WriteElems(elem, env, vs[i + 1..]), out.asked, v);
      if v.Error? {
        return Error(v.err);
      }
      bs := bs + if p.Wrote? then p.bytes else [];
      left := left + [v.left];
      i := i + 1;
    }
    HalfwayEnd(old(out.asked), out.asked, bs, left, w, []);
    assert left + [] == left;
    r := Done(left);
  }

  method EmitStruct(fields: seq<Field>, env: Env, v: Value, out: Sink) returns (r: Outcome<Value>)
    requires out.Valid()
    modifies out, out.packet, out.packet.data
    ensures out.Valid() && (out.packet.data == old(out.packet.data) || fresh(out.packet.data))
    ensures var w := if !v.Rec? then Wrote([], v)
                     else match WriteFields(fields, [], env, v.fields)
                          case Refused(e) => Refused(e)
                          case Wrote(bs, vs) => Wrote(bs, Rec(vs));
      Emitted(old(out.asked), out.asked, r, w)
    decreases fields, 2
  {
    hide Sink.Valid;
    if !v.Rec? {
      return Done(v);
    }
    var vs := EmitFields(fields, env, v.fields, out);
    r := if vs.Error? then Error(vs.err) else Done(Rec(vs.left));
  }

  /** The fields of a struct, one after the other. */
  method EmitFields(fs: seq<Field>, outer: Env, vs: seq<Value>, out: Sink) returns (r: Outcome<seq<Value>>)
    requires out.Valid()
    modifies out, out.packet, out.packet.data
    ensures out.Valid() && (out.packet.data == old(out.packet.data) || fresh(out.packet.data))
    ensures Emitted(old(out.asked), out.asked, r, WriteFields(fs, [], outer, vs))
    decreases fs, 1
  {
    hide Sink.Valid, WriteField;
    var frame: seq<Value> := [];
    ghost var w, bs := WriteFields(fs, [], outer, vs), [];
    var i := 0;
    assert fs[0..] == fs && vs[0..] == vs && out.asked + [] == out.asked;
    BehindNothing(w);
    while i < |fs| && i < |vs|
      invariant 0 <= i <= |fs| && i <= |vs| && out.Valid()
      invariant out.packet.data == old(out.packet.data) || fresh(out.packet.data)
      invariant Halfway(old(out.asked), out.asked, bs, [], w, WriteFields(fs[i..], frame, outer, vs[i..]))
    {
      ghost var now, p := out.asked, WriteField(fs[i], frame, outer, vs[i]);
      ghost var after := if p.Wrote? then WriteFields(fs[i + 1..], p.left, outer, vs[i + 1..]) else w;
      FieldsUnfold(fs, frame, outer, vs, i);
      var f := EmitField(fs[i], frame, outer, vs[i], out);
      HalfwayStep(old(out.asked), now, bs, [], w, p, [], after, out.asked, f);
      if f.Error? {
        return Error(f.err);
      }
      bs := bs + if p.Wrote? then p.bytes else [];
      frame := f.left;
      i := i + 1;
    }
    HalfwayEnd(old(out.asked), out.asked, bs, [], w, frame);
    assert [] + frame == frame;
    r := Done(frame);
  }

  lemma {:induction false} FieldsUnfold(fs: seq<Field>, frame: seq<Value>, outer: Env, vs: seq<Value>, i: nat)
    requires i < |fs| && i < |vs|
    ensures WriteFields(fs[i..], frame, outer, vs[i..]) ==
            match WriteField(fs[i], frame, outer, vs[i])
            case Refused(e) => Refused(e)
            case Wrote(bs, frame') => Behind(bs, [], WriteFields(fs[i + 1..], frame', outer, vs[i + 1..]))
  {
    hide WriteField;
    assert fs[i..][1..] == fs[i + 1..] && vs[i..][1..] == vs[i + 1..];
    assert fs[i..][0] == fs[i] && vs[i..][0] == vs[i];
    var p := WriteField(fs[i], frame, outer, vs[i]);
    if p.Wrote? {
      var rest := WriteFields(fs[i + 1..], p.left, outer, vs[i + 1..]);
      if rest.Wrote? { assert [] + rest.left == rest.left; }
    }
  }

  /** One field, if its condition holds. */
  method EmitField(f: Field, frame: seq<Value>, outer: Env, v: Value, out: Sink) returns (r: Outcome<seq<Value>>)
    requires out.Valid()
    modifies out, out.packet, out.packet.data
    ensures out.Valid() && (out.packet.data == old(out.packet.data) || fresh(out.packet.data))
    ensures Emitted(old(out.asked), out.asked, r, WriteField(f, frame, outer, v))
    decreases f, 1
  {
    hide Sink.Valid, WriteType;
    if !CondHolds(f.cond, [frame] + outer) {
      r := Done(frame + [v]);
    } else if f.ty.TTypedBytes? && frame != [] {
      r := EmitBuffer(f, frame, outer, v, out);
    } else {
      var t := EmitType(f.ty, [frame] + outer, v, out);
      r := if t.Error? then Error(t.err) else Done(frame + [t.left]);
    }
  }

  /** A typed byte array: a packet of its own, whose length goes into the length field
    * before it, and both written. */
  method EmitBuffer(f: Field, frame: seq<Value>, outer: Env, v: Value, out: Sink) returns (r: Outcome<seq<Value>>)
    requires f.ty.TTypedBytes? && frame != [] && CondHolds(f.cond, [frame] + outer)
    requires out.Valid()
    modifies out, out.packet, out.packet.data
    ensures out.Valid() && (out.packet.data == old(out.packet.data) || fresh(out.packet.data))
    ensures Emitted(old(out.asked), out.asked, r, WriteField(f, frame, outer, v))
    decreases f, 0
  {
    hide WriteType, WriteField, EncodePrim, Emitted, Sink.Valid;
    ghost var before := out.asked;
    var own := new Sink();
    var body := EmitType(f.ty.body, [Before(frame)] + outer, v, own);
    if body.Error? {
      if !Fits(own.asked) { out.AskMore(own.asked); }
      BufferStopped(f, frame, outer, v, before, own.asked, body);
      return Error(body.err);
    }
    own.HoldsAsked();
    var bytes := own.packet.data[..own.packet.packetLen];
    var n := PutPrim(f.ty.p, |bytes|, out);
    if n >= 0 {
      n := out.Put(Transfer.PutBytes(bytes));
      Assoc3(before, EncodePrim(f.ty.p, |bytes|), bytes);
    }
    ghost var now := out.asked;
    if !Fits(own.asked) { out.AskMore(own.asked); }
    BufferEmitted(f, frame, outer, v, before, own.asked, body, bytes, now, n);
    r := if n < 0 then Error(PacketErr(n)) else Done(Before(frame) + [Num(|bytes|), body.left]);
  }

  lemma {:induction false} BufferStopped(f: Field, frame: seq<Value>, outer: Env, v: Value, before: seq<byte>,
          own: seq<byte>, body: Outcome<Value>)
    requires f.ty.TTypedBytes? && frame != [] && CondHolds(f.cond, [frame] + outer) && body.Error?
    requires Emitted([], own, body, WriteType(f.ty.body, [Before(frame)] + outer, v))
    ensures var after := if Fits(own) then before else before + own;
      Emitted(before, after, Error(body.err), WriteField(f, frame, outer, v))
  {
    hide WriteType, EncodePrim;
  }

  lemma {:induction false} BufferEmitted(f: Field, frame: seq<Value>, outer: Env, v: Value, before: seq<byte>,
          own: seq<byte>, body: Outcome<Value>, bytes: seq<byte>, now: seq<byte>, n: int)
    requires f.ty.TTypedBytes? && frame != [] && CondHolds(f.cond, [frame] + outer) && body.Done?
    requires Emitted([], own, body, WriteType(f.ty.body, [Before(frame)] + outer, v))
    requires Fits(own) ==> bytes == own
    requires |before| <= |now| <= |before| + |EncodePrim(f.ty.p, |bytes|) + bytes| && (n < 0 ==> !Fits(now))
    requires n >= 0 ==> now == before + (EncodePrim(f.ty.p, |bytes|) + bytes)
    ensures var after := if Fits(own) then now else now + own;
      var r := if n < 0 then Error(PacketErr(n)) else Done(Before(frame) + [Num(|bytes|), body.left]);
      Emitted(before, after, r, WriteField(f, frame, outer, v))
  {
    hide WriteType, EncodePrim;
  }

  /** The emitted function for a packet: the id, then the fields. What fits is written
    * whole and reported, or refused; what does not fit is never whole, whatever is
    * reported. */
  method EmitPacket(id: int, fs: seq<Field>, vs: seq<Value>) returns (out: Sink, r: Outcome<seq<Value>>)
    ensures fresh(out) && fresh(out.packet) && fresh(out.packet.data) && out.Valid()
    ensures Emitted([id % 256], out.asked, r, WriteFields(fs, [], [], vs))
    ensures WriteFields(fs, [], [], vs).Wrote? ==>
      var Wrote(bs, left) := WriteFields(fs, [], [], vs);
      && (Fits([id % 256] + bs) ==> r == Done(left))
      && (out.packet.Contents() == [id % 256] + bs <==> Fits([id % 256] + bs))
  {
    hide WriteFields;
    out := new Sink.ForId(id);
    r := EmitFields(fs, [], vs, out);
  }

  /** A byte array too long for the packet is left out, and the packet holds the id. */
  method LoseArray(id: int, bs: seq<byte>) returns (sent: seq<byte>)
    requires |bs| >= Packet.MAX_PACKET_LEN
    ensures sent == [id % 256]
  {
    var out := new Sink.ForId(id);
    out.PutUnchecked(bs);
    sent := out.packet.data[..out.packet.packetLen];
  }

  // ---- the reader --------------------------------------------------------------------

  /** A packet being read: its bytes and the index of the next one. */
  class Source {
    const data: seq<byte>
    var index: nat

    ghost predicate Valid()
      reads this
    {
      index <= |data|
    }

    ghost function Left(): seq<byte>
      requires Valid()
      reads this
    {
      data[index..]
    }

    constructor (data: seq<byte>)
      ensures Valid() && this.data == data && Left() == data
    {
      this.data := data;
      index := 0;
    }

    /** The bytes between the index and the end, n of them. */
    method TakeBlob(n: int) returns (r: Option<seq<byte>>)
      requires Valid()
      modifies this
      ensures Taken(old(Left()), this, r, ReadBlob(n, old(Left())))
    {
      if 0 <= n && index + n <= |data| {
        assert data[index..][..n] == data[index..index + n] && data[index..][n..] == data[index + n..];
        r := Some(data[index..index + n]);
        index := index + n;
      } else {
        r := None;
      }
    }

    /** packet_read_varint: what could be read, and how much that was. */
    method TakeVarint() returns (n: int, v: u32)
      requires Valid()
      modifies this
      ensures Valid()
      ensures match ReadVarInt(old(Left()))
        case VarIntOk(value, _, rest) => n > 0 && v == value && Left() == rest
        case VarIntEof(value) => n == 0 && v == value && Left() == []
        case VarIntTooLong(_) => n == Packet.PACKET_VARINT_TOO_LONG
    {
      hide ReadVarInt;
      var used;
      n, v, used := Packet.ReadVarintGen(data[index..]);
      assert data[index..][used..] == data[index + used..];
      index := index + used;
    }

    /** A byte is 0 at the end of the packet, and a VarInt what could be read of it. */
    method TakePrim(p: Prim) returns (r: Option<int>)
      requires Valid()
      modifies this
      ensures Taken(old(Left()), this, r, ReadPrim(p, old(Left())))
    {
      hide ReadVarInt, FromBigEndian;
      if p.PVarInt? {
        var n, v := TakeVarint();
        r := if n == Packet.PACKET_VARINT_TOO_LONG then None else Some(Signed(p, v));
      } else if p.Width() == 1 && index == |data| {
        r := Some(0);
      } else {
        var bs := TakeBlob(p.Width());
        r := if bs.None? then None else Some(Signed(p, FromBigEndian(bs.value)));
      }
    }

    method TakeString(max: nat) returns (r: Option<seq<byte>>)
      requires Valid()
      modifies this
      ensures Taken(old(Left()), this, r, Schema.ReadString(max, old(Left())))
    {
      hide ReadPrim;
      var len := TakePrim(PVarInt);
      if len.None? || len.value > max {
        return None;
      }
      r := TakeBlob(len.value);
    }

    method TakeNbt() returns (r: Option<Nbt.Root>)
      requires Valid()
      modifies this
      ensures Taken(old(Left()), this, r, Nbt.ParseRoot(old(Left())))
    {
      hide Nbt.ParseRoot;
      var u := NbtCodec.Unpack(data[index..]);
      if u.None? {
        return None;
      }
      assert data[index..][u.value.1..] == data[index + u.value.1..];
      index := index + u.value.1;
      r := Some(u.value.0);
    }

    /** packet_read_slot: each part is read only if the one before it was. */
    method TakeSlot() returns (r: Option<Slot>)
      requires Valid()
      modifies this
      ensures Taken(old(Left()), this, r, ReadSlot(old(Left())))
    {
      hide ReadVarInt, Nbt.ParseRoot;
      if index == |data| {
        return Some(Absent);
      }
      assert data[index..][1..] == data[index + 1..];
      var present := data[index] != 0;
      index := index + 1;
      if !present {
        return Some(Absent);
      }
      var n, v := TakeVarint();
      if n == Packet.PACKET_VARINT_TOO_LONG {
        return None;
      }
      var id := Signed(PVarInt, v);
      if n == 0 || index == |data| {
        return Some(Present(id, 0, None));
      }
      assert data[index..][1..] == data[index + 1..];
      var count := Signed(PByte, data[index]);
      index := index + 1;
      var root := TakeNbt();
      r := if root.None? then None else Some(Present(id, count, Some(root.value)));
    }
  }

  /** The reader returned r and left the source where p says. */
  ghost predicate Taken<T>(before: seq<byte>, s: Source, r: Option<T>, p: Option<(T, seq<byte>)>)
    reads s
  {
    && s.Valid()
    && match p
       case None => r.None?
       case Some((v, rest)) => r == Some(v) && s.Left() == rest
  }

  /** How often the loop over an array runs. */
  method CountNow(c: Count, env: Env) returns (n: Option<int>)
    ensures n == CountOf(c, env)
  {
    match c
    case Fixed(k) => n := Some(k);
    case FieldLen(r) => n := Lookup(env, r);
    case BitCount(r) =>
      var mask := Lookup(env, r);
      if mask.None? {
        n := None;
      } else {
        var bits := CountBits(mask.value);
        n := Some(bits);
      }
  }

  method TakeType(ty: Type, env: Env, s: Source) returns (r: Option<Value>)
    requires s.Valid()
    modifies s
    ensures Taken(old(s.Left()), s, r, ReadType(s.data, ty, env, old(s.Left())))
    decreases ty, 1
  {
    hide ReadPrim, Schema.ReadString, ReadSlot, ReadBlob, Nbt.ParseRoot, ReadElems, ReadFields;
    match ty
    case TPrim(p) =>
      var n := s.TakePrim(p);
      r := if n.None? then None else Some(Num(n.value));
    case TEnum(p, _) =>
      var n := s.TakePrim(p);
      r := if n.None? then None else Some(Num(n.value));
    case TLenOf(p) =>
      var n := s.TakePrim(p);
      r := if n.None? then None else Some(Num(n.value));
    case TString(max) =>
      var t := s.TakeString(max);
      r := if t.None? then None else Some(Text(t.value));
    case TStrEnum(max, _) =>
      var t := s.TakeString(max);
      r := if t.None? then None else Some(Text(t.value));
    case TChat => r := Some(Nothing);
    case TEmpty => r := Some(Nothing);
    case TUuid =>
      var bs := s.TakeBlob(16);
      r := if bs.None? then None else Some(Blob(bs.value));
    case TBytes(count) =>
      var n := CountNow(count, env);
      if n.None? { return None; }
      var bs := s.TakeBlob(n.value);
      r := if bs.None? then None else Some(Blob(bs.value));
    case TSlot =>
      var slot := s.TakeSlot();
      r := if slot.None? then None else Some(SlotVal(slot.value));
    case TNbt =>
      var root := s.TakeNbt();
      r := if root.None? then None else Some(Tree(root.value));
    case TTypedBytes(_, _) => r := None;
    case TArray(elem, count) =>
      var n := CountNow(count, env);
      if n.None? { return None; }
      var vs := TakeElems(elem, env, n.value, s);
      r := if vs.None? then None else Some(Arr(vs.value));
    case TStruct(fields) =>
      var vs := TakeFields(fields, env, s);
      r := if vs.None? then None else Some(Rec(vs.value));
    case TUnion(_, _, fields) =>
      var k := Branch(ty, env);
      if k.Some? {
        r := TakeType(fields[k.value].ty, [], s);
      } else {
        r := Some(Nothing);
      }
  }

  /** The loop over an array. */
  method TakeElems(elem: Type, env: Env, n: int, s: Source) returns (r: Option<seq<Value>>)
    requires s.Valid()
    modifies s
    ensures Taken(old(s.Left()), s, r, ReadElems(s.data, elem, env, n, old(s.Left())))
    decreases elem, 2
  {
    hide ReadType;
    var vs: seq<Value> := [];
    var i := 0;
    PrependNothing(ReadElems(s.data, elem, env, n, s.Left()));
    while i < n
      invariant 0 <= i && (i <= n || i == 0) && s.Valid()
      invariant (ReadElems(s.data, elem, env, n, old(s.Left()))
                 == Prepend(vs, ReadElems(s.data, elem, env, n - i, s.Left())))
    {
      ghost var before := s.Left();
      var v := TakeType(elem, env, s);
      if v.None? {
        return None;
      }
      PrependStep(vs, v.value, ReadElems(s.data, elem, env, n - i - 1, s.Left()));
      vs := vs + [v.value];
      i := i + 1;
    }
    assert vs + [] == vs;
    r := Some(vs);
  }

  /** The fields of a struct, one after the other. */
  method TakeFields(fs: seq<Field>, outer: Env, s: Source) returns (r: Option<seq<Value>>)
    requires s.Valid()
    modifies s
    ensures Taken(old(s.Left()), s, r, ReadFields(s.data, fs, [], outer, old(s.Left())))
    decreases fs, 1
  {
    hide ReadField;
    var frame: seq<Value> := [];
    var i := 0;
    assert fs[0..] == fs;
    while i < |fs|
      invariant 0 <= i <= |fs| && s.Valid()
      invariant ReadFields(s.data, fs, [], outer, old(s.Left())) == ReadFields(s.data, fs[i..], frame, outer, s.Left())
    {
      assert fs[i..][0] == fs[i] && fs[i..][1..] == fs[i + 1..];
      ghost var before := s.Left();
      var v := TakeField(fs[i], frame, outer, s);
      if v.None? {
        return None;
      }
      frame := frame + [v.value];
      i := i + 1;
    }
    r := Some(frame);
  }

  /** What ReadField does with a typed byte array, in terms of the index. */
  lemma {:induction false} BufferRead(data: seq<byte>, index: nat, f: Field, frame: seq<Value>, outer: Env, n: int,
          buf: seq<byte>)
    requires f.ty.TTypedBytes? && frame != [] && frame[|frame| - 1] == Num(n) && index <= |data|
    requires buf == if 0 <= n && index + n <= |data| then data[index..index + n] else []
    ensures ReadField(data, f, frame, outer, data[index..]) ==
            match ReadType(buf, f.ty.body, [Before(frame)] + outer, buf)
            case None => None
            case Some((v, _)) => if 0 <= index + n <= |data| then Some((v, data[index + n..])) else None
  {
    hide ReadType;
    var left := data[index..];
    assert 0 <= n <= |left| ==> left[..n] == buf && left[n..] == data[index + n..];
    assert |data| - |left| + n == index + n;
  }

  /** One field; the conditions are not looked at. */
  method TakeField(f: Field, frame: seq<Value>, outer: Env, s: Source) returns (r: Option<Value>)
    requires s.Valid()
    modifies s
    ensures Taken(old(s.Left()), s, r, ReadField(s.data, f, frame, outer, old(s.Left())))
    decreases f, 1
  {
    hide ReadType, ReadBlob;
    if !f.ty.TTypedBytes? {
      r := TakeType(f.ty, [frame] + outer, s);
    } else if frame == [] || !frame[|frame| - 1].Num? {
      r := None;
    } else {
      r := TakeBuffer(f, frame, outer, frame[|frame| - 1].n, s);
    }
  }

  /** A typed byte array is read from as many bytes as its length field says, and the
    * index then moves by as many, back if the length is negative. */
  method TakeBuffer(f: Field, frame: seq<Value>, outer: Env, n: int, s: Source) returns (r: Option<Value>)
    requires s.Valid() && f.ty.TTypedBytes? && frame != [] && frame[|frame| - 1] == Num(n)
    modifies s
    ensures Taken(old(s.Left()), s, r, ReadField(s.data, f, frame, outer, old(s.Left())))
    decreases f, 0
  {
    hide ReadType, ReadField;
    var buf := if 0 <= n && s.index + n <= |s.data| then s.data[s.index..s.index + n] else [];
    BufferRead(s.data, s.index, f, frame, outer, n, buf);
    var own := new Source(buf);
    r := TakeType(f.ty.body, [Before(frame)] + outer, own);
    if s.index + n < 0 || s.index + n > |s.data| {
      return None;
    }
    s.index := s.index + n;
  }

  /** A packet written by the one program and read by the other: if it is one that fits,
    * the reader returns what the writer left in the struct and has used every byte. */
  method WriteThenRead(id: int, fs: seq<Field>, vs: seq<Value>)
    returns (w: Outcome<seq<Value>>, r: Option<seq<Value>>, unread: nat)
    requires WellFormedFields(fs) && ConformsFields(fs, [], [], vs) && TransparentFields(fs, [], [], vs)
    requires WriteFields(fs, [], [], vs).Wrote?
    ensures Fits([id % 256] + WriteFields(fs, [], [], vs).bytes) ==>
      w == Done(WriteFields(fs, [], [], vs).left) && r == Some(w.left) && unread == 0
  {
    hide WriteFields, ReadFields, WellFormedFields, ConformsFields, TransparentFields;
    var out;
    out, w := EmitPacket(id, fs, vs);
    var p := out.packet;
    ghost var bs := WriteFields(fs, [], [], vs).bytes;
    var payload := if p.packetLen > 0 then p.data[1..p.packetLen] else [];
    var s := new Source(payload);
    r := TakeFields(fs, [], s);
    unread := |s.data| - s.index;
    if Fits([id % 256] + bs) {
      assert payload == p.Contents()[1..] == bs && bs + [] == bs;
      SchemaRoundTrip.FieldsRoundTrip(bs, fs, [], [], vs, []);
      assert s.Left() == [];
    }
  }
}
