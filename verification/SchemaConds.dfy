/** Values all of whose conditions hold, in particular those of schemas without
  * conditions: nothing of them is skipped. */
module SchemaConds {
  import opened Schema

  /** No condition anywhere inside. */
  predicate NoConds(ty: Type) {
    match ty
    case TArray(elem, _) => NoConds(elem)
    case TTypedBytes(_, body) => NoConds(body)
    case TStruct(fields) => NoCondsFields(fields)
    case TUnion(_, _, fields) => NoCondsFields(fields)
    case _ => true
  }

  predicate NoCondsFields(fs: seq<Field>) {
    forall k | 0 <= k < |fs| :: NoCondsField(fs[k])
  }

  predicate NoCondsField(f: Field) {
    f.cond.None? && NoConds(f.ty)
  }

  /** Every condition inside holds where the writer comes to it. */
  ghost predicate CondsHold(ty: Type, env: Env, v: Value)
    decreases ty, 0
  {
    match ty
    case TArray(elem, _) => v.Arr? ==> forall k | 0 <= k < |v.elems| :: CondsHold(elem, env, v.elems[k])
    case TStruct(fields) => v.Rec? ==> CondsHoldFields(fields, [], env, v.fields)
    case TUnion(_, _, fields) =>
      Branch(ty, env).Some? ==> CondsHoldBranch(fields[Branch(ty, env).value], v)
    case _ => true
  }

  ghost predicate CondsHoldBranch(f: Field, v: Value)
    decreases f, 0
  {
    CondsHold(f.ty, [], v)
  }

  ghost predicate CondsHoldFields(fs: seq<Field>, frame: seq<Value>, outer: Env, vs: seq<Value>)
    decreases fs, 1
  {
    fs != [] && vs != [] ==>
      && CondsHoldField(fs[0], frame, outer, vs[0])
      && match WriteField(fs[0], frame, outer, vs[0])
         case Refused(_) => true
         case Wrote(_, frame') => CondsHoldFields(fs[1..], frame', outer, vs[1..])
  }

  ghost predicate CondsHoldField(f: Field, frame: seq<Value>, outer: Env, v: Value)
    decreases f, 1
  {
    && CondHolds(f.cond, [frame] + outer)
    && if f.ty.TTypedBytes? then frame != [] ==> CondsHold(f.ty.body, [Before(frame)] + outer, v)
       else CondsHold(f.ty, [frame] + outer, v)
  }

  // ---- what holds is not skipped ------------------------------------------------------

  /** A conforming value all of whose conditions hold, at any depth, is one nothing of
    * which is skipped. */
  lemma {:induction false} CondsHoldTransparent(ty: Type, env: Env, v: Value)
    requires Conforms(ty, env, v) && CondsHold(ty, env, v)
    ensures Transparent(ty, env, v)
    decreases ty, 0
  {
    match ty
    case TArray(elem, _) =>
      forall k | 0 <= k < |v.elems| ensures Transparent(elem, env, v.elems[k]) {
        CondsHoldTransparent(elem, env, v.elems[k]);
      }
    case TStruct(fields) => FieldsTransparent(fields, [], env, v.fields);
    case TUnion(_, _, fields) =>
      if Branch(ty, env).Some? {
        BranchTransparent(fields[Branch(ty, env).value], v);
      }
    case _ =>
  }

  lemma {:induction false} BranchTransparent(f: Field, v: Value)
    requires ConformsBranch(f, v) && CondsHoldBranch(f, v)
    ensures TransparentBranch(f, v)
    decreases f, 0
  {
    CondsHoldTransparent(f.ty, [], v);
  }

  lemma {:induction false} FieldsTransparent(fs: seq<Field>, frame: seq<Value>, outer: Env, vs: seq<Value>)
    requires ConformsFields(fs, frame, outer, vs) && CondsHoldFields(fs, frame, outer, vs)
    ensures TransparentFields(fs, frame, outer, vs)
    decreases fs, 1
  {
    hide WriteField, ConformsField, CondsHoldField, TransparentField;
    if fs != [] {
      FieldTransparent(fs[0], frame, outer, vs[0]);
      match WriteField(fs[0], frame, outer, vs[0])
      case Refused(_) =>
      case Wrote(_, frame') => FieldsTransparent(fs[1..], frame', outer, vs[1..]);
    }
  }

  lemma {:induction false} FieldTransparent(f: Field, frame: seq<Value>, outer: Env, v: Value)
    requires ConformsField(f, frame, outer, v) && CondsHoldField(f, frame, outer, v)
    ensures TransparentField(f, frame, outer, v)
    decreases f, 0
  {
    if f.ty.TTypedBytes? {
      CondsHoldTransparent(f.ty.body, [Before(frame)] + outer, v);
    } else {
      CondsHoldTransparent(f.ty, [frame] + outer, v);
    }
  }

  // ---- without conditions they all hold --------------------------------------------------

  lemma {:induction false} NoCondsHold(ty: Type, env: Env, v: Value)
    requires NoConds(ty)
    ensures CondsHold(ty, env, v)
    decreases ty, 0
  {
    match ty
    case TArray(elem, _) =>
      if v.Arr? {
        forall k | 0 <= k < |v.elems| ensures CondsHold(elem, env, v.elems[k]) {
          NoCondsHold(elem, env, v.elems[k]);
        }
      }
    case TStruct(fields) =>
      if v.Rec? { NoCondsFieldsHold(fields, [], env, v.fields); }
    case TUnion(_, _, fields) =>
      if Branch(ty, env).Some? {
        assert NoCondsField(fields[Branch(ty, env).value]);
        NoCondsBranchHolds(fields[Branch(ty, env).value], v);
      }
    case _ =>
  }

  lemma {:induction false} NoCondsBranchHolds(f: Field, v: Value)
    requires NoCondsField(f)
    ensures CondsHoldBranch(f, v)
    decreases f, 0
  {
    NoCondsHold(f.ty, [], v);
  }

  lemma {:induction false} NoCondsFieldsHold(fs: seq<Field>, frame: seq<Value>, outer: Env, vs: seq<Value>)
    requires NoCondsFields(fs)
    ensures CondsHoldFields(fs, frame, outer, vs)
    decreases fs, 1
  {
    hide WriteField, CondsHoldField;
    if fs != [] && vs != [] {
      assert NoCondsField(fs[0]);
      NoCondsFieldHolds(fs[0], frame, outer, vs[0]);
      assert forall k | 0 <= k < |fs[1..]| :: fs[1..][k] == fs[k + 1];
      match WriteField(fs[0], frame, outer, vs[0])
      case Refused(_) =>
      case Wrote(_, frame') => NoCondsFieldsHold(fs[1..], frame', outer, vs[1..]);
    }
  }

  lemma {:induction false} NoCondsFieldHolds(f: Field, frame: seq<Value>, outer: Env, v: Value)
    requires NoConds(f.ty) && CondHolds(f.cond, [frame] + outer)
    ensures CondsHoldField(f, frame, outer, v)
    decreases f, 0
  {
    if f.ty.TTypedBytes? {
      if frame != [] { NoCondsHold(f.ty.body, [Before(frame)] + outer, v); }
    } else {
      NoCondsHold(f.ty, [frame] + outer, v);
    }
  }
}
