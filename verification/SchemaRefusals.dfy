/** Which values the emitted writers refuse, and with which error. A writer looks at
  * strings only: at their length, and in an enum of strings at whether they are one of
  * its constants. What is not written, it does not look at. */
module SchemaRefusals {
  import opened Bytes
  import opened Schema

  const CHAT_MAX := 262144

  // ---- the values that are written ---------------------------------------------------------

  /** Every string that is written is short enough, and a constant where it has to be. */
  ghost predicate Admitted(ty: Type, env: Env, v: Value)
    decreases ty, 0
  {
    match ty
    case TString(max) => v.Text? ==> |v.s| <= max
    case TChat => v.Text? ==> |v.s| <= CHAT_MAX
    case TStrEnum(max, values) => v.Text? ==> v.s in values && |v.s| <= max
    case TArray(elem, _) => v.Arr? ==> forall k | 0 <= k < |v.elems| :: Admitted(elem, env, v.elems[k])
    case TStruct(fields) => v.Rec? ==> AdmittedFields(fields, [], env, v.fields)
    case TUnion(_, _, fields) =>
      Branch(ty, env).Some? ==> AdmittedBranch(fields[Branch(ty, env).value], v)
    case _ => true
  }

  ghost predicate AdmittedBranch(f: Field, v: Value)
    decreases f, 0
  {
    Admitted(f.ty, [], v)
  }

  ghost predicate AdmittedFields(fs: seq<Field>, frame: seq<Value>, outer: Env, vs: seq<Value>)
    decreases fs, 1
  {
    fs != [] && vs != [] ==>
      && AdmittedField(fs[0], frame, outer, vs[0])
      && match WriteField(fs[0], frame, outer, vs[0])
         case Refused(_) => false
         case Wrote(_, frame') => AdmittedFields(fs[1..], frame', outer, vs[1..])
  }

  ghost predicate AdmittedField(f: Field, frame: seq<Value>, outer: Env, v: Value)
    decreases f, 1
  {
    CondHolds(f.cond, [frame] + outer) ==>
      if f.ty.TTypedBytes? && frame != [] then Admitted(f.ty.body, [Before(frame)] + outer, v)
      else Admitted(f.ty, [frame] + outer, v)
  }

  /** A value is written exactly when each string of it that is written is admitted. */
  lemma {:induction false} WrittenIffAdmitted(ty: Type, env: Env, v: Value)
    ensures WriteType(ty, env, v).Wrote? <==> Admitted(ty, env, v)
    decreases ty, 0
  {
    match ty
    case TArray(elem, _) =>
      if v.Arr? { ElemsIffAdmitted(elem, env, v.elems); }
    case TStruct(fields) =>
      if v.Rec? { FieldsIffAdmitted(fields, [], env, v.fields); }
    case TUnion(_, _, fields) =>
      if Branch(ty, env).Some? { BranchIffAdmitted(fields[Branch(ty, env).value], v); }
    case _ =>
  }

  lemma {:induction false} BranchIffAdmitted(f: Field, v: Value)
    ensures WriteBranch(f, v).Wrote? <==> AdmittedBranch(f, v)
    decreases f, 0
  {
    WrittenIffAdmitted(f.ty, [], v);
  }

  lemma {:induction false} ElemsIffAdmitted(elem: Type, env: Env, vs: seq<Value>)
    ensures WriteElems(elem, env, vs).Wrote? <==> forall k | 0 <= k < |vs| :: Admitted(elem, env, vs[k])
    decreases elem, 1, |vs|
  {
    hide WriteType, Admitted;
    if vs != [] {
      WrittenIffAdmitted(elem, env, vs[0]);
      ElemsIffAdmitted(elem, env, vs[1..]);
      assert forall k | 0 < k < |vs| :: vs[k] == vs[1..][k - 1];
      assert forall k | 0 <= k < |vs[1..]| :: vs[1..][k] == vs[k + 1];
    }
  }

  lemma {:induction false} FieldsIffAdmitted(fs: seq<Field>, frame: seq<Value>, outer: Env, vs: seq<Value>)
    ensures WriteFields(fs, frame, outer, vs).Wrote? <==> AdmittedFields(fs, frame, outer, vs)
    decreases fs, 1
  {
    hide WriteField, AdmittedField;
    if fs != [] && vs != [] {
      FieldIffAdmitted(fs[0], frame, outer, vs[0]);
      match WriteField(fs[0], frame, outer, vs[0])
      case Refused(_) =>
      case Wrote(_, frame') => FieldsIffAdmitted(fs[1..], frame', outer, vs[1..]);
    }
  }

  lemma {:induction false} FieldIffAdmitted(f: Field, frame: seq<Value>, outer: Env, v: Value)
    ensures WriteField(f, frame, outer, v).Wrote? <==> AdmittedField(f, frame, outer, v)
    decreases f, 0
  {
    if f.ty.TTypedBytes? && frame != [] {
      WrittenIffAdmitted(f.ty.body, [Before(frame)] + outer, v);
    } else {
      WrittenIffAdmitted(f.ty, [frame] + outer, v);
    }
  }

  // ---- the error ------------------------------------------------------------------------------

  /** The first string in the order of writing that is not admitted is no constant of its
    * enum, or else it is too long. */
  ghost predicate Faulty(ty: Type, env: Env, v: Value, e: InputErr)
    decreases ty, 0
  {
    match ty
    case TString(max) => v.Text? && |v.s| > max && e == BadLength
    case TChat => v.Text? && |v.s| > CHAT_MAX && e == BadLength
    case TStrEnum(max, values) =>
      && v.Text?
      && if e == BadEnumConstant then v.s !in values else v.s in values && |v.s| > max
    case TArray(elem, _) =>
      v.Arr? && exists k | 0 <= k < |v.elems| ::
        Faulty(elem, env, v.elems[k], e) && forall j | 0 <= j < k :: Admitted(elem, env, v.elems[j])
    case TStruct(fields) => v.Rec? && FaultyFields(fields, [], env, v.fields, e)
    case TUnion(_, _, fields) =>
      Branch(ty, env).Some? && FaultyBranch(fields[Branch(ty, env).value], v, e)
    case _ => false
  }

  ghost predicate FaultyBranch(f: Field, v: Value, e: InputErr)
    decreases f, 0
  {
    Faulty(f.ty, [], v, e)
  }

  ghost predicate FaultyFields(fs: seq<Field>, frame: seq<Value>, outer: Env, vs: seq<Value>, e: InputErr)
    decreases fs, 1
  {
    && fs != [] && vs != []
    && (|| FaultyField(fs[0], frame, outer, vs[0], e)
        || match WriteField(fs[0], frame, outer, vs[0])
           case Refused(_) => false
           case Wrote(_, frame') => FaultyFields(fs[1..], frame', outer, vs[1..], e))
  }

  ghost predicate FaultyField(f: Field, frame: seq<Value>, outer: Env, v: Value, e: InputErr)
    decreases f, 1
  {
    && CondHolds(f.cond, [frame] + outer)
    && if f.ty.TTypedBytes? && frame != [] then Faulty(f.ty.body, [Before(frame)] + outer, v, e)
       else Faulty(f.ty, [frame] + outer, v, e)
  }

  /** A value is refused with an error exactly when its first fault is that one. */
  lemma {:induction false} RefusedIffFaulty(ty: Type, env: Env, v: Value, e: InputErr)
    ensures WriteType(ty, env, v) == Refused(e) <==> Faulty(ty, env, v, e)
    decreases ty, 0
  {
    match ty
    case TArray(elem, _) =>
      if v.Arr? { ElemsIffFaulty(elem, env, v.elems, e); }
    case TStruct(fields) =>
      if v.Rec? { FieldsIffFaulty(fields, [], env, v.fields, e); }
    case TUnion(_, _, fields) =>
      if Branch(ty, env).Some? { BranchIffFaulty(fields[Branch(ty, env).value], v, e); }
    case _ =>
  }

  lemma {:induction false} BranchIffFaulty(f: Field, v: Value, e: InputErr)
    ensures WriteBranch(f, v) == Refused(e) <==> FaultyBranch(f, v, e)
    decreases f, 0
  {
    RefusedIffFaulty(f.ty, [], v, e);
  }

  /** The loop over an array stops at its first element that is refused. */
  lemma {:induction false} ElemsIffFaulty(elem: Type, env: Env, vs: seq<Value>, e: InputErr)
    ensures WriteElems(elem, env, vs) == Refused(e)
       <==> exists k | 0 <= k < |vs| ::
              Faulty(elem, env, vs[k], e) && forall j | 0 <= j < k :: Admitted(elem, env, vs[j])
    decreases elem, 1, |vs|
  {
    hide WriteType, Admitted, Faulty;
    if vs != [] {
      var rest := vs[1..];
      RefusedIffFaulty(elem, env, vs[0], e);
      WrittenIffAdmitted(elem, env, vs[0]);
      ElemsIffFaulty(elem, env, rest, e);
      assert forall k | 0 < k < |vs| :: vs[k] == rest[k - 1];
      assert forall k | 0 <= k < |rest| :: rest[k] == vs[k + 1];
      if k :| 0 <= k < |rest| && Faulty(elem, env, rest[k], e) && forall j | 0 <= j < k :: Admitted(elem, env, rest[j])
      {
        assert Admitted(elem, env, vs[0]) ==> Faulty(elem, env, vs[k + 1], e);
      }
    }
  }

  lemma {:induction false} FieldsIffFaulty(fs: seq<Field>, frame: seq<Value>, outer: Env, vs: seq<Value>, e: InputErr)
    ensures WriteFields(fs, frame, outer, vs) == Refused(e) <==> FaultyFields(fs, frame, outer, vs, e)
    decreases fs, 1
  {
    hide WriteField, FaultyField;
    if fs != [] && vs != [] {
      FieldIffFaulty(fs[0], frame, outer, vs[0], e);
      match WriteField(fs[0], frame, outer, vs[0])
      case Refused(_) =>
      case Wrote(_, frame') => FieldsIffFaulty(fs[1..], frame', outer, vs[1..], e);
    }
  }

  lemma {:induction false} FieldIffFaulty(f: Field, frame: seq<Value>, outer: Env, v: Value, e: InputErr)
    ensures WriteField(f, frame, outer, v) == Refused(e) <==> FaultyField(f, frame, outer, v, e)
    decreases f, 0
  {
    if f.ty.TTypedBytes? && frame != [] {
      RefusedIffFaulty(f.ty.body, [Before(frame)] + outer, v, e);
    } else {
      RefusedIffFaulty(f.ty, [frame] + outer, v, e);
    }
  }

  // ---- enumerators ----------------------------------------------------------------------------

  /** Enumerators without values are numbered from 0. */
  lemma {:induction false} PlainConstants(consts: seq<EnumConst>, k: nat)
    requires k < |consts| && forall j | 0 <= j <= k :: consts[j].value.None?
    ensures ConstValue(consts, k) == k
  {
    if k > 0 { PlainConstants(consts, k - 1); }
  }

  /** From one with a value they are numbered on from it. */
  lemma {:induction false} ConstantsAfter(consts: seq<EnumConst>, i: nat, k: nat)
    requires i <= k < |consts| && consts[i].value.Some? && forall j | i < j <= k :: consts[j].value.None?
    ensures ConstValue(consts, k) == consts[i].value.value + (k - i)
  {
    if k > i { ConstantsAfter(consts, i, k - 1); }
  }
}
