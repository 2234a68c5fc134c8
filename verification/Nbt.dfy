/** The NBT codec: trees, their binary form, the length pass and the parser.
  * Numbers and floats are carried as raw bit patterns. */
module Nbt {
  import opened Bytes

  const TAG_END: byte := 0
  const TAG_LIST: byte := 9
  const TAG_COMPOUND: byte := 10

  datatype ScalarKind = TByte | TShort | TInt | TLong | TFloat | TDouble {
    function Tag(): byte {
      match this
      case TByte => 1 case TShort => 2 case TInt => 3
      case TLong => 4 case TFloat => 5 case TDouble => 6
    }
    function Width(): nat {
      match this
      case TByte => 1 case TShort => 2 case TInt => 4
      case TLong => 8 case TFloat => 4 case TDouble => 8
    }
  }

  datatype ArrayKind = TByteArray | TIntArray | TLongArray {
    function Tag(): byte {
      match this
      case TByteArray => 7 case TIntArray => 11 case TLongArray => 12
    }
    function Width(): nat {
      match this
      case TByteArray => 1 case TIntArray => 4 case TLongArray => 8
    }
  }

  /** A char pointer: NULL, or the bytes before the terminator. */
  type CStr = Option<seq<byte>>

  datatype Node =
    | Scalar(sk: ScalarKind, bits: nat)
    | Array(ak: ArrayKind, elems: seq<nat>)
    | Text(text: CStr)
    | List(elemTag: byte, items: seq<Node>)
    | Compound(children: seq<Child>)

  datatype Child = Child(name: CStr, node: Node)

  function TagOf(n: Node): byte {
    match n
    case Scalar(sk, _) => sk.Tag()
    case Array(ak, _) => ak.Tag()
    case Text(_) => 8
    case List(_, _) => TAG_LIST
    case Compound(_) => TAG_COMPOUND
  }

  function ScalarOf(tag: byte): (k: Option<ScalarKind>)
    ensures k.Some? ==> k.value.Tag() == tag
    ensures k.None? ==> !(1 <= tag <= 6)
  {
    match tag
    case 1 => Some(TByte) case 2 => Some(TShort) case 3 => Some(TInt)
    case 4 => Some(TLong) case 5 => Some(TFloat) case 6 => Some(TDouble)
    case _ => None
  }

  function ArrayOf(tag: byte): (k: Option<ArrayKind>)
    ensures k.Some? ==> k.value.Tag() == tag
    ensures k.None? ==> tag !in {7, 11, 12}
  {
    match tag
    case 7 => Some(TByteArray) case 11 => Some(TIntArray) case 12 => Some(TLongArray)
    case _ => None
  }

  // ---- the length pass --------------------------------------------------

  /** What nbt_node_len dereferences: no NULL string, and int-sized array products. */
  ghost predicate Measurable(n: Node)
  {
    match n
    case Scalar(_, _) => true
    case Array(ak, elems) => 4 + ak.Width() * |elems| < 0x8000_0000
    case Text(t) => t.Some?
    case List(_, items) => forall k | 0 <= k < |items| :: Measurable(items[k])
    case Compound(cs) => AllMeasurable(cs)
  }

  ghost predicate AllMeasurable(cs: seq<Child>)
  {
    forall k | 0 <= k < |cs| :: ChildMeasurable(cs[k])
  }

  ghost predicate ChildMeasurable(c: Child)
  {
    c.name.Some? && Measurable(c.node)
  }

  function DataLen(n: Node): nat
    requires Measurable(n)
  {
    match n
    case Scalar(sk, _) => sk.Width()
    case Array(ak, elems) => 4 + ak.Width() * |elems|
    case Text(t) => 2 + |t.value|
    case List(_, items) => 5 + ItemsLen(items)
    case Compound(cs) => ChildrenLen(cs) + 1
  }

  function ItemsLen(items: seq<Node>): nat
    requires forall k | 0 <= k < |items| :: Measurable(items[k])
  {
    if items == [] then 0 else DataLen(items[0]) + ItemsLen(items[1..])
  }

  function ChildrenLen(cs: seq<Child>): nat
    requires AllMeasurable(cs)
  {
    if cs == [] then 0
    else ChildLen(cs[0]) + ChildrenLen(cs[1..])
  }

  function ChildLen(c: Child): nat
    requires ChildMeasurable(c)
  {
    3 + |c.name.value| + DataLen(c.node)
  }

  // ---- packing ----------------------------------------------------------

  function PackString(s: CStr): seq<byte> {
    match s
    case None => BigEndian(0, 2)
    case Some(t) => BigEndian(|t|, 2) + t
  }

  function PackElems(elems: seq<nat>, w: nat): (bs: seq<byte>)
    ensures |bs| == w * |elems|
  {
    if elems == [] then [] else BigEndian(elems[0], w) + PackElems(elems[1..], w)
  }

  function PackData(n: Node): seq<byte>
  {
    match n
    case Scalar(sk, bits) => BigEndian(bits, sk.Width())
    case Array(ak, elems) => BigEndian(|elems|, 4) + PackElems(elems, ak.Width())
    case Text(t) => PackString(t)
    case List(tag, items) => [tag] + BigEndian(|items|, 4) + PackItems(items)
    case Compound(cs) => PackChildren(cs)
  }

  function PackItems(items: seq<Node>): seq<byte>
  {
    if items == [] then [] else PackData(items[0]) + PackItems(items[1..])
  }

  /** The children of a compound and its closing TAG_End. */
  function PackChildren(cs: seq<Child>): (bs: seq<byte>)
    ensures bs != []
  {
    if cs == [] then [TAG_END] else PackChild(cs[0]) + PackChildren(cs[1..])
  }

  function PackChild(c: Child): seq<byte>
  {
    [TagOf(c.node)] + PackString(c.name) + PackData(c.node)
  }

  /** The length pass agrees with the packing pass on every tree it can measure. */
  lemma {:induction false} LengthPassAgrees(n: Node)
    requires Measurable(n)
    ensures |PackData(n)| == DataLen(n)
    decreases n, 1
  {
    match n
    case List(_, items) => ItemsLengthAgrees(items);
    case Compound(cs) => ChildrenLengthAgrees(cs);
    case _ =>
  }

  lemma {:induction false} ItemsLengthAgrees(items: seq<Node>)
    requires forall k | 0 <= k < |items| :: Measurable(items[k])
    ensures |PackItems(items)| == ItemsLen(items)
    decreases items, 0
  {
    if items != [] {
      LengthPassAgrees(items[0]);
      ItemsLengthAgrees(items[1..]);
    }
  }

  lemma {:induction false} ChildrenLengthAgrees(cs: seq<Child>)
    requires AllMeasurable(cs)
    ensures |PackChildren(cs)| == ChildrenLen(cs) + 1
    decreases cs, 0
  {
    if cs != [] {
      ChildLengthAgrees(cs[0]);
      ChildrenLengthAgrees(cs[1..]);
    }
  }

  lemma {:induction false} ChildLengthAgrees(c: Child)
    requires ChildMeasurable(c)
    ensures |PackChild(c)| == ChildLen(c)
    decreases c, 0
  {
    LengthPassAgrees(c.node);
  }

  // ---- parsing ----------------------------------------------------------

  /** nbt_read_bytes: the bytes must be followed by at least one more. */
  function Take(n: nat, input: seq<byte>): Option<(seq<byte>, seq<byte>)> {
    if n < |input| then Some((input[..n], input[n..])) else None
  }

  function ParseWord(w: nat, input: seq<byte>): (r: Option<(nat, seq<byte>)>)
    ensures r.Some? ==> |r.value.1| + w == |input| && r.value.1 != []
  {
    match Take(w, input)
    case None => None
    case Some((bs, rest)) => Some((FromBigEndian(bs), rest))
  }

  function ParseString(input: seq<byte>): (r: Option<(CStr, seq<byte>)>)
    ensures r.Some? ==> |r.value.1| + 2 <= |input| && r.value.1 != []
  {
    match ParseWord(2, input)
    case None => None
    case Some((len, rest)) =>
      if len == 0 then Some((None, rest))
      else
        match Take(len, rest)
        case None => None
        case Some((bs, rest')) => Some((Some(bs), rest'))
  }

  function ParseElems(w: nat, bs: seq<byte>): seq<nat>
    requires w > 0
  {
    if |bs| < w then [] else [FromBigEndian(bs[..w])] + ParseElems(w, bs[w..])
  }

  function ParseArray(ak: ArrayKind, input: seq<byte>): (r: Option<(Node, seq<byte>)>)
    ensures r.Some? ==> |r.value.1| + 4 <= |input| && r.value.1 != []
  {
    match ParseWord(4, input)
    case None => None
    case Some((len, rest)) =>
      if len >= 0x8000_0000 then None
      else
        match Take(len * ak.Width(), rest)
        case None => None
        case Some((bs, rest')) => Some((Array(ak, ParseElems(ak.Width(), bs)), rest'))
  }

  /** The payload of a node with the given tag (nbt_unpack_node_data). */
  function ParseData(tag: byte, input: seq<byte>): (r: Option<(Node, seq<byte>)>)
    ensures r.Some? ==> |r.value.1| < |input|
    decreases |input|, 1, 0
  {
    if ScalarOf(tag).Some? then
      match ParseWord(ScalarOf(tag).value.Width(), input)
      case None => None
      case Some((v, rest)) => Some((Scalar(ScalarOf(tag).value, v), rest))
    else if ArrayOf(tag).Some? then ParseArray(ArrayOf(tag).value, input)
    else if tag == 8 then
      match ParseString(input)
      case None => None
      case Some((s, rest)) => Some((Text(s), rest))
    else if tag == TAG_LIST then
      if input == [] then None
      else
        match ParseWord(4, input[1..])
        case None => None
        case Some((count, rest)) =>
          if count >= 0x8000 then None
          else
            match ParseItems(input[0], count, rest)
            case None => None
            case Some((items, rest')) => Some((List(input[0], items), rest'))
    else if tag == TAG_COMPOUND then
      match ParseChildren(input)
      case None => None
      case Some((cs, rest)) => Some((Compound(cs), rest))
    else None
  }

  /** The loop of nbt_read_list. */
  function ParseItems(tag: byte, count: nat, input: seq<byte>): (r: Option<(seq<Node>, seq<byte>)>)
    ensures r.Some? ==> |r.value.1| <= |input|
    decreases |input|, 2, count
  {
    if count == 0 then Some(([], input))
    else
      match ParseData(tag, input)
      case None => None
      case Some((n, rest)) =>
        match ParseItems(tag, count - 1, rest)
        case None => None
        case Some((ns, rest')) => Some(([n] + ns, rest'))
  }

  /** The loop of nbt_unpack_node, past the closing TAG_End. */
  function ParseChildren(input: seq<byte>): (r: Option<(seq<Child>, seq<byte>)>)
    ensures r.Some? ==> |r.value.1| < |input|
    decreases |input|, 0, 0
  {
    if input == [] then None
    else if input[0] == TAG_END then Some(([], input[1..]))
    else
      match ParseChild(input)
      case None => None
      case Some((c, rest)) =>
        match ParseChildren(rest)
        case None => None
        case Some((cs, rest')) => Some(([c] + cs, rest'))
  }

  /** One iteration of that loop: tag, name, payload. */
  function ParseChild(input: seq<byte>): (r: Option<(Child, seq<byte>)>)
    requires input != []
    ensures r.Some? ==> |r.value.1| < |input|
    decreases |input| - 1, 2, 0
  {
    match ParseString(input[1..])
    case None => None
    case Some((name, rest)) =>
      match ParseData(input[0], rest)
      case None => None
      case Some((n, rest')) => Some((Child(name, n), rest'))
  }

  // ---- round trip ---------------------------------------------------------

  ghost predicate GoodString(s: CStr) {
    s.Some? && 0 < |s.value| <= 65535 && 0 !in s.value
  }

  /** The trees whose packed form the parser promises to read back. */
  ghost predicate InDomain(n: Node)
  {
    match n
    case Scalar(sk, bits) => bits < Pow256(sk.Width())
    case Array(ak, elems) =>
      4 + ak.Width() * |elems| < 0x8000_0000 && forall k | 0 <= k < |elems| :: elems[k] < Pow256(ak.Width())
    case Text(t) => GoodString(t)
    case List(tag, items) =>
      |items| <= 32767 && forall k | 0 <= k < |items| :: TagOf(items[k]) == tag && InDomain(items[k])
    case Compound(cs) => AllInDomain(cs)
  }

  ghost predicate AllInDomain(cs: seq<Child>)
  {
    forall k | 0 <= k < |cs| :: ChildInDomain(cs[k])
  }

  ghost predicate ChildInDomain(c: Child)
  {
    GoodString(c.name) && InDomain(c.node)
  }

  lemma {:induction false} Pow256Values()
    ensures Pow256(2) == 0x1_0000 && Pow256(4) == 0x1_0000_0000
  {
    assert Pow256(1) == 256;
    assert Pow256(3) == 256 * Pow256(2);
  }

  lemma {:induction false} WordReadsBack(v: nat, w: nat, rest: seq<byte>)
    requires v < Pow256(w) && rest != []
    ensures ParseWord(w, BigEndian(v, w) + rest) == Some((v, rest))
  {
    TakeExactly(BigEndian(v, w), rest);
    BigEndianRoundTrip(v, w);
  }

  lemma {:induction false} StringReadsBack(s: CStr, rest: seq<byte>)
    requires s.None? || GoodString(s)
    requires rest != []
    ensures ParseString(PackString(s) + rest) == Some((s, rest))
  {
    Pow256Values();
    match s
    case None => WordReadsBack(0, 2, rest);
    case Some(t) =>
      assert BigEndian(|t|, 2) + t + rest == BigEndian(|t|, 2) + (t + rest);
      WordReadsBack(|t|, 2, t + rest);
      TakeExactly(t, rest);
  }

  lemma {:induction false} ElemsReadBack(elems: seq<nat>, w: nat)
    requires w > 0 && forall k | 0 <= k < |elems| :: elems[k] < Pow256(w)
    ensures ParseElems(w, PackElems(elems, w)) == elems
  {
    if elems != [] {
      var e, es := elems[0], elems[1..];
      BigEndianRoundTrip(e, w);
      ElemsReadBack(es, w);
      var bs := BigEndian(e, w) + PackElems(es, w);
      assert bs[..w] == BigEndian(e, w) && bs[w..] == PackElems(es, w);
      assert elems == [e] + es;
    }
  }

  lemma {:induction false} TakeExactly(bs: seq<byte>, rest: seq<byte>)
    requires rest != []
    ensures Take(|bs|, bs + rest) == Some((bs, rest))
  {
    assert (bs + rest)[..|bs|] == bs && (bs + rest)[|bs|..] == rest;
  }

  lemma {:induction false} ArrayReadsBack(ak: ArrayKind, elems: seq<nat>, rest: seq<byte>)
    requires InDomain(Array(ak, elems)) && rest != []
    ensures ParseArray(ak, PackData(Array(ak, elems)) + rest) == Some((Array(ak, elems), rest))
  {
    var len, body := BigEndian(|elems|, 4), PackElems(elems, ak.Width());
    Pow256Values();
    assert len + body + rest == len + (body + rest);
    WordReadsBack(|elems|, 4, body + rest);
    TakeExactly(body, rest);
    ElemsReadBack(elems, ak.Width());
  }

  /** Parsing the packed payload of a tree, followed by anything non-empty,
    * gives back the tree and stops exactly where the payload ends. */
  lemma {:induction false} DataRoundTrip(n: Node, rest: seq<byte>)
    requires InDomain(n) && (rest != [] || n.Compound?)
    ensures ParseData(TagOf(n), PackData(n) + rest) == Some((n, rest))
    decreases n, 1
  {
    match n
    case Scalar(sk, bits) => ScalarReadsBack(sk, bits, rest);
    case Array(ak, elems) => ArrayReadsBack(ak, elems, rest);
    case Text(t) => StringReadsBack(t, rest);
    case List(tag, items) =>
      ListHeader(tag, items, rest);
      ItemsRoundTrip(tag, items, rest);
      ListStep(PackData(n) + rest, items, rest);
    case Compound(cs) => ChildrenRoundTrip(cs, rest);
  }

  lemma {:induction false} ScalarReadsBack(sk: ScalarKind, bits: nat, rest: seq<byte>)
    requires bits < Pow256(sk.Width()) && rest != []
    ensures ParseData(sk.Tag(), BigEndian(bits, sk.Width()) + rest) == Some((Scalar(sk, bits), rest))
  {
    WordReadsBack(bits, sk.Width(), rest);
  }

  lemma {:induction false} ListStep(input: seq<byte>, items: seq<Node>, rest: seq<byte>)
    requires input != [] && |items| < 0x8000
    requires ParseWord(4, input[1..]).Some? && ParseWord(4, input[1..]).value.0 == |items|
    requires ParseItems(input[0], |items|, ParseWord(4, input[1..]).value.1) == Some((items, rest))
    ensures ParseData(TAG_LIST, input) == Some((List(input[0], items), rest))
  {
  }

  lemma {:induction false} TaggedWordReadsBack(tag: byte, v: nat, w: nat, rest: seq<byte>)
    requires v < Pow256(w) && rest != []
    ensures ([tag] + BigEndian(v, w) + rest)[0] == tag
    ensures ParseWord(w, ([tag] + BigEndian(v, w) + rest)[1..]) == Some((v, rest))
  {
    assert ([tag] + BigEndian(v, w) + rest)[1..] == BigEndian(v, w) + rest;
    WordReadsBack(v, w, rest);
  }

  lemma {:induction false} ListHeader(tag: byte, items: seq<Node>, rest: seq<byte>)
    requires |items| <= 32767 && rest != []
    ensures var bs := PackData(List(tag, items)) + rest;
      bs[0] == tag && ParseWord(4, bs[1..]) == Some((|items|, PackItems(items) + rest))
  {
    var header, body := [tag] + BigEndian(|items|, 4), PackItems(items);
    assert header + body + rest == header + (body + rest);
    Pow256Values();
    TaggedWordReadsBack(tag, |items|, 4, body + rest);
  }

  lemma {:induction false} ItemsRoundTrip(tag: byte, items: seq<Node>, rest: seq<byte>)
    requires forall k | 0 <= k < |items| :: TagOf(items[k]) == tag && InDomain(items[k])
    requires rest != []
    ensures ParseItems(tag, |items|, PackItems(items) + rest) == Some((items, rest))
    decreases items, 0
  {
    hide PackData, ParseData, InDomain;
    if items == [] {
      assert PackItems(items) + rest == rest;
    } else {
      var tail := PackItems(items[1..]) + rest;
      assert PackItems(items) + rest == PackData(items[0]) + tail;
      DataRoundTrip(items[0], tail);
      ItemsRoundTrip(tag, items[1..], rest);
      assert items == [items[0]] + items[1..];
    }
  }

  lemma {:induction false} ChildrenRoundTrip(cs: seq<Child>, rest: seq<byte>)
    requires AllInDomain(cs)
    ensures ParseChildren(PackChildren(cs) + rest) == Some((cs, rest))
    decreases cs, 0
  {
    if cs == [] {
      assert (PackChildren(cs) + rest)[1..] == rest;
    } else {
      var c, cs' := cs[0], cs[1..];
      var tail := PackChildren(cs') + rest;
      assert PackChild(c) + PackChildren(cs') + rest == PackChild(c) + tail;
      assert AllInDomain(cs') by {
        forall k | 0 <= k < |cs'| ensures ChildInDomain(cs'[k]) { assert cs'[k] == cs[k + 1]; }
      }
      ChildRoundTrip(c, tail);
      ChildrenRoundTrip(cs', rest);
      ChildrenStep(PackChild(c) + tail, c, tail, cs', rest);
      assert cs == [c] + cs';
    }
  }

  lemma {:induction false} ChildrenStep(input: seq<byte>, c: Child, tail: seq<byte>, cs: seq<Child>, rest: seq<byte>)
    requires input != [] && input[0] != TAG_END
    requires ParseChild(input) == Some((c, tail))
    requires ParseChildren(tail) == Some((cs, rest))
    ensures ParseChildren(input) == Some(([c] + cs, rest))
  {
  }

  lemma {:induction false} ChildRoundTrip(c: Child, rest: seq<byte>)
    requires ChildInDomain(c) && rest != []
    ensures PackChild(c)[0] != TAG_END
    ensures ParseChild(PackChild(c) + rest) == Some((c, rest))
    decreases c, 0
  {
    var body := PackData(c.node) + rest;
    var bs := PackChild(c) + rest;
    assert bs == [TagOf(c.node)] + (PackString(c.name) + body);
    assert bs[1..] == PackString(c.name) + body;
    StringReadsBack(c.name, body);
    DataRoundTrip(c.node, rest);
  }

  // ---- whole documents ------------------------------------------------------

  /** A root: a node and its name. */
  datatype Root = Root(name: CStr, node: Node)

  function PackRoot(r: Root): seq<byte>
  {
    if r.node.Compound? then
      [TAG_COMPOUND] + PackString(r.name) + PackChildren(r.node.children)
    else
      [TAG_COMPOUND] + BigEndian(0, 2) + PackChild(Child(r.name, r.node)) + [TAG_END]
  }

  /** What reading a packed root yields: a compound. */
  function AsCompound(r: Root): (c: Root)
    ensures c.node.Compound?
    ensures r.node.Compound? ==> c == r
  {
    if r.node.Compound? then r else Root(None, Compound([Child(r.name, r.node)]))
  }

  function ParseRoot(input: seq<byte>): Option<(Root, seq<byte>)>
  {
    if input == [] then None
    else if input[0] == TAG_COMPOUND then
      match ParseString(input[1..])
      case None => None
      case Some((name, rest)) =>
        match ParseChildren(rest)
        case None => None
        case Some((cs, rest')) => Some((Root(name, Compound(cs)), rest'))
    else
      match ParseChildren(input)
      case None => None
      case Some((cs, rest)) => Some((Root(None, Compound(cs)), rest))
  }

  ghost predicate RootInDomain(r: Root) {
    InDomain(r.node) && (GoodString(r.name) || (r.node.Compound? && r.name.None?))
  }

  /** nbt_unpack after nbt_pack: the same tree, and the bytes consumed are
    * exactly those packed; a root that is not a compound comes back as the
    * only child of an unnamed compound. */
  lemma {:induction false} RootRoundTrip(r: Root, rest: seq<byte>)
    requires RootInDomain(r)
    ensures ParseRoot(PackRoot(r) + rest) == Some((AsCompound(r), rest))
  {
    var c := AsCompound(r);
    PackRootAsCompound(r);
    RootInDomainAsCompound(r);
    CompoundRoundTrip(c.name, c.node.children, rest);
  }

  lemma {:induction false} CompoundRoundTrip(name: CStr, cs: seq<Child>, rest: seq<byte>)
    requires name.None? || GoodString(name)
    requires AllInDomain(cs)
    ensures ParseRoot([TAG_COMPOUND] + PackString(name) + PackChildren(cs) + rest)
         == Some((Root(name, Compound(cs)), rest))
  {
    var str, body := PackString(name), PackChildren(cs);
    StringReadsBack(name, body + rest);
    ChildrenRoundTrip(cs, rest);
    Assoc4([TAG_COMPOUND], str, body, rest);
    RootStep([TAG_COMPOUND] + (str + (body + rest)), str + (body + rest), Root(name, Compound(cs)), body + rest, rest);
  }

  lemma {:induction false} RootStep(input: seq<byte>, tail: seq<byte>, c: Root, body: seq<byte>, rest: seq<byte>)
    requires c.node.Compound? && input == [TAG_COMPOUND] + tail
    requires ParseString(tail) == Some((c.name, body))
    requires ParseChildren(body) == Some((c.node.children, rest))
    ensures ParseRoot(input) == Some((c, rest))
  {
    assert input[1..] == tail;
  }

  lemma {:induction false} RootInDomainAsCompound(r: Root)
    requires RootInDomain(r)
    ensures RootInDomain(AsCompound(r))
  {
    if !r.node.Compound? {
      assert ChildInDomain(AsCompound(r).node.children[0]);
    }
  }

  /** Both branches of nbt_pack write a compound. */
  lemma {:induction false} PackRootAsCompound(r: Root)
    ensures PackRoot(r)
         == [TAG_COMPOUND] + PackString(AsCompound(r).name) + PackChildren(AsCompound(r).node.children)
  {
    if !r.node.Compound? {
      var cs := [Child(r.name, r.node)];
      assert cs[1..] == [];
      assert PackChildren(cs) == PackChild(cs[0]) + [TAG_END];
      var header := [TAG_COMPOUND] + BigEndian(0, 2);
      assert header + PackChild(cs[0]) + [TAG_END] == header + (PackChild(cs[0]) + [TAG_END]);
    }
  }

  /** Trees in the domain can be measured. */
  lemma {:induction false} DomainIsMeasurable(n: Node)
    requires InDomain(n)
    ensures Measurable(n)
  {
    match n
    case List(_, items) =>
      forall k | 0 <= k < |items| ensures Measurable(items[k]) { DomainIsMeasurable(items[k]); }
    case Compound(cs) =>
      forall k | 0 <= k < |cs| ensures ChildMeasurable(cs[k]) {
        assert ChildInDomain(cs[k]);
        var c := cs[k];
        DomainIsMeasurable(c.node);
      }
    case _ =>
  }
}
