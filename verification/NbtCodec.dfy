/** The loops of the NBT codec: the length pass, the writer that fills the
  * buffer it sized, and the reader, each proved against module Nbt. */
module NbtCodec {
  import opened Bytes
  import opened Nbt

  // ---- the length pass ----------------------------------------------------

  method MeasureData(n: Node) returns (len: nat)
    requires Measurable(n)
    ensures len == DataLen(n)
    decreases n, 0
  {
    match n
    case Scalar(sk, _) => len := sk.Width();
    case Array(ak, elems) => len := 4 + ak.Width() * |elems|;
    case Text(t) => len := 2 + |t.value|;
    case List(_, items) =>
      len := 5;
      for k := 0 to |items|
        invariant len + ItemsLen(items[k..]) == 5 + ItemsLen(items)
      {
        var itemLen := MeasureData(items[k]);
        len := len + itemLen;
      }
    case Compound(cs) => len := MeasureChildren(cs);
  }

  method MeasureChildren(cs: seq<Child>) returns (len: nat)
    requires AllMeasurable(cs)
    ensures len == ChildrenLen(cs) + 1
    decreases cs, 0
  {
    len := 0;
    for k := 0 to |cs|
      invariant len + ChildrenLen(cs[k..]) == ChildrenLen(cs)
    {
      assert ChildMeasurable(cs[k]);
      var childLen := MeasureChild(cs[k]);
      len := len + childLen;
    }
    len := len + 1;
  }

  method MeasureChild(c: Child) returns (len: nat)
    requires ChildMeasurable(c)
    ensures len == ChildLen(c)
    decreases c, 0
  {
    len := MeasureData(c.node);
    len := len + 3 + |c.name.value|;
  }

  // ---- the writer ---------------------------------------------------------
  // Every writer extends the bytes already stored before off, and says how far.

  method WriteWord(v: nat, w: nat, data: array<byte>, off: nat) returns (len: nat)
    requires off + w <= data.Length
    modifies data
    ensures len == w && data[..off + len] == old(data[..off]) + BigEndian(v, w)
  {
    var bs := BigEndian(v, w);
    forall k | 0 <= k < w { data[off + k] := bs[k]; }
    len := w;
  }

  method WriteByte(b: byte, data: array<byte>, off: nat) returns (len: nat)
    requires off < data.Length
    modifies data
    ensures len == 1 && data[..off + len] == old(data[..off]) + [b]
  {
    data[off] := b;
    len := 1;
  }

  method WriteChars(t: seq<byte>, data: array<byte>, off: nat) returns (len: nat)
    requires off + |t| <= data.Length
    modifies data
    ensures len == |t| && data[..off + len] == old(data[..off]) + t
  {
    len := 0;
    while len < |t|
      invariant len <= |t| && data[..off + len] == old(data[..off]) + t[..len]
    {
      data[off + len] := t[len];
      len := len + 1;
    }
  }

  method WriteString(s: CStr, data: array<byte>, off: nat) returns (len: nat)
    requires off + |PackString(s)| <= data.Length
    modifies data
    ensures len == |PackString(s)| && data[..off + len] == old(data[..off]) + PackString(s)
  {
    if s.None? {
      len := WriteWord(0, 2, data, off);
    } else {
      len := WriteWord(|s.value|, 2, data, off);
      var n := WriteChars(s.value, data, off + len);
      len := len + n;
      Assoc3(old(data[..off]), BigEndian(|s.value|, 2), s.value);
    }
  }

  lemma {:induction false} PackElemsSnoc(elems: seq<nat>, w: nat, k: nat)
    requires k < |elems|
    ensures PackElems(elems[..k + 1], w) == PackElems(elems[..k], w) + BigEndian(elems[k], w)
  {
    if k == 0 {
      assert elems[..1][1..] == [];
    } else {
      assert elems[..k + 1][1..] == elems[1..][..k] && elems[..k][1..] == elems[1..][..k - 1];
      PackElemsSnoc(elems[1..], w, k - 1);
    }
  }

  method WriteElems(elems: seq<nat>, w: nat, data: array<byte>, off: nat) returns (len: nat)
    requires off + |PackElems(elems, w)| <= data.Length
    modifies data
    ensures len == |PackElems(elems, w)| && data[..off + len] == old(data[..off]) + PackElems(elems, w)
  {
    len := 0;
    for k := 0 to |elems|
      invariant len == |PackElems(elems[..k], w)| && off + len <= data.Length
      invariant data[..off + len] == old(data[..off]) + PackElems(elems[..k], w)
    {
      PackElemsSnoc(elems, w, k);
      PackElemsSplit(elems, w, k + 1);
      var n := WriteWord(elems[k], w, data, off + len);
      Assoc3(old(data[..off]), PackElems(elems[..k], w), BigEndian(elems[k], w));
      len := len + n;
    }
    assert elems[..|elems|] == elems;
  }

  lemma {:induction false} PackElemsSplit(elems: seq<nat>, w: nat, k: nat)
    requires k <= |elems|
    ensures |PackElems(elems[..k], w)| <= |PackElems(elems, w)|
    decreases |elems| - k
  {
    if k < |elems| {
      PackElemsSnoc(elems, w, k);
      PackElemsSplit(elems, w, k + 1);
    } else {
      assert elems[..k] == elems;
    }
  }

  method WriteArray(ak: ArrayKind, elems: seq<nat>, data: array<byte>, off: nat) returns (len: nat)
    requires off + |PackData(Array(ak, elems))| <= data.Length
    modifies data
    ensures len == |PackData(Array(ak, elems))|
    ensures data[..off + len] == old(data[..off]) + PackData(Array(ak, elems))
  {
    len := WriteWord(|elems|, 4, data, off);
    var n := WriteElems(elems, ak.Width(), data, off + len);
    len := len + n;
    Assoc3(old(data[..off]), BigEndian(|elems|, 4), PackElems(elems, ak.Width()));
  }

  lemma {:induction false} PackItemsSnoc(items: seq<Node>, k: nat)
    requires k < |items|
    ensures PackItems(items[..k + 1]) == PackItems(items[..k]) + PackData(items[k])
  {
    if k == 0 {
      assert items[..1][1..] == [];
    } else {
      assert items[..k + 1][1..] == items[1..][..k] && items[..k][1..] == items[1..][..k - 1];
      PackItemsSnoc(items[1..], k - 1);
    }
  }

  /** The bytes of some children, without the closing TAG_End. */
  ghost function PackOpen(cs: seq<Child>): seq<byte>
  {
    if cs == [] then [] else PackChild(cs[0]) + PackOpen(cs[1..])
  }

  lemma {:induction false} PackOpenClosed(cs: seq<Child>)
    ensures PackChildren(cs) == PackOpen(cs) + [TAG_END]
  {
    if cs != [] {
      PackOpenClosed(cs[1..]);
      Assoc3(PackChild(cs[0]), PackOpen(cs[1..]), [TAG_END]);
    }
  }

  lemma {:induction false} PackOpenSnoc(cs: seq<Child>, k: nat)
    requires k < |cs|
    ensures PackOpen(cs[..k + 1]) == PackOpen(cs[..k]) + PackChild(cs[k])
  {
    hide PackChild;
    if k == 0 {
      assert cs[..1][1..] == [];
    } else {
      assert cs[..k + 1][1..] == cs[1..][..k] && cs[..k][1..] == cs[1..][..k - 1];
      PackOpenSnoc(cs[1..], k - 1);
      Assoc3(PackChild(cs[0]), PackOpen(cs[1..][..k - 1]), PackChild(cs[k]));
    }
  }

  lemma {:induction false} PackOpenMonotone(cs: seq<Child>, k: nat)
    requires k <= |cs|
    ensures |PackOpen(cs[..k])| <= |PackOpen(cs)|
    decreases |cs| - k
  {
    if k == |cs| {
      assert cs[..k] == cs;
    } else {
      PackOpenSnoc(cs, k);
      PackOpenMonotone(cs, k + 1);
    }
  }

  lemma {:induction false} ChildFits(cs: seq<Child>, k: nat)
    requires k < |cs|
    ensures |PackOpen(cs[..k])| + |PackChild(cs[k])| <= |PackOpen(cs)|
  {
    PackOpenSnoc(cs, k);
    PackOpenMonotone(cs, k + 1);
  }

  lemma {:induction false} ItemsFit(items: seq<Node>, k: nat)
    requires k < |items|
    ensures |PackItems(items[..k])| + |PackData(items[k])| <= |PackItems(items)|
  {
    PackItemsSnoc(items, k);
    PackItemsMonotone(items, k + 1);
  }

  lemma {:induction false} PackItemsMonotone(items: seq<Node>, k: nat)
    requires k <= |items|
    ensures |PackItems(items[..k])| <= |PackItems(items)|
    decreases |items| - k
  {
    if k == |items| {
      assert items[..k] == items;
    } else {
      PackItemsSnoc(items, k);
      PackItemsMonotone(items, k + 1);
    }
  }

  method WriteData(n: Node, data: array<byte>, off: nat) returns (len: nat)
    requires Measurable(n) && off + |PackData(n)| <= data.Length
    modifies data
    ensures len == |PackData(n)| && data[..off + len] == old(data[..off]) + PackData(n)
    decreases n, 0
  {
    match n
    case Scalar(sk, bits) => len := WriteWord(bits, sk.Width(), data, off);
    case Array(ak, elems) => len := WriteArray(ak, elems, data, off);
    case Text(t) => len := WriteString(t, data, off);
    case List(tag, items) => len := WriteList(tag, items, data, off);
    case Compound(cs) => len := WriteChildren(cs, data, off);
  }

  method WriteList(tag: byte, items: seq<Node>, data: array<byte>, off: nat) returns (len: nat)
    requires forall k | 0 <= k < |items| :: Measurable(items[k])
    requires off + |PackData(List(tag, items))| <= data.Length
    modifies data
    ensures len == |PackData(List(tag, items))|
    ensures data[..off + len] == old(data[..off]) + PackData(List(tag, items))
    decreases items, 1
  {
    len := WriteByte(tag, data, off);
    var n := WriteWord(|items|, 4, data, off + len);
    len := len + n;
    n := WriteItems(items, data, off + len);
    len := len + n;
    Assoc4(old(data[..off]), [tag], BigEndian(|items|, 4), PackItems(items));
    Assoc3([tag], BigEndian(|items|, 4), PackItems(items));
  }

  method WriteItems(items: seq<Node>, data: array<byte>, off: nat) returns (len: nat)
    requires forall k | 0 <= k < |items| :: Measurable(items[k])
    requires off + |PackItems(items)| <= data.Length
    modifies data
    ensures len == |PackItems(items)| && data[..off + len] == old(data[..off]) + PackItems(items)
    decreases items, 0
  {
    len := 0;
    for k := 0 to |items|
      invariant len == |PackItems(items[..k])| && off + len <= data.Length
      invariant data[..off + len] == old(data[..off]) + PackItems(items[..k])
    {
      ItemsFit(items, k);
      var n := WriteData(items[k], data, off + len);
      PackItemsSnoc(items, k);
      Assoc3(old(data[..off]), PackItems(items[..k]), PackData(items[k]));
      len := len + n;
    }
    assert items[..|items|] == items;
  }

  method WriteChildren(cs: seq<Child>, data: array<byte>, off: nat) returns (len: nat)
    requires AllMeasurable(cs) && off + |PackChildren(cs)| <= data.Length
    modifies data
    ensures len == |PackChildren(cs)| && data[..off + len] == old(data[..off]) + PackChildren(cs)
    decreases cs, 1
  {
    PackOpenClosed(cs);
    len := WriteOpen(cs, data, off);
    var n := WriteByte(TAG_END, data, off + len);
    len := len + n;
    Assoc3(old(data[..off]), PackOpen(cs), [TAG_END]);
  }

  method WriteOpen(cs: seq<Child>, data: array<byte>, off: nat) returns (len: nat)
    requires AllMeasurable(cs) && off + |PackOpen(cs)| <= data.Length
    modifies data
    ensures len == |PackOpen(cs)| && data[..off + len] == old(data[..off]) + PackOpen(cs)
    decreases cs, 0
  {
    hide PackChild, ChildMeasurable;
    len := 0;
    for k := 0 to |cs|
      invariant len == |PackOpen(cs[..k])| && off + len <= data.Length
      invariant data[..off + len] == old(data[..off]) + PackOpen(cs[..k])
    {
      ChildFits(cs, k);
      assert ChildMeasurable(cs[k]);
      var n := WriteChild(cs[k], data, off + len);
      PackOpenSnoc(cs, k);
      Assoc3(old(data[..off]), PackOpen(cs[..k]), PackChild(cs[k]));
      len := len + n;
    }
    assert cs[..|cs|] == cs;
  }

  method WriteChild(c: Child, data: array<byte>, off: nat) returns (len: nat)
    requires ChildMeasurable(c) && off + |PackChild(c)| <= data.Length
    modifies data
    ensures len == |PackChild(c)| && data[..off + len] == old(data[..off]) + PackChild(c)
    decreases c, 0
  {
    var tag := [TagOf(c.node)];
    len := WriteByte(TagOf(c.node), data, off);
    var n := WriteString(c.name, data, off + len);
    len := len + n;
    n := WriteData(c.node, data, off + len);
    len := len + n;
    Assoc4(old(data[..off]), tag, PackString(c.name), PackData(c.node));
    Assoc3(tag, PackString(c.name), PackData(c.node));
  }

  /** nbt_pack: the buffer sized by the length pass is filled exactly. */
  method Pack(r: Root) returns (data: array<byte>)
    requires Measurable(r.node) && (r.name.Some? || r.node.Compound?)
    ensures fresh(data) && data[..] == PackRoot(r)
  {
    if r.node.Compound? {
      data := PackCompound(r.name, r.node.children);
    } else {
      data := PackWrapped(Child(r.name, r.node));
    }
  }

  method PackCompound(name: CStr, cs: seq<Child>) returns (data: array<byte>)
    requires AllMeasurable(cs)
    ensures fresh(data) && data[..] == [TAG_COMPOUND] + PackString(name) + PackChildren(cs)
  {
    hide AllMeasurable, PackChildren, ChildrenLen, BigEndian;
    var bodyLen := MeasureChildren(cs);
    var bufLen := 3 + (if name.Some? then |name.value| else 0) + bodyLen;
    ChildrenLengthAgrees(cs);
    assert bufLen == 1 + |PackString(name)| + |PackChildren(cs)|;
    hide PackString;
    data := new byte[bufLen];
    var len := WriteByte(TAG_COMPOUND, data, 0);
    assert data[..len] == [TAG_COMPOUND];
    var n := WriteString(name, data, len);
    len := len + n;
    n := WriteChildren(cs, data, len);
    len := len + n;
    assert len == bufLen && data[..len] == data[..];
  }

  method PackWrapped(c: Child) returns (data: array<byte>)
    requires ChildMeasurable(c)
    ensures fresh(data)
    ensures data[..] == [TAG_COMPOUND] + BigEndian(0, 2) + PackChild(c) + [TAG_END]
  {
    hide Measurable, PackChild, DataLen, BigEndian;
    var nodeLen := MeasureData(c.node);
    var bufLen := 4 + (3 + |c.name.value|) + nodeLen;
    ChildLengthAgrees(c);
    assert bufLen == 4 + |PackChild(c)|;
    hide ChildLen;
    data := new byte[bufLen];
    var len := WriteByte(TAG_COMPOUND, data, 0);
    assert data[..len] == [TAG_COMPOUND];
    var n := WriteWord(0, 2, data, len);
    len := len + n;
    n := WriteChild(c, data, len);
    len := len + n;
    n := WriteByte(TAG_END, data, len);
    len := len + n;
    assert len == bufLen && data[..len] == data[..];
  }

  // ---- the reader ---------------------------------------------------------
  // data[i..] is what the C reader receives as (len - i, data + i).

  /** The index-based result r of a reader stands for the parse p of data[i..]. */
  ghost predicate Follows<T>(r: Option<(T, nat)>, p: Option<(T, seq<byte>)>, data: seq<byte>, i: nat)
  {
    && (r.None? <==> p.None?)
    && (r.Some? ==> i <= r.value.1 <= |data| && r.value.0 == p.value.0 && data[r.value.1..] == p.value.1)
  }

  method ReadWord(w: nat, data: seq<byte>, i: nat) returns (r: Option<(nat, nat)>)
    requires i <= |data|
    ensures Follows(r, ParseWord(w, data[i..]), data, i)
  {
    if i + w < |data| {
      assert data[i..][..w] == data[i..i + w] && data[i..][w..] == data[i + w..];
      r := Some((FromBigEndian(data[i..i + w]), i + w));
    } else {
      r := None;
    }
  }

  method ReadString(data: seq<byte>, i: nat) returns (r: Option<(CStr, nat)>)
    requires i <= |data|
    ensures Follows(r, ParseString(data[i..]), data, i)
  {
    var len := ReadWord(2, data, i);
    if len.None? { return None; }
    var (n, j) := len.value;
    if n == 0 {
      r := Some((None, j));
    } else if j + n < |data| {
      assert data[j..][..n] == data[j..j + n] && data[j..][n..] == data[j + n..];
      r := Some((Some(data[j..j + n]), j + n));
    } else {
      r := None;
    }
  }

  method ReadElems(w: nat, bs: seq<byte>) returns (elems: seq<nat>)
    requires w > 0
    ensures elems == ParseElems(w, bs)
  {
    elems := [];
    var i := 0;
    while i + w <= |bs|
      invariant i <= |bs| && elems + ParseElems(w, bs[i..]) == ParseElems(w, bs)
      decreases |bs| - i
    {
      assert bs[i..][..w] == bs[i..i + w] && bs[i..][w..] == bs[i + w..];
      Assoc3(elems, [FromBigEndian(bs[i..i + w])], ParseElems(w, bs[i + w..]));
      elems := elems + [FromBigEndian(bs[i..i + w])];
      i := i + w;
    }
  }

  method ReadArray(ak: ArrayKind, data: seq<byte>, i: nat) returns (r: Option<(Node, nat)>)
    requires i <= |data|
    ensures Follows(r, ParseArray(ak, data[i..]), data, i)
  {
    var len := ReadWord(4, data, i);
    if len.None? { return None; }
    var (n, j) := len.value;
    var size := n * ak.Width();
    if n < 0x8000_0000 && j + size < |data| {
      assert data[j..][..size] == data[j..j + size] && data[j..][size..] == data[j + size..];
      var elems := ReadElems(ak.Width(), data[j..j + size]);
      r := Some((Array(ak, elems), j + size));
    } else {
      r := None;
    }
  }

  method ReadData(tag: byte, data: seq<byte>, i: nat) returns (r: Option<(Node, nat)>)
    requires i <= |data|
    ensures Follows(r, ParseData(tag, data[i..]), data, i)
    decreases |data| - i, 1
  {
    if ScalarOf(tag).Some? {
      var v := ReadWord(ScalarOf(tag).value.Width(), data, i);
      if v.None? { return None; }
      r := Some((Scalar(ScalarOf(tag).value, v.value.0), v.value.1));
    } else if ArrayOf(tag).Some? {
      r := ReadArray(ArrayOf(tag).value, data, i);
    } else if tag == 8 {
      var s := ReadString(data, i);
      if s.None? { return None; }
      r := Some((Text(s.value.0), s.value.1));
    } else if tag == TAG_LIST {
      r := ReadList(data, i);
    } else if tag == TAG_COMPOUND {
      var cs := ReadChildren(data, i);
      if cs.None? { return None; }
      r := Some((Compound(cs.value.0), cs.value.1));
    } else {
      r := None;
    }
  }

  method ReadList(data: seq<byte>, i: nat) returns (r: Option<(Node, nat)>)
    requires i <= |data|
    ensures Follows(r, ParseData(TAG_LIST, data[i..]), data, i)
    decreases |data| - i, 0
  {
    if i == |data| { return None; }
    assert data[i..][1..] == data[i + 1..];
    var len := ReadWord(4, data, i + 1);
    if len.None? || len.value.0 >= 0x8000 { return None; }
    var (count, start) := len.value;
    var items := ReadItems(data[i], count, data, start);
    if items.None? { return None; }
    r := Some((List(data[i], items.value.0), items.value.1));
  }

  method ReadItems(tag: byte, count: nat, data: seq<byte>, start: nat)
    returns (r: Option<(seq<Node>, nat)>)
    requires start <= |data|
    ensures Follows(r, ParseItems(tag, count, data[start..]), data, start)
    decreases |data| - start, 2
  {
    var items, i := [], start;
    ghost var whole := ParseItems(tag, count, data[start..]);
    PrependNothing(whole);
    for k := 0 to count
      invariant start <= i <= |data|
      invariant whole == Prepend(items, ParseItems(tag, count - k, data[i..]))
    {
      var item := ReadData(tag, data, i);
      if item.None? { return None; }
      PrependStep(items, item.value.0, ParseItems(tag, count - k - 1, data[item.value.1..]));
      items, i := items + [item.value.0], item.value.1;
    }
    PrependTo(items, data[i..]);
    r := Some((items, i));
  }

  method ReadChildren(data: seq<byte>, start: nat) returns (r: Option<(seq<Child>, nat)>)
    requires start <= |data|
    ensures Follows(r, ParseChildren(data[start..]), data, start)
    decreases |data| - start, 0
  {
    var cs, i := [], start;
    ghost var whole := ParseChildren(data[start..]);
    PrependNothing(whole);
    while i < |data| && data[i] != TAG_END
      invariant start <= i <= |data|
      invariant whole == Prepend(cs, ParseChildren(data[i..]))
      decreases |data| - i
    {
      var child := ReadChild(data, i);
      if child.None? { return None; }
      PrependStep(cs, child.value.0, ParseChildren(data[child.value.1..]));
      cs, i := cs + [child.value.0], child.value.1;
    }
    if i == |data| { return None; }
    assert data[i..][1..] == data[i + 1..];
    PrependTo(cs, data[i + 1..]);
    r := Some((cs, i + 1));
  }

  method ReadChild(data: seq<byte>, i: nat) returns (r: Option<(Child, nat)>)
    requires i < |data|
    ensures Follows(r, ParseChild(data[i..]), data, i)
    decreases |data| - i - 1, 2
  {
    assert data[i..][1..] == data[i + 1..];
    var name := ReadString(data, i + 1);
    if name.None? { return None; }
    var n := ReadData(data[i], data, name.value.1);
    if n.None? { return None; }
    r := Some((Child(name.value.0, n.value.0), n.value.1));
  }

  /** nbt_unpack */
  method Unpack(data: seq<byte>) returns (r: Option<(Root, nat)>)
    ensures Follows(r, ParseRoot(data), data, 0)
  {
    if data == [] { return None; }
    var name, i := None, 0;
    assert data[0..] == data;
    if data[0] == TAG_COMPOUND {
      var s := ReadString(data, 1);
      if s.None? { return None; }
      name, i := s.value.0, s.value.1;
    }
    var cs := ReadChildren(data, i);
    if cs.None? { return None; }
    r := Some((Root(name, Compound(cs.value.0)), cs.value.1));
  }

  /** nbt_unpack after nbt_pack gives back the tree and the packed length. */
  method PackThenUnpack(root: Root) returns (r: Option<(Root, nat)>, len: nat)
    requires RootInDomain(root)
    ensures r == Some((AsCompound(root), len)) && len == |PackRoot(root)|
  {
    DomainIsMeasurable(root.node);
    var data := Pack(root);
    r := Unpack(data[..]);
    len := data.Length;
    RootRoundTrip(root, []);
    assert PackRoot(root) + [] == PackRoot(root);
  }
}
