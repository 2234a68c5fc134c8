/** A packed NBT document byte by byte, with a node of every kind. */
module NbtBytes {
  import opened Bytes
  import opened Nbt

  // ---- one node of every kind -------------------------------------------------------------------

  function Named(c: byte, n: Node): Child { Child(Some([c]), n) }

  const BYTE_NODE := Named(97, Scalar(TByte, 5))
  const SHORT_NODE := Named(98, Scalar(TShort, 1))
  const INT_NODE := Named(99, Scalar(TInt, 258))
  const LONG_NODE := Named(100, Scalar(TLong, 0x1_0000_0002))
  /** The bits of 1.0. */
  const FLOAT_NODE := Named(101, Scalar(TFloat, 0x3F80_0000))
  const DOUBLE_NODE := Named(102, Scalar(TDouble, 0x3FF0_0000_0000_0000))
  const BYTES_NODE := Named(103, Array(TByteArray, [3, 4]))
  const TEXT_NODE := Named(104, Text(Some([104, 105])))
  const LIST_NODE := Named(105, List(2, [Scalar(TShort, 1), Scalar(TShort, 2)]))
  const COMPOUND_NODE := Named(106, Compound([Named(120, Scalar(TByte, 7))]))
  const INTS_NODE := Named(107, Array(TIntArray, [1]))
  const LONGS_NODE := Named(108, Array(TLongArray, [1]))

  const DOCUMENT := Root(Some([114]), Compound([
    BYTE_NODE, SHORT_NODE, INT_NODE, LONG_NODE, FLOAT_NODE, DOUBLE_NODE,
    BYTES_NODE, TEXT_NODE, LIST_NODE, COMPOUND_NODE, INTS_NODE, LONGS_NODE]))

  /** For each child its tag, its name and its data. */
  const DOCUMENT_BYTES: seq<seq<byte>> := [
    [1, 0, 1, 97, 5],
    [2, 0, 1, 98, 0, 1],
    [3, 0, 1, 99, 0, 0, 1, 2],
    [4, 0, 1, 100, 0, 0, 0, 1, 0, 0, 0, 2],
    [5, 0, 1, 101, 63, 128, 0, 0],
    [6, 0, 1, 102, 63, 240, 0, 0, 0, 0, 0, 0],
    [7, 0, 1, 103, 0, 0, 0, 2, 3, 4],
    [8, 0, 1, 104, 0, 2, 104, 105],
    [9, 0, 1, 105, 2, 0, 0, 0, 2, 0, 1, 0, 2],
    [10, 0, 1, 106, 1, 0, 1, 120, 7, 0],
    [11, 0, 1, 107, 0, 0, 0, 1, 0, 0, 0, 1],
    [12, 0, 1, 108, 0, 0, 0, 1, 0, 0, 0, 0, 0, 0, 0, 1]
  ]

  lemma {:induction false} ChildBytes(tag: byte, c: byte, n: Node, data: seq<byte>)
    requires TagOf(n) == tag && PackData(n) == data
    ensures PackChild(Named(c, n)) == [tag, 0, 1, c] + data
  {
    TwoBytes(0, 1);
  }

  lemma {:induction false} ScalarChild(c: byte, sk: ScalarKind, bits: nat, data: seq<byte>)
    requires BigEndian(bits, sk.Width()) == data
    ensures PackChild(Named(c, Scalar(sk, bits))) == [sk.Tag(), 0, 1, c] + data
  {
    hide PackChild, BigEndian;
    ChildBytes(sk.Tag(), c, Scalar(sk, bits), data);
  }

  lemma {:induction false} SmallScalars()
    ensures PackChild(BYTE_NODE) == [1, 0, 1, 97, 5] && PackChild(SHORT_NODE) == [2, 0, 1, 98, 0, 1]
    ensures PackChild(INT_NODE) == [3, 0, 1, 99, 0, 0, 1, 2]
  {
    OneByte(5);
    hide BigEndian, PackChild;
    TwoBytes(0, 1);
    FourBytes(0, 0, 1, 2);
    ScalarChild(97, TByte, 5, [5]);
    ScalarChild(98, TShort, 1, [0, 1]);
    ScalarChild(99, TInt, 258, [0, 0, 1, 2]);
  }

  lemma {:induction false} LongScalar()
    ensures PackChild(LONG_NODE) == [4, 0, 1, 100, 0, 0, 0, 1, 0, 0, 0, 2]
  {
    hide BigEndian, PackChild;
    FourBytes(0, 0, 0, 1);
    EightBytes(1, 0, 0, 0, 2);
    ScalarChild(100, TLong, 0x1_0000_0002, [0, 0, 0, 1, 0, 0, 0, 2]);
  }

  lemma {:induction false} FloatScalars()
    ensures PackChild(FLOAT_NODE) == [5, 0, 1, 101, 63, 128, 0, 0]
    ensures PackChild(DOUBLE_NODE) == [6, 0, 1, 102, 63, 240, 0, 0, 0, 0, 0, 0]
  {
    hide BigEndian, PackChild;
    FourBytes(63, 128, 0, 0);
    ScalarChild(101, TFloat, 0x3F80_0000, [63, 128, 0, 0]);
    FourBytes(63, 240, 0, 0);
    EightBytes(0x3FF0_0000, 0, 0, 0, 0);
    ScalarChild(102, TDouble, 0x3FF0_0000_0000_0000, [63, 240, 0, 0, 0, 0, 0, 0]);
  }

  lemma {:induction false} ElemsBytes(a: nat, b: nat, w: nat)
    ensures PackElems([a], w) == BigEndian(a, w) && PackElems([a, b], w) == BigEndian(a, w) + BigEndian(b, w)
  {
    hide BigEndian;
    var one, two := [a], [a, b];
    assert one[1..] == [] && two[1..] == [b] && [b][1..] == [];
    assert PackElems([b], w) == BigEndian(b, w) + [] == BigEndian(b, w);
    assert PackElems([a], w) == BigEndian(a, w) + [] == BigEndian(a, w);
  }

  lemma {:induction false} ArrayChild(c: byte, ak: ArrayKind, elems: seq<nat>, len: seq<byte>, data: seq<byte>)
    requires BigEndian(|elems|, 4) == len && PackElems(elems, ak.Width()) == data
    ensures PackChild(Named(c, Array(ak, elems))) == [ak.Tag(), 0, 1, c] + (len + data)
  {
    hide PackChild, BigEndian, PackElems;
    ChildBytes(ak.Tag(), c, Array(ak, elems), len + data);
  }

  lemma {:induction false} BytesArray()
    ensures PackChild(BYTES_NODE) == [7, 0, 1, 103, 0, 0, 0, 2, 3, 4]
  {
    hide BigEndian, PackChild, PackElems;
    OneByte(3);
    OneByte(4);
    FourBytes(0, 0, 0, 2);
    ElemsBytes(3, 4, 1);
    ArrayChild(103, TByteArray, [3, 4], [0, 0, 0, 2], [3, 4]);
  }

  lemma {:induction false} WordArrays()
    ensures PackChild(INTS_NODE) == [11, 0, 1, 107, 0, 0, 0, 1, 0, 0, 0, 1]
    ensures PackChild(LONGS_NODE) == [12, 0, 1, 108, 0, 0, 0, 1, 0, 0, 0, 0, 0, 0, 0, 1]
  {
    hide BigEndian, PackChild, PackElems;
    FourBytes(0, 0, 0, 1);
    ElemsBytes(1, 1, 4);
    ArrayChild(107, TIntArray, [1], [0, 0, 0, 1], [0, 0, 0, 1]);
    FourBytes(0, 0, 0, 0);
    EightBytes(0, 0, 0, 0, 1);
    ElemsBytes(1, 1, 8);
    ArrayChild(108, TLongArray, [1], [0, 0, 0, 1], [0, 0, 0, 0, 0, 0, 0, 1]);
  }

  lemma {:induction false} TwoItems(a: Node, b: Node)
    ensures PackItems([a, b]) == PackData(a) + PackData(b)
  {
    hide PackData;
    assert [a, b][1..] == [b] && [b][1..] == [];
    assert PackItems([b]) == PackData(b) + [] == PackData(b);
  }

  lemma {:induction false} OneChild(c: Child)
    ensures PackChildren([c]) == PackChild(c) + [0]
  {
    hide PackChild;
    assert [c][1..] == [];
  }

  lemma {:induction false} TextChild()
    ensures PackChild(TEXT_NODE) == [8, 0, 1, 104, 0, 2, 104, 105]
  {
    hide BigEndian, PackChild;
    TwoBytes(0, 2);
    ChildBytes(8, 104, TEXT_NODE.node, [0, 2, 104, 105]);
  }

  lemma {:induction false} ListChild()
    ensures PackChild(LIST_NODE) == [9, 0, 1, 105, 2, 0, 0, 0, 2, 0, 1, 0, 2]
  {
    hide BigEndian, PackChild, PackItems;
    TwoBytes(0, 1);
    TwoBytes(0, 2);
    FourBytes(0, 0, 0, 2);
    TwoItems(Scalar(TShort, 1), Scalar(TShort, 2));
    ChildBytes(9, 105, LIST_NODE.node, [2, 0, 0, 0, 2, 0, 1, 0, 2]);
  }

  lemma {:induction false} CompoundChild()
    ensures PackChild(COMPOUND_NODE) == [10, 0, 1, 106, 1, 0, 1, 120, 7, 0]
  {
    OneByte(7);
    hide BigEndian, PackChild, PackChildren;
    ChildBytes(1, 120, Scalar(TByte, 7), [7]);
    OneChild(Named(120, Scalar(TByte, 7)));
    ChildBytes(10, 106, COMPOUND_NODE.node, [1, 0, 1, 120, 7, 0]);
  }

  // ---- the document -------------------------------------------------------------------------------

  /** The children of a compound are packed one after the other, then comes the end tag. */
  lemma {:induction false} ChildrenJoined(cs: seq<Child>, parts: seq<seq<byte>>)
    requires |cs| == |parts| && forall i | 0 <= i < |cs| :: PackChild(cs[i]) == parts[i]
    ensures PackChildren(cs) == Joined(parts) + [0]
  {
    hide PackChild;
    if cs != [] { ChildrenJoined(cs[1..], parts[1..]); }
  }

  lemma {:induction false} DocumentPacks()
    ensures PackRoot(DOCUMENT) == [10, 0, 1, 114] + (Joined(DOCUMENT_BYTES) + [0])
  {
    hide PackChild, PackChildren, BigEndian, Joined;
    SmallScalars();
    LongScalar();
    FloatScalars();
    BytesArray();
    WordArrays();
    TextChild();
    ListChild();
    CompoundChild();
    TwoBytes(0, 1);
    ChildrenJoined(DOCUMENT.node.children, DOCUMENT_BYTES);
  }

  lemma {:induction false} Powers()
    ensures Pow256(1) == 256 && Pow256(2) == 0x1_0000 && Pow256(4) == 0x1_0000_0000
    ensures Pow256(8) == 0x1_0000_0000_0000_0000
  {
    assert Pow256(3) == 256 * Pow256(2);
    assert Pow256(5) == 256 * Pow256(4) && Pow256(6) == 256 * Pow256(5) && Pow256(7) == 256 * Pow256(6);
  }

  lemma {:induction false} ScalarOk(c: byte, sk: ScalarKind, bits: nat)
    requires c != 0 && bits < Pow256(sk.Width())
    ensures ChildInDomain(Named(c, Scalar(sk, bits)))
  {
    hide Pow256;
  }

  lemma {:induction false} ArrayOk(c: byte, ak: ArrayKind, elems: seq<nat>)
    requires c != 0 && |elems| <= 2 && forall k | 0 <= k < |elems| :: elems[k] < 256
    ensures ChildInDomain(Named(c, Array(ak, elems)))
  {
    Powers();
    hide Pow256;
  }

  lemma {:induction false} TreesOk()
    ensures ChildInDomain(TEXT_NODE) && ChildInDomain(LIST_NODE) && ChildInDomain(COMPOUND_NODE)
  {
    Powers();
    hide Pow256;
    var inner := Compound([Named(120, Scalar(TByte, 7))]);
    ScalarOk(120, TByte, 7);
    assert InDomain(inner);
    assert InDomain(Scalar(TShort, 1)) && InDomain(Scalar(TShort, 2));
  }

  lemma {:induction false} DocumentInDomain()
    ensures RootInDomain(DOCUMENT)
  {
    Powers();
    ScalarOk(97, TByte, 5);
    ScalarOk(98, TShort, 1);
    ScalarOk(99, TInt, 258);
    ScalarOk(100, TLong, 0x1_0000_0002);
    ScalarOk(101, TFloat, 0x3F80_0000);
    ScalarOk(102, TDouble, 0x3FF0_0000_0000_0000);
    ArrayOk(103, TByteArray, [3, 4]);
    ArrayOk(107, TIntArray, [1]);
    ArrayOk(108, TLongArray, [1]);
    TreesOk();
    hide ChildInDomain, Pow256;
    var cs := DOCUMENT.node.children;
    forall k | 0 <= k < 12 ensures ChildInDomain(cs[k]) {
    }
    assert AllInDomain(cs);
    assert InDomain(DOCUMENT.node);
  }

  /** The document and its bytes: packing the one gives the other, and reading it back. */
  lemma {:induction false} DocumentReadsBack()
    ensures ParseRoot([10, 0, 1, 114] + (Joined(DOCUMENT_BYTES) + [0])) == Some((DOCUMENT, []))
  {
    hide PackRoot, ParseRoot, Joined, RootInDomain;
    DocumentPacks();
    DocumentInDomain();
    RootRoundTrip(DOCUMENT, []);
    assert PackRoot(DOCUMENT) + [] == PackRoot(DOCUMENT);
  }

  // ---- the height maps ------------------------------------------------------------------------------

  /** MOTION_BLOCKING */
  const MOTION_BLOCKING: seq<byte> := [77, 79, 84, 73, 79, 78, 95, 66, 76, 79, 67, 75, 73, 78, 71]

  const HEIGHTMAP := Child(Some(MOTION_BLOCKING), Array(TLongArray, seq(36, _ => 0)))

  const HEIGHTMAPS := Root(None, Compound([HEIGHTMAP]))

  lemma {:induction false} ZeroWord(w: nat)
    ensures BigEndian(0, w) == seq(w, _ => 0)
  {
    if w > 0 { ZeroWord(w - 1); }
  }

  lemma {:induction false} ZeroElems(n: nat, w: nat)
    ensures PackElems(seq(n, _ => 0), w) == seq(w * n, _ => 0)
  {
    if n > 0 {
      ZeroWord(w);
      ZeroElems(n - 1, w);
      var es: seq<nat> := seq(n, _ => 0);
      assert es[1..] == seq(n - 1, _ => 0);
      assert w * n == w + w * (n - 1);
    }
  }

  lemma {:induction false} ArrayBytes(ak: ArrayKind, elems: seq<nat>, len: seq<byte>, data: seq<byte>)
    requires BigEndian(|elems|, 4) == len && PackElems(elems, ak.Width()) == data
    ensures PackData(Array(ak, elems)) == len + data
  {
  }

  lemma {:induction false} NamedBytes(name: seq<byte>, n: Node, len: seq<byte>, data: seq<byte>)
    requires BigEndian(|name|, 2) == len && PackData(n) == data
    ensures PackChild(Child(Some(name), n)) == [TagOf(n)] + (len + name) + data
  {
    hide BigEndian, PackData, TagOf;
  }

  /** A root that is no compound is packed as the only child of an unnamed one. */
  lemma {:induction false} WrappedBytes(name: seq<byte>, n: Node, len: seq<byte>, data: seq<byte>)
    requires !n.Compound? && BigEndian(|name|, 2) == len && PackData(n) == data
    ensures PackRoot(Root(Some(name), n)) == [10, 0, 0] + ([TagOf(n)] + (len + name) + data) + [0]
  {
    TwoBytes(0, 0);
    hide BigEndian, PackData, TagOf, PackChild;
    NamedBytes(name, n, len, data);
    var child := PackChild(Child(Some(name), n));
    var head: seq<byte> := [10];
    assert PackRoot(Root(Some(name), n)) == head + [0, 0] + child + [0];
    assert head + [0, 0] == [10, 0, 0];
  }

  lemma {:induction false} UnnamedBytes(c: Child)
    ensures PackRoot(Root(None, Compound([c]))) == [10, 0, 0] + PackChild(c) + [0]
  {
    TwoBytes(0, 0);
    OneChild(c);
    hide BigEndian, PackChild, PackChildren;
    var head: seq<byte> := [10];
    assert PackString(None) == [0, 0];
    assert head + [0, 0] == [10, 0, 0];
  }

  /** The height maps the server sends. */
  lemma {:induction false} HeightmapsPack()
    ensures PackRoot(HEIGHTMAPS)
         == [10, 0, 0] + ([12] + ([0, 15] + MOTION_BLOCKING) + ([0, 0, 0, 36] + seq(288, _ => 0))) + [0]
  {
    TwoBytes(0, 15);
    FourBytes(0, 0, 0, 36);
    ZeroElems(36, 8);
    hide BigEndian, PackElems, PackRoot, PackData, PackChild;
    var zeros: seq<byte> := seq(288, _ => 0);
    ArrayBytes(TLongArray, seq(36, _ => 0), [0, 0, 0, 36], zeros);
    NamedBytes(MOTION_BLOCKING, HEIGHTMAP.node, [0, 15], [0, 0, 0, 36] + zeros);
    UnnamedBytes(HEIGHTMAP);
  }
}
