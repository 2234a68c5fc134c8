/** Keys of the block table: a block's name followed by its properties in name
  * order, built once from blocks.json and once from a chunk's palette. */
module BlockKeys {

  type text = seq<int>

  /** A property's name and value, as C strings without their terminators. */
  datatype Property = Property(name: text, value: text)

  // ---- the order of strcmp ----------------------------------------------------------

  predicate Less(a: text, b: text) {
    if b == [] then false
    else if a == [] then true
    else a[0] < b[0] || (a[0] == b[0] && Less(a[1..], b[1..]))
  }

  lemma {:induction false} LessIsTotal(a: text, b: text)
    ensures a != b ==> Less(a, b) || Less(b, a)
    ensures !(Less(a, b) && Less(b, a)) && !Less(a, a)
  {
    if a != [] && b != [] {
      LessIsTotal(a[1..], b[1..]);
      LessIsTotal(a[1..], a[1..]);
      assert a == [a[0]] + a[1..] && b == [b[0]] + b[1..];
    } else if a != [] {
      LessIsTotal(a[1..], a[1..]);
    }
  }

  /** Less at the first place where they differ, or one shorter. */
  lemma {:induction false} LessIff(a: text, b: text)
    ensures Less(a, b)
       <==> exists k :: 0 <= k <= |a| && k < |b| && a[..k] == b[..k] && (k == |a| || a[k] < b[k])
  {
    if b == [] {
    } else if a == [] {
      assert a[..0] == b[..0];
    } else {
      var a', b' := a[1..], b[1..];
      LessIff(a', b');
      if a[0] < b[0] {
        assert a[..0] == b[..0];
      } else if a[0] == b[0] {
        if k :| 0 <= k <= |a'| && k < |b'| && a'[..k] == b'[..k] && (k == |a'| || a'[k] < b'[k]) {
          assert a[..k + 1] == [a[0]] + a'[..k] == b[..k + 1];
        }
        if k :| 0 < k <= |a| && k < |b| && a[..k] == b[..k] && (k == |a| || a[k] < b[k]) {
          assert a'[..k - 1] == a[..k][1..] == b[..k][1..] == b'[..k - 1];
        }
      } else {
        assert forall k | 0 < k <= |a| && k < |b| :: a[..k][0] != b[..k][0];
      }
    }
  }

  // ---- sorting --------------------------------------------------------------------------

  /** What qsort may return: the same properties with no name before a smaller one.
    * Nothing is assumed of it for equal names. */
  predicate SortOf(qs: seq<Property>, ps: seq<Property>) {
    && multiset(qs) == multiset(ps)
    && forall i, j | 0 <= i < j < |qs| :: !Less(qs[j].name, qs[i].name)
  }

  predicate DistinctNames(ps: seq<Property>) {
    forall i, j | 0 <= i < j < |ps| :: ps[i].name != ps[j].name
  }

  /** A name occurs once, in any order the properties are in. */
  lemma {:induction false} DistinctInAnyOrder(ps: seq<Property>, qs: seq<Property>)
    requires DistinctNames(ps) && multiset(ps) == multiset(qs)
    ensures DistinctNames(qs)
  {
    forall i, j | 0 <= i < j < |qs| ensures qs[i].name != qs[j].name {
      if qs[i].name == qs[j].name {
        SameNameSame(ps, qs[i], qs[j]) by {
          assert qs[i] in multiset(qs) && qs[j] in multiset(qs);
        }
        TwiceInMultiset(qs, i, j);
        OnceInMultiset(ps, qs[i]);
      }
    }
  }

  lemma {:induction false} SameNameSame(ps: seq<Property>, p: Property, q: Property)
    requires DistinctNames(ps) && p in multiset(ps) && q in multiset(ps) && p.name == q.name
    ensures p == q
  {
    var i :| 0 <= i < |ps| && ps[i] == p;
    var j :| 0 <= j < |ps| && ps[j] == q;
  }

  lemma {:induction false} TwiceInMultiset(qs: seq<Property>, i: nat, j: nat)
    requires i < j < |qs| && qs[i] == qs[j]
    ensures multiset(qs)[qs[i]] >= 2
  {
    assert qs == qs[..j] + qs[j..];
    assert qs[..j][i] == qs[i] && qs[j..][0] == qs[j];
    assert qs[i] in multiset(qs[..j]) && qs[i] in multiset(qs[j..]);
  }

  lemma {:induction false} OnceInMultiset(ps: seq<Property>, p: Property)
    requires DistinctNames(ps)
    ensures multiset(ps)[p] <= 1
  {
    if ps != [] {
      OnceInMultiset(ps[1..], p);
      assert ps == [ps[0]] + ps[1..];
      if p == ps[0] {
        assert forall k | 0 <= k < |ps[1..]| :: ps[1..][k] == ps[k + 1] != p;
        assert p !in multiset(ps[1..]);
      }
    }
  }

  /** Distinct names have one sorted order. */
  lemma {:induction false} SortIsUnique(ps: seq<Property>, qs: seq<Property>, ps': seq<Property>, qs': seq<Property>)
    requires DistinctNames(ps) && multiset(ps) == multiset(qs) && SortOf(ps', ps) && SortOf(qs', qs)
    ensures ps' == qs'
    decreases |ps'|
  {
    DistinctInAnyOrder(ps, ps');
    DistinctInAnyOrder(ps, qs');
    assert |ps'| == |multiset(ps')| == |multiset(qs')| == |qs'|;
    if ps' != [] {
      SmallestFirst(ps', qs');
      assert ps' == [ps'[0]] + ps'[1..] && qs' == [qs'[0]] + qs'[1..];
      assert multiset(ps'[1..]) == multiset(ps') - multiset{ps'[0]};
      assert multiset(qs'[1..]) == multiset(qs') - multiset{qs'[0]};
      SortIsUnique(ps'[1..], qs'[1..], ps'[1..], qs'[1..]);
    }
  }

  lemma {:induction false} SmallestFirst(ps: seq<Property>, qs: seq<Property>)
    requires ps != [] && qs != [] && DistinctNames(ps) && DistinctNames(qs) && multiset(ps) == multiset(qs)
    requires SortOf(ps, ps) && SortOf(qs, qs)
    ensures ps[0] == qs[0]
  {
    assert ps[0] in multiset(qs) && qs[0] in multiset(ps);
    var i :| 0 <= i < |qs| && qs[i] == ps[0];
    var j :| 0 <= j < |ps| && ps[j] == qs[0];
    LessIsTotal(ps[0].name, qs[0].name);
  }

  // ---- the keys ---------------------------------------------------------------------------

  const SEMICOLON := 59
  const EQUALS := 61

  /** ";name=value" */
  function Suffix(p: Property): text {
    [SEMICOLON] + p.name + [EQUALS] + p.value
  }

  function Suffixes(ps: seq<Property>): text {
    if ps == [] then [] else Suffixes(ps[..|ps| - 1]) + Suffix(ps[|ps| - 1])
  }

  /** Two properties c=d and b=e of a block a, in name order: a;b=e;c=d. */
  lemma {:induction false} KeyOfTwo()
    ensures var ps := [Property([99], [100]), Property([98], [101])];
            var qs := [Property([98], [101]), Property([99], [100])];
      && SortOf(qs, ps) && !SortOf(ps, ps)
      && [97] + Suffixes(qs) == [97, 59, 98, 61, 101, 59, 99, 61, 100]
  {
    var p, q := Property([98], [101]), Property([99], [100]);
    var ps, qs := [q, p], [p, q];
    assert Less([98], [99]) && !Less([99], [98]);
    assert multiset(qs) == multiset{p, q} == multiset(ps);
    assert ps[1] == p && ps[0] == q;
    assert qs[..1] == [p] && qs[..1][..0] == [];
    assert Suffixes(qs[..1]) == [] + Suffix(p) == [59, 98, 61, 101];
    assert Suffixes(qs) == Suffixes(qs[..1]) + Suffix(q);
  }

  /** What a 256-byte buffer keeps of a string. */
  function Clip(s: text): (r: text)
    ensures |r| <= 255
  {
    if |s| <= 255 then s else s[..255]
  }

  /** palette_entry_to_block_id: name and sorted properties, appended one by one. */
  method PaletteKey(name: text, sorted: seq<Property>) returns (key: text)
    ensures key == name + Suffixes(sorted)
  {
    key := name;
    var i := 0;
    while i < |sorted|
      invariant 0 <= i <= |sorted| && key == name + Suffixes(sorted[..i])
    {
      assert sorted[..i + 1][..i] == sorted[..i];
      key := key + [SEMICOLON];
      key := key + sorted[i].name;
      key := key + [EQUALS];
      key := key + sorted[i].value;
      assert key == name + (Suffixes(sorted[..i]) + Suffix(sorted[i]));
      i := i + 1;
    }
    assert sorted[..i] == sorted;
  }

  /** append_property_to_name: snprintf behind what is there. */
  method AppendProperty(buf: text, p: Property) returns (r: text)
    requires |buf| <= 255
    ensures r == Clip(buf + Suffix(p))
  {
    var room := 255 - |buf|;
    var s := Suffix(p);
    r := if |s| <= room then buf + s else buf + s[..room];
  }

  /** add_block_state: the same in a fixed buffer. */
  method TableKey(name: text, sorted: seq<Property>) returns (key: text)
    ensures key == Clip(name + Suffixes(sorted))
  {
    key := Clip(name);
    var i := 0;
    assert Clip(name + Suffixes(sorted[..0])) == Clip(name) by { assert name + [] == name; }
    while i < |sorted|
      invariant 0 <= i <= |sorted| && key == Clip(name + Suffixes(sorted[..i]))
    {
      assert sorted[..i + 1][..i] == sorted[..i];
      ClipTwice(name + Suffixes(sorted[..i]), Suffix(sorted[i]));
      assert name + Suffixes(sorted[..i]) + Suffix(sorted[i]) == name + Suffixes(sorted[..i + 1]);
      key := AppendProperty(key, sorted[i]);
      i := i + 1;
    }
    assert sorted[..i] == sorted;
  }

  lemma {:induction false} ClipTwice(a: text, b: text)
    ensures Clip(Clip(a) + b) == Clip(a + b)
  {
  }

  /** The key does not depend on the order of the properties: the palette's and the
    * table's agree exactly when the whole key fits the table's buffer. */
  lemma {:induction false} KeysAgreeIff(name: text, ps: seq<Property>, qs: seq<Property>, ps': seq<Property>,
          qs': seq<Property>)
    requires DistinctNames(ps) && multiset(ps) == multiset(qs) && SortOf(ps', ps) && SortOf(qs', qs)
    ensures name + Suffixes(ps') == Clip(name + Suffixes(qs')) <==> |name + Suffixes(ps)| < 256
  {
    SortIsUnique(ps, qs, ps', qs');
    SuffixesLength(ps);
    SuffixesLength(ps');
    LengthsInAnyOrder(ps, ps');
  }

  // ---- the length pass ------------------------------------------------------------------------

  function Lengths(ps: seq<Property>): nat {
    if ps == [] then 0 else Lengths(ps[..|ps| - 1]) + |ps[|ps| - 1].name| + |ps[|ps| - 1].value| + 2
  }

  /** block_name_and_properties_length: over the properties in palette order. */
  method KeyLength(name: text, ps: seq<Property>) returns (n: nat)
    ensures n == |name| + Lengths(ps) == |name + Suffixes(ps)|
  {
    n := |name|;
    var i := 0;
    while i < |ps|
      invariant 0 <= i <= |ps| && n == |name| + Lengths(ps[..i])
    {
      assert ps[..i + 1][..i] == ps[..i];
      n := n + |ps[i].name|;
      n := n + |ps[i].value|;
      n := n + 2;
      i := i + 1;
    }
    assert ps[..i] == ps;
    SuffixesLength(ps);
  }

  lemma {:induction false} SuffixesLength(ps: seq<Property>)
    ensures |Suffixes(ps)| == Lengths(ps)
  {
    if ps != [] { SuffixesLength(ps[..|ps| - 1]); }
  }

  lemma {:induction false} LengthsSplit(a: seq<Property>, b: seq<Property>)
    ensures Lengths(a + b) == Lengths(a) + Lengths(b)
  {
    if b == [] {
      assert a + b == a;
    } else {
      LengthsSplit(a, b[..|b| - 1]);
      assert (a + b)[..|a + b| - 1] == a + b[..|b| - 1];
    }
  }

  lemma {:induction false} WithoutOne(qs: seq<Property>, j: nat)
    requires j < |qs|
    ensures multiset(qs[..j] + qs[j + 1..]) == multiset(qs) - multiset{qs[j]}
  {
    assert qs == qs[..j] + ([qs[j]] + qs[j + 1..]);
  }

  /** The length is the same in any order, so the buffer fits the sorted key. */
  lemma {:induction false} LengthsInAnyOrder(ps: seq<Property>, qs: seq<Property>)
    requires multiset(ps) == multiset(qs)
    ensures Lengths(ps) == Lengths(qs)
    decreases |ps|
  {
    hide Lengths;
    assert |ps| == |multiset(ps)| == |multiset(qs)| == |qs|;
    if ps == [] {
      assert qs == ps;
    } else {
      var n := |ps| - 1;
      assert ps[n] in multiset(qs);
      var j :| 0 <= j < |qs| && qs[j] == ps[n];
      WithoutOne(qs, j);
      WithoutOne(ps, n);
      assert ps[..n] + ps[n + 1..] == ps[..n];
      LengthsInAnyOrder(ps[..n], qs[..j] + qs[j + 1..]);
      LengthsMiddle(qs, j);
      LengthsMiddle(ps, n);
    }
  }

  lemma {:induction false} LengthsMiddle(qs: seq<Property>, j: nat)
    requires j < |qs|
    ensures Lengths(qs) == Lengths(qs[..j] + qs[j + 1..]) + |qs[j].name| + |qs[j].value| + 2
  {
    LengthsSplit(qs[..j], qs[j + 1..]);
    LengthsSplit(qs[..j + 1], qs[j + 1..]);
    assert qs[..j + 1][..j] == qs[..j] && qs == qs[..j + 1] + qs[j + 1..];
  }

  /** The buffer allocated from the unsorted list is as long as the sorted key. */
  lemma {:induction false} BufferFits(name: text, ps: seq<Property>, sorted: seq<Property>)
    requires SortOf(sorted, ps)
    ensures |name| + Lengths(ps) == |name + Suffixes(sorted)|
  {
    LengthsInAnyOrder(ps, sorted);
    SuffixesLength(sorted);
  }

  /** A key of 256 characters, from a block without properties: the table has it without
    * its last one. */
  lemma {:induction false} LongKeyIsCut(name: text)
    requires |name| == 256
    ensures name + Suffixes([]) == name && Clip(name + Suffixes([])) == name[..255] != name
  {
    assert name + [] == name;
  }
}
