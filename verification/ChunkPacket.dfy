/** Filling chunk_data and update_light packets from a chunk: block counts over
  * packed sections, section masks and the arrays that go with them. */
module ChunkPacket {
  import opened Bytes
  import opened Schema
  import Section

  // ---- counting the blocks of a section ------------------------------------------------

  predicate IsAir(blockstate: int) {
    blockstate == 0 || blockstate == 9129 || blockstate == 9130
  }

  /** The cell the loop looks at in iteration b: its y and z are exchanged. */
  function Swap(b: nat): (k: nat)
    ensures k < Section.TOTAL_BLOCKSTATES
  {
    Section.BlockIndex(b % 16, (b / 16) % 16, b / 256)
  }

  lemma {:induction false} SwapTwice(b: nat)
    requires b < Section.TOTAL_BLOCKSTATES
    ensures Swap(Swap(b)) == b
  {
    hide Swap;
    var x, q := b % 16, b / 16;
    assert b == x + q * 16;
    assert q == (q / 16) * 16 + q % 16;
    SwapOf(x, q / 16, q % 16);
    SwapOf(x, q % 16, q / 16);
  }

  /** A cell index taken apart into its three nibbles and put together again. */
  lemma {:induction false} SwapOf(x: nat, y: nat, z: nat)
    requires x < 16 && y < 16 && z < 16
    ensures Swap(x + (y * 16 + z) * 16) == x + (z * 16 + y) * 16
  {
    ThreeNibbles(x, y, z);
  }

  lemma {:induction false} ThreeNibbles(x: nat, y: nat, z: nat)
    requires x < 16 && y < 16 && z < 16
    ensures var k := x + (y * 16 + z) * 16; k % 16 == x && (k / 16) % 16 == z && k / 256 == y
  {
    var k := x + (y * 16 + z) * 16;
    assert k / 16 == y * 16 + z;
  }

  /** Every palette index of the section is one of its palette. */
  predicate InPalette(cells: seq<Section.word>, palette: seq<int>) {
    forall k | 0 <= k < |cells| :: Section.ToInt(cells[k]) < |palette|
  }

  predicate NonAir(cells: seq<Section.word>, palette: seq<int>, k: nat)
    requires InPalette(cells, palette) && k < |cells|
  {
    !IsAir(palette[Section.ToInt(cells[k])])
  }

  /** The cells among the first n iterations that hold a block. */
  ghost function Counted(cells: seq<Section.word>, palette: seq<int>, n: nat): set<nat>
    requires InPalette(cells, palette) && |cells| == Section.TOTAL_BLOCKSTATES && n <= |cells|
  {
    set b: nat | b < n && NonAir(cells, palette, Swap(b))
  }

  ghost function Blocks(cells: seq<Section.word>, palette: seq<int>): set<nat>
    requires InPalette(cells, palette)
  {
    set k: nat | k < |cells| && NonAir(cells, palette, k)
  }

  /** Exchanging y and z is injective, so it does not shrink a set. */
  lemma {:induction false} SwapInto(a: set<nat>, b: set<nat>)
    requires forall k | k in a :: k < Section.TOTAL_BLOCKSTATES && Swap(k) in b
    ensures |a| <= |b|
  {
    hide Swap;
    if a != {} {
      var k :| k in a;
      forall j | j in a - {k} ensures Swap(j) in b - {Swap(k)} {
        SwapTwice(j);
        SwapTwice(k);
      }
      SwapInto(a - {k}, b - {Swap(k)});
    }
  }

  lemma {:induction false} CountedIsBlocks(cells: seq<Section.word>, palette: seq<int>)
    requires InPalette(cells, palette) && |cells| == Section.TOTAL_BLOCKSTATES
    ensures |Counted(cells, palette, |cells|)| == |Blocks(cells, palette)|
  {
    hide Swap, NonAir, InPalette;
    var a, b := Counted(cells, palette, |cells|), Blocks(cells, palette);
    SwapInto(a, b);
    forall k | k in b ensures Swap(k) in a {
      SwapTwice(k);
    }
    SwapInto(b, a);
  }

  /** The counted cells are those that hold neither air, nor cave air, nor void air. */
  lemma {:induction false} AirIs(cells: seq<Section.word>, palette: seq<int>)
    requires InPalette(cells, palette) && |cells| == 4096
    ensures Blocks(cells, palette) == set k | 0 <= k < 4096 && palette[Section.ToInt(cells[k])] !in [0, 9129, 9130]
  {
    hide Section.ToInt;
    assert forall n: int :: n in [0, 9129, 9130] <==> n == 0 || n == 9129 || n == 9130;
  }

  /** block_count is the number of cells that do not hold air. */
  method CountBlocks(s: Section.Section, palette: seq<int>) returns (count: nat)
    requires s.Valid() && InPalette(s.Cells(), palette)
    ensures count == |Blocks(s.Cells(), palette)|
  {
    hide Section.CellsOf, Section.IsPacked, Section.BlockIndex, Section.ToInt, IsAir;
    ghost var cells := s.Cells();
    count := 0;
    var b := 0;
    while b < Section.TOTAL_BLOCKSTATES
      invariant 0 <= b <= Section.TOTAL_BLOCKSTATES
      invariant count == |Counted(cells, palette, b)|
    {
      var cell := s.ReadBlockstateAt(b % 16, (b / 16) % 16, b / 256);
      assert cell == cells[Swap(b)];
      ghost var before, after := Counted(cells, palette, b), Counted(cells, palette, b + 1);
      if !IsAir(palette[Section.ToInt(cell)]) {
        assert after == before + {b};
        count := count + 1;
      } else {
        assert after == before;
      }
      b := b + 1;
    }
    CountedIsBlocks(cells, palette);
  }

  // ---- masks --------------------------------------------------------------------------

  function BitOr(a: nat, b: nat): nat {
    if a == 0 && b == 0 then 0
    else (if a % 2 == 1 || b % 2 == 1 then 1 else 0) + 2 * BitOr(a / 2, b / 2)
  }

  predicate Bit(m: nat, i: nat) {
    if i == 0 then m % 2 == 1 else Bit(m / 2, i - 1)
  }

  /** The bits of m below i. */
  function Low(m: nat, i: nat): nat {
    if i == 0 then 0 else m % 2 + 2 * Low(m / 2, i - 1)
  }

  /** The bits of ~m below n: m is a non-negative int, so ~m is -1 - m. */
  function OtherBits(m: nat, n: nat): nat {
    (-1 - m) % Pow2(n)
  }

  lemma {:induction false} BitOrZero(a: nat)
    ensures BitOr(a, 0) == a
  {
    if a > 0 { BitOrZero(a / 2); }
  }

  lemma {:induction false} CarryTwo(n: nat, p: nat, q: nat, r: nat)
    requires n / 2 == p * q + r && r < p
    ensures n == 2 * p * q + (2 * r + n % 2) && 2 * r + n % 2 < 2 * p
  {
    var m := p * q;
    assert n == 2 * (m + r) + n % 2;
    assert 2 * p * q == 2 * m;
  }

  /** Dividing a number and its half: the quotients agree, the rests carry over. */
  lemma {:induction false} Halved(n: nat, p: nat)
    requires p > 0
    ensures n / 2 / p == n / (2 * p) && n % (2 * p) == 2 * (n / 2 % p) + n % 2
  {
    var q, r := Divided(n / 2, p);
    RestIs(n / 2, p, q, r);
    CarryTwo(n, p, q, r);
    QuotientIs(n, 2 * p, q, 2 * r + n % 2);
    RestIs(n, 2 * p, q, 2 * r + n % 2);
  }

  lemma {:induction false} RestIs(m: nat, d: nat, q: nat, r: nat)
    requires d > 0 && m == d * q + r && m / d == q
    ensures m % d == r
  {
  }

  /** Bit i is the binary digit of weight 2^i. */
  lemma {:induction false} BitIsDigit(m: nat, i: nat)
    ensures Bit(m, i) <==> m / Pow2(i) % 2 == 1
  {
    if i == 0 {
      assert m / 1 == m;
    } else {
      BitIsDigit(m / 2, i - 1);
      Halved(m, Pow2(i - 1));
    }
  }

  /** The bits below i are the rest of the division by 2^i. */
  lemma {:induction false} LowIsRest(m: nat, i: nat)
    ensures Low(m, i) == m % Pow2(i)
  {
    if i > 0 {
      LowIsRest(m / 2, i - 1);
      Halved(m, Pow2(i - 1));
    }
  }

  /** Setting a bit above all others adds its weight and one to the count. */
  lemma {:induction false} SetTopBit(m: nat, i: nat)
    requires m < Pow2(i)
    ensures BitOr(m, Pow2(i)) == m + Pow2(i) < Pow2(i + 1)
    ensures PopCount(m + Pow2(i)) == PopCount(m) + 1
  {
    if i == 0 {
      assert BitOr(0, 1) == 1 + 2 * BitOr(0, 0);
      assert PopCount(1) == 1 + PopCount(0);
    } else {
      SetTopBit(m / 2, i - 1);
      assert (m + Pow2(i)) / 2 == m / 2 + Pow2(i - 1);
    }
  }

  lemma {:induction false} SetTopBitAt(m: nat, i: nat, j: nat)
    requires m < Pow2(i)
    ensures Bit(m + Pow2(i), j) == (Bit(m, j) || j == i)
  {
    if i == 0 {
      ZeroBit(j);
      if j > 0 { ZeroBit(j - 1); }
    } else {
      assert (m + Pow2(i)) / 2 == m / 2 + Pow2(i - 1);
      if j > 0 { SetTopBitAt(m / 2, i - 1, j - 1); }
    }
  }

  lemma {:induction false} ZeroBit(j: nat)
    ensures !Bit(0, j)
  {
    if j > 0 { ZeroBit(j - 1); }
  }

  /** A mask and its empty mask share no bit, and below n every bit is in one. */
  lemma {:induction false} OtherBitsPartition(m: nat, n: nat, i: nat)
    requires m < Pow2(n)
    ensures OtherBits(m, n) == Pow2(n) - 1 - m
    ensures Bit(OtherBits(m, n), i) <==> (i < n && !Bit(m, i))
    decreases n
  {
    assert (-1 - m) % Pow2(n) == Pow2(n) - 1 - m by {
      ModOfNegative(m, Pow2(n));
    }
    if n == 0 {
      ZeroBit(i);
    } else {
      if i > 0 {
        OtherBitsPartition(m / 2, n - 1, i - 1);
        assert (Pow2(n) - 1 - m) / 2 == Pow2(n - 1) - 1 - m / 2;
      }
    }
  }

  lemma {:induction false} ModOfNegative(m: nat, p: nat)
    requires m < p
    ensures (-1 - m) % p == p - 1 - m
  {
    assert (-1 - m) / p == -1;
  }

  // ---- which sections are present ---------------------------------------------------------

  /** A bit for every entry that is present. */
  function MaskOf<T>(ls: seq<Option<T>>): nat {
    if ls == [] then 0
    else MaskOf(ls[..|ls| - 1]) + if ls[|ls| - 1].Some? then Pow2(|ls| - 1) else 0
  }

  /** The present entries in order. */
  function Only<T>(ls: seq<Option<T>>): seq<T> {
    if ls == [] then []
    else Only(ls[..|ls| - 1]) + if ls[|ls| - 1].Some? then [ls[|ls| - 1].value] else []
  }

  /** The set bits of the mask are the entries that are present, and there are as
    * many arrays as set bits. */
  lemma {:induction false} MaskBits<T>(ls: seq<Option<T>>, i: nat)
    ensures MaskOf(ls) < Pow2(|ls|)
    ensures Bit(MaskOf(ls), i) <==> (i < |ls| && ls[i].Some?)
    ensures |Only(ls)| == PopCount(MaskOf(ls))
  {
    if ls == [] {
      ZeroBit(i);
    } else {
      var init := ls[..|ls| - 1];
      MaskBits(init, i);
      SetTopBit(MaskOf(init), |init|);
      SetTopBitAt(MaskOf(init), |init|, i);
      assert i < |init| ==> init[i] == ls[i];
    }
  }

  /** The array of a set bit is found by the number of set bits below it. */
  lemma {:induction false} ArrayOfBit<T>(ls: seq<Option<T>>, i: nat)
    requires i < |ls| && ls[i].Some?
    ensures Low(MaskOf(ls), i) == MaskOf(ls[..i])
    ensures var k := PopCount(Low(MaskOf(ls), i)); k < |Only(ls)| && Only(ls)[k] == ls[i].value
  {
    var n := |ls| - 1;
    var init := ls[..n];
    MaskBits(ls[..i], i);
    if i < n {
      assert init[..i] == ls[..i] && init[i] == ls[i];
      ArrayOfBit(init, i);
    }
    MaskBits(init, i);
    LowOfTop(MaskOf(init), i, n);
  }

  lemma {:induction false} LowOfTop(m: nat, i: nat, n: nat)
    requires i <= n && m < Pow2(n)
    ensures Low(m + Pow2(n), i) == Low(m, i)
    ensures i == n ==> Low(m, i) == m
  {
    if i > 0 {
      assert (m + Pow2(n)) / 2 == m / 2 + Pow2(n - 1);
      LowOfTop(m / 2, i - 1, n - 1);
    }
  }

  // ---- light -----------------------------------------------------------------------------

  const CHUNK_SECTIONS_LEN := 18
  const SECTION_LIGHT_LEN := 2048

  datatype SectionData = SectionData(bitsPerBlock: int, skyLight: Option<seq<byte>>, blockLight: Option<seq<byte>>)

  function SkyLight(s: Option<SectionData>): Option<seq<byte>> { if s.Some? then s.value.skyLight else None }

  function BlockLight(s: Option<SectionData>): Option<seq<byte>> { if s.Some? then s.value.blockLight else None }

  function Each<S, T>(f: S -> T, ss: seq<S>): (ts: seq<T>)
    ensures |ts| == |ss|
    ensures forall i | 0 <= i < |ss| :: ts[i] == f(ss[i])
  {
    seq(|ss|, i requires 0 <= i < |ss| => f(ss[i]))
  }

  /** One kind of light in an update_light packet. */
  datatype LightPart = LightPart(mask: nat, emptyMask: nat, arrays: seq<seq<byte>>)

  /** The packet says of each of the 18 sections whether light follows for it, and
    * the light that follows is the one of those sections, in order. */
  ghost predicate Describes(p: LightPart, ls: seq<Option<seq<byte>>>) {
    && (forall i: nat :: Bit(p.mask, i) <==> (i < |ls| && ls[i].Some?))
    && (forall i: nat :: Bit(p.emptyMask, i) <==> (i < CHUNK_SECTIONS_LEN && !Bit(p.mask, i)))
    && |p.arrays| == PopCount(p.mask)
    && forall i | 0 <= i < |ls| && ls[i].Some? ::
         var k := PopCount(Low(p.mask, i)); k < |p.arrays| && p.arrays[k] == ls[i].value
  }

  predicate InRange(p: LightPart) {
    p.mask < 0x4_0000 && p.emptyMask < 0x4_0000
  }

  lemma {:induction false} Pow2Is18()
    ensures Pow2(CHUNK_SECTIONS_LEN) == 0x4_0000
  {
    EightMore(0);
    EightMore(8);
    assert Pow2(17) == 2 * Pow2(16);
  }

  lemma {:induction false} PartDescribes(ls: seq<Option<seq<byte>>>)
    requires |ls| <= CHUNK_SECTIONS_LEN
    ensures InRange(LightPart(MaskOf(ls), OtherBits(MaskOf(ls), CHUNK_SECTIONS_LEN), Only(ls)))
    ensures Describes(LightPart(MaskOf(ls), OtherBits(MaskOf(ls), CHUNK_SECTIONS_LEN), Only(ls)), ls)
  {
    hide MaskOf, OtherBits, Only, PopCount, Bit;
    MaskBits(ls, 0);
    PowGrows(|ls|, CHUNK_SECTIONS_LEN);
    Pow2Is18();
    OtherBitsPartition(MaskOf(ls), CHUNK_SECTIONS_LEN, 0);
    forall i: nat
      ensures Bit(MaskOf(ls), i) <==> (i < |ls| && ls[i].Some?)
      ensures Bit(OtherBits(MaskOf(ls), CHUNK_SECTIONS_LEN), i) <==> (i < CHUNK_SECTIONS_LEN && !Bit(MaskOf(ls), i))
    {
      MaskBits(ls, i);
      OtherBitsPartition(MaskOf(ls), CHUNK_SECTIONS_LEN, i);
    }
    forall i | 0 <= i < |ls| && ls[i].Some?
      ensures var k := PopCount(Low(MaskOf(ls), i)); k < |Only(ls)| && Only(ls)[k] == ls[i].value
    {
      ArrayOfBit(ls, i);
    }
  }

  lemma {:induction false} OneMore<T>(ls: seq<Option<T>>, i: nat)
    requires i < |ls|
    ensures MaskOf(ls[..i]) < Pow2(i)
    ensures MaskOf(ls[..i + 1]) == if ls[i].Some? then BitOr(MaskOf(ls[..i]), Pow2(i)) else MaskOf(ls[..i])
    ensures Only(ls[..i + 1]) == Only(ls[..i]) + if ls[i].Some? then [ls[i].value] else []
  {
    hide PopCount, Bit, BitOr;
    MaskBits(ls[..i], 0);
    SetTopBit(MaskOf(ls[..i]), i);
    assert ls[..i + 1][..i] == ls[..i];
  }

  /** write_light_data_to_packet */
  method WriteLight(sections: seq<Option<SectionData>>) returns (sky: LightPart, block: LightPart)
    requires |sections| <= CHUNK_SECTIONS_LEN
    ensures Describes(sky, Each(SkyLight, sections)) && Describes(block, Each(BlockLight, sections))
    ensures sky.arrays == Only(Each(SkyLight, sections)) && block.arrays == Only(Each(BlockLight, sections))
    ensures InRange(sky) && InRange(block)
  {
    hide Describes, InRange, MaskOf, BitOr, Only;
    ghost var skies, blocks := Each(SkyLight, sections), Each(BlockLight, sections);
    var skyMask, blockMask: nat := 0, 0;
    var skyLight, blockLight: seq<seq<byte>> := [], [];
    var i := 0;
    NothingYet(skies);
    NothingYet(blocks);
    while i < |sections|
      invariant 0 <= i <= |sections|
      invariant skyMask == MaskOf(skies[..i]) && skyLight == Only(skies[..i])
      invariant blockMask == MaskOf(blocks[..i]) && blockLight == Only(blocks[..i])
    {
      OneMore(skies, i);
      OneMore(blocks, i);
      if sections[i].Some? {
        if sections[i].value.skyLight.Some? {
          skyMask := BitOr(skyMask, Pow2(i));
          skyLight := skyLight + [sections[i].value.skyLight.value];
        }
        if sections[i].value.blockLight.Some? {
          blockMask := BitOr(blockMask, Pow2(i));
          blockLight := blockLight + [sections[i].value.blockLight.value];
        }
      }
      i := i + 1;
    }
    assert skies[..i] == skies && blocks[..i] == blocks;
    sky := LightPart(skyMask, OtherBits(skyMask, CHUNK_SECTIONS_LEN), skyLight);
    block := LightPart(blockMask, OtherBits(blockMask, CHUNK_SECTIONS_LEN), blockLight);
    PartDescribes(skies);
    PartDescribes(blocks);
  }

  lemma {:induction false} NothingYet<T>(ls: seq<Option<T>>)
    ensures MaskOf(ls[..0]) == 0 && Only(ls[..0]) == []
  {
  }

  // ---- the sections of a chunk ---------------------------------------------------------------

  /** The sections that have blocks, each by its index. */
  function Filled(bits: seq<int>): seq<Option<nat>> {
    seq(|bits|, i requires 0 <= i < |bits| => if bits[i] > 0 then Some(i) else None)
  }

  lemma {:induction false} ListedBits(bits: seq<int>)
    ensures var mask := if bits == [] then 0 else MaskOf(Filled(bits)[1..]);
            forall i: nat :: Bit(mask, i) <==> i + 1 < |bits| && bits[i + 1] > 0
    ensures forall i | 0 <= i < |bits| && bits[i] > 0 ::
              var k := PopCount(Low(MaskOf(Filled(bits)), i));
              k < |Only(Filled(bits))| && Only(Filled(bits))[k] == i
  {
    hide Bit, MaskOf, Only, PopCount, Low;
    if bits == [] {
      forall i: nat ensures !Bit(0, i) {
        ZeroBit(i);
      }
    } else {
      forall i: nat ensures Bit(MaskOf(Filled(bits)[1..]), i) <==> i + 1 < |bits| && bits[i + 1] > 0 {
        MaskBits(Filled(bits)[1..], i);
      }
    }
    forall i | 0 <= i < |bits| && bits[i] > 0
      ensures var k := PopCount(Low(MaskOf(Filled(bits)), i));
              k < |Only(Filled(bits))| && Only(Filled(bits))[k] == i
    {
      ArrayOfBit(Filled(bits), i);
    }
  }

  /** The section list of a chunk_data packet: the mask starts at section 1, the
    * list at section 0, and the emitted writer sends as many as the mask has bits. */
  method ListSections(bits: seq<int>) returns (mask: nat, listed: seq<nat>)
    requires |bits| <= CHUNK_SECTIONS_LEN
    ensures mask == if bits == [] then 0 else MaskOf(Filled(bits)[1..])
    ensures listed == Only(Filled(bits))
    ensures forall i: nat :: Bit(mask, i) <==> i + 1 < |bits| && bits[i + 1] > 0
    ensures forall i | 0 <= i < |bits| && bits[i] > 0 ::
              var k := PopCount(Low(MaskOf(Filled(bits)), i)); k < |listed| && listed[k] == i
  {
    ListedBits(bits);
    hide MaskOf, Only, BitOr;
    ghost var filled := Filled(bits);
    ghost var tail := if bits == [] then [] else filled[1..];
    mask := 0;
    var i := 1;
    NothingYet(tail);
    while i < |bits|
      invariant 1 <= i && (i <= |bits| || i == 1)
      invariant mask == MaskOf(tail[..i - 1])
    {
      OneMore(tail, i - 1);
      var hasBlocks := if bits[i] > 0 then Pow2(i - 1) else 0;
      if bits[i] <= 0 { BitOrZero(mask); }
      mask := BitOr(mask, hasBlocks);
      i := i + 1;
    }
    assert tail[..i - 1] == tail;
    listed := [];
    i := 0;
    NothingYet(filled);
    while i < |bits|
      invariant 0 <= i <= |bits|
      invariant listed == Only(filled[..i])
    {
      OneMore(filled, i);
      if bits[i] > 0 {
        listed := listed + [i];
      }
      i := i + 1;
    }
    assert filled[..i] == filled;
  }

  lemma {:induction false} PresentCons<T>(l: Option<T>, ls: seq<Option<T>>)
    ensures Only([l] + ls) == (if l.Some? then [l.value] else []) + Only(ls)
  {
    if ls == [] {
      assert [l] + ls == [l] && [l][..0] == [];
      assert Only([l]) == Only([l][..0]) + (if l.Some? then [l.value] else []);
    } else {
      var n := |ls| - 1;
      assert ([l] + ls)[..n + 1] == [l] + ls[..n];
      PresentCons(l, ls[..n]);
    }
  }

  lemma {:induction false} PresentAbove(ls: seq<Option<nat>>)
    requires forall k | 0 <= k < |ls| :: ls[k].Some? ==> ls[k].value > 0
    ensures 0 !in Only(ls)
  {
    if ls != [] { PresentAbove(ls[..|ls| - 1]); }
  }

  lemma {:induction false} ListedIs(bits: seq<int>)
    requires bits != []
    ensures Only(Filled(bits)) == (if bits[0] > 0 then [0] else []) + Only(Filled(bits)[1..])
  {
    hide Only;
    var filled := Filled(bits);
    PresentCons(filled[0], filled[1..]);
    assert filled == [filled[0]] + filled[1..];
  }

  lemma {:induction false} AnnouncedIs(bits: seq<int>)
    requires bits != []
    ensures 0 !in Only(Filled(bits)[1..])
    ensures Only(Filled(bits)[1..]) == [] <==> forall i | 0 < i < |bits| :: bits[i] <= 0
  {
    hide Only, MaskOf, PopCount, Low;
    var tail := Filled(bits)[1..];
    PresentAbove(tail);
    if i :| 0 < i < |bits| && bits[i] > 0 {
      assert tail[i - 1] == Some(i);
      ArrayOfBit(tail, i - 1);
    } else {
      AllAbsent(tail);
    }
  }

  /** The sections sent are the ones the mask announces, exactly when section 0 has
    * no blocks or no other section has any. */
  lemma {:induction false} SentMatchesMaskIff(bits: seq<int>)
    requires bits != []
    ensures var listed, announced := Only(Filled(bits)), Only(Filled(bits)[1..]);
      && PopCount(MaskOf(Filled(bits)[1..])) == |announced| <= |listed|
      && (listed[..|announced|] == announced
          <==> bits[0] <= 0 || forall i | 0 < i < |bits| :: bits[i] <= 0)
  {
    hide MaskOf, PopCount, Bit, Only;
    ListedIs(bits);
    AnnouncedIs(bits);
    MaskBits(Filled(bits)[1..], 0);
    hide Filled;
    var listed, announced := Only(Filled(bits)), Only(Filled(bits)[1..]);
    if bits[0] > 0 && announced != [] {
      assert listed[..|announced|][0] == 0 && announced[0] != 0;
    }
  }

  lemma {:induction false} AllAbsent<T>(ls: seq<Option<T>>)
    requires forall k | 0 <= k < |ls| :: ls[k].None?
    ensures Only(ls) == []
  {
    if ls != [] { AllAbsent(ls[..|ls| - 1]); }
  }

  /** Two sections with blocks: the mask announces section 1 and section 0 is sent. */
  lemma {:induction false} SectionZeroShiftsTheList()
    ensures var bits := [4, 4];
      && MaskOf(Filled(bits)[1..]) == 1 && Only(Filled(bits)) == [0, 1] && Only(Filled(bits)[1..]) == [1]
      && Only(Filled(bits))[..1] == [0]
  {
    var bits := [4, 4];
    var tail: seq<Option<nat>> := [Some(1)];
    assert Filled(bits) == [Some(0), Some(1)] && Filled(bits)[1..] == tail;
    assert tail[..0] == [] && MaskOf(tail[..0]) == 0 && Only(tail[..0]) == [];
    ListedIs(bits);
    assert [0] + [1] == [0, 1];
  }
}
