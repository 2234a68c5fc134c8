/** Bit-packed block storage: 4096 cells of 4 to 8 bits in 64-bit words, cells
  * straddling word boundaries. A machine word is its 64 bits, lowest first. */
module Section {
  import opened Bytes

  const TOTAL_BLOCKSTATES := 4096

  // ---- machine words --------------------------------------------------------------

  type word = w: seq<bool> | |w| == 64 witness seq(64, _ => false)

  const ZERO: word := seq(64, _ => false)

  function Or(a: word, b: word): word {
    seq(64, i requires 0 <= i < 64 => a[i] || b[i])
  }

  function And(a: word, b: word): word {
    seq(64, i requires 0 <= i < 64 => a[i] && b[i])
  }

  /** w >> n */
  function Shr(w: word, n: nat): word {
    seq(64, i requires 0 <= i < 64 => i + n < 64 && w[i + n])
  }

  /** w << n */
  function Shl(w: word, n: nat): word {
    seq(64, i requires 0 <= i < 64 => n <= i && w[i - n])
  }

  /** (1 << n) - 1 */
  function Mask(n: nat): word {
    seq(64, i requires 0 <= i < 64 => i < n)
  }

  /** The len low bits of n. */
  function OfInt(n: nat, len: nat): (w: seq<bool>)
    ensures |w| == len
  {
    if len == 0 then [] else [n % 2 == 1] + OfInt(n / 2, len - 1)
  }

  function ToInt(w: seq<bool>): nat {
    if w == [] then 0 else (if w[0] then 1 else 0) + 2 * ToInt(w[1..])
  }

  lemma {:induction false} IntRoundTrip(n: nat, len: nat)
    requires n < Pow2(len)
    ensures ToInt(OfInt(n, len)) == n
  {
    if len > 0 {
      IntRoundTrip(n / 2, len - 1);
      assert OfInt(n, len)[1..] == OfInt(n / 2, len - 1);
    }
  }

  /** A number below 2^bits has no bit at or above position bits. */
  lemma {:induction false} HighBitsClear(n: nat, len: nat, bits: nat, i: nat)
    requires n < Pow2(bits) && bits <= i < len
    ensures !OfInt(n, len)[i]
  {
    if bits == 0 {
      if i > 0 { HighBitsClear(0, len - 1, 0, i - 1); }
    } else {
      HighBitsClear(n / 2, len - 1, bits - 1, i - 1);
    }
  }

  lemma {:induction false} MaskedInt(n: nat, bits: nat)
    requires n < Pow2(bits)
    ensures And(OfInt(n, 64), Mask(bits)) == OfInt(n, 64)
  {
    forall i | 0 <= i < 64 ensures And(OfInt(n, 64), Mask(bits))[i] == OfInt(n, 64)[i] {
      if bits <= i { HighBitsClear(n, 64, bits, i); }
    }
  }

  // ---- where a cell lives -------------------------------------------------------

  function BlockIndex(x: nat, y: nat, z: nat): (k: nat)
    ensures k < TOTAL_BLOCKSTATES
  {
    x % 16 + ((y % 16) * 16 + z % 16) * 16
  }

  datatype BlockPos = BlockPos(mask: word, offset: nat, startLong: nat, endLong: nat)

  /** block_index * bits_per_block: where cell k starts in the bit string. */
  function Base(bits: nat, k: nat): nat {
    if k == 0 then 0 else bits + Base(bits, k - 1)
  }

  lemma {:induction false} BaseIsProduct(bits: nat, k: nat)
    ensures Base(bits, k) == k * bits
  {
    if k > 0 { BaseIsProduct(bits, k - 1); }
  }

  lemma {:induction false} BaseStep(bits: nat, j: nat, k: nat)
    requires j < k
    ensures Base(bits, j) + bits <= Base(bits, k)
    decreases k
  {
    if j < k - 1 { BaseStep(bits, j, k - 1); }
  }

  function Pos(bits: nat, k: nat): BlockPos
    requires 4 <= bits <= 8
  {
    var offset, start := Base(bits, k) % 64, Base(bits, k) / 64;
    BlockPos(Mask(bits), offset, start, if 64 - offset == bits then start else Base(bits, k + 1) / 64)
  }

  /** No index reaches 64 * bits, and a cell spans two words exactly when it
    * does not fit in what is left of the first. */
  lemma {:induction false} PosInBounds(bits: nat, k: nat)
    requires 4 <= bits <= 8 && k < TOTAL_BLOCKSTATES
    ensures var p := Pos(bits, k);
      && p.mask == Mask(bits) && p.offset < 64 && p.startLong <= p.endLong < 64 * bits
      && 64 * p.startLong + p.offset == Base(bits, k)
      && (p.offset + bits <= 64 <==> p.endLong == p.startLong)
      && (p.offset + bits > 64 <==> p.endLong == p.startLong + 1)
  {
    BaseStep(bits, k, TOTAL_BLOCKSTATES);
    BaseIsProduct(bits, TOTAL_BLOCKSTATES);
    assert Base(bits, k + 1) == Base(bits, k) + bits;
  }

  // ---- reading and writing cells on values ----------------------------------------

  /** The words of a section with cells of the given width. */
  predicate IsPacked(words: seq<word>, bits: nat) {
    4 <= bits <= 8 && |words| == 64 * bits
  }

  /** read_blockstate_at; only the low eight bits survive the mask, so the
    * conversion to int in between does not matter. */
  function ReadCell(words: seq<word>, bits: nat, k: nat): word
    requires IsPacked(words, bits) && k < TOTAL_BLOCKSTATES
  {
    PosInBounds(bits, k);
    var p := Pos(bits, k);
    Extract(words[p.startLong], words[p.endLong], p)
  }

  function Extract(first: word, last: word, p: BlockPos): word
    requires p.offset < 64
  {
    var low := Shr(first, p.offset);
    And(if p.startLong != p.endLong then Or(low, Shl(last, 64 - p.offset)) else low, p.mask)
  }

  lemma {:induction false} ExtractBit(first: word, last: word, p: BlockPos, i: nat)
    requires p.offset < 64 && i < 64
    ensures Extract(first, last, p)[i] == (p.mask[i] &&
      if p.offset + i < 64 then first[p.offset + i] else p.startLong != p.endLong && last[p.offset + i - 64])
  {
  }

  function WriteCell(words: seq<word>, bits: nat, k: nat, value: word): (r: seq<word>)
    requires IsPacked(words, bits) && k < TOTAL_BLOCKSTATES
    ensures IsPacked(r, bits)
  {
    PosInBounds(bits, k);
    var p := Pos(bits, k);
    var v := And(value, p.mask);
    var words' := words[p.startLong := Or(words[p.startLong], Shl(v, p.offset))];
    if p.startLong != p.endLong then words'[p.endLong := Or(words'[p.endLong], Shr(v, 64 - p.offset))]
    else words'
  }

  /** The n-th bit of a section's bit string. */
  function BitOf(words: seq<word>, n: nat): bool
    requires n < 64 * |words|
  {
    words[n / 64][n % 64]
  }

  lemma {:induction false} BitInWord(words: seq<word>, w: nat, o: nat)
    requires w < |words| && o < 64
    ensures 64 * w + o < 64 * |words| && BitOf(words, 64 * w + o) == words[w][o]
  {
    assert (64 * w + o) / 64 == w && (64 * w + o) % 64 == o;
  }

  /** Extracting at p reads the bits of the string from base on. */
  lemma {:induction false} ExtractBits(words: seq<word>, p: BlockPos, base: nat, bits: nat, i: nat)
    requires p.offset < 64 && i < 64 && p.mask[i] == (i < bits)
    requires p.startLong < |words| && p.endLong < |words| && 64 * p.startLong + p.offset == base
    requires p.endLong == if p.offset + bits <= 64 then p.startLong else p.startLong + 1
    ensures i < bits ==> base + i < 64 * |words|
    ensures Extract(words[p.startLong], words[p.endLong], p)[i] == (i < bits && BitOf(words, base + i))
  {
    hide Extract, BitOf;
    ExtractBit(words[p.startLong], words[p.endLong], p, i);
    if i < bits {
      var (w, o) := if p.offset + i < 64 then (p.startLong, p.offset + i) else (p.endLong, p.offset + i - 64);
      BitInWord(words, w, o);
      assert base + i == 64 * w + o;
    }
  }

  /** Reading cell k reads the bits of the string from its base on. */
  lemma {:induction false} ReadBits(words: seq<word>, bits: nat, k: nat, i: nat)
    requires IsPacked(words, bits) && k < TOTAL_BLOCKSTATES && i < 64
    ensures i < bits ==> Base(bits, k) + i < 64 * |words|
    ensures ReadCell(words, bits, k)[i] == (i < bits && BitOf(words, Base(bits, k) + i))
  {
    hide Pos, Extract, BitOf, Base;
    PosInBounds(bits, k);
    ExtractBits(words, Pos(bits, k), Base(bits, k), bits, i);
  }

  /** Writing cell k ORs the value's bits into that range of the string and
    * changes no other bit. */
  lemma {:induction false} WriteBits(words: seq<word>, bits: nat, k: nat, value: word, n: nat)
    requires IsPacked(words, bits) && k < TOTAL_BLOCKSTATES && n < 64 * |words|
    ensures var b := Base(bits, k);
      BitOf(WriteCell(words, bits, k, value), n) == (BitOf(words, n) || (b <= n < b + bits && value[n - b]))
  {
    PosInBounds(bits, k);
    var p := Pos(bits, k);
    assert n == 64 * (n / 64) + n % 64;
  }

  lemma {:induction false} CellBit(words: seq<word>, bits: nat, k: nat, value: word, j: nat, i: nat)
    requires IsPacked(words, bits) && k < TOTAL_BLOCKSTATES && j < TOTAL_BLOCKSTATES && i < 64
    ensures ReadCell(WriteCell(words, bits, k, value), bits, j)[i]
        == (ReadCell(words, bits, j)[i] || (j == k && i < bits && value[i]))
  {
    hide ReadCell, WriteCell, BitOf, Base;
    var words' := WriteCell(words, bits, k, value);
    ReadBits(words', bits, j, i);
    ReadBits(words, bits, j, i);
    if i < bits {
      WriteBits(words, bits, k, value, Base(bits, j) + i);
      if j < k { BaseStep(bits, j, k); }
      if k < j { BaseStep(bits, k, j); }
    }
  }

  /** A write to cell k: that cell reads old OR value, every other cell as before. */
  lemma {:induction false} WriteThenRead(words: seq<word>, bits: nat, k: nat, value: word, j: nat)
    requires IsPacked(words, bits) && k < TOTAL_BLOCKSTATES && j < TOTAL_BLOCKSTATES
    ensures ReadCell(WriteCell(words, bits, k, value), bits, j)
         == if j == k then Or(ReadCell(words, bits, k), And(value, Mask(bits))) else ReadCell(words, bits, j)
  {
    var cell := ReadCell(WriteCell(words, bits, k, value), bits, j);
    var expected := if j == k then Or(ReadCell(words, bits, k), And(value, Mask(bits))) else ReadCell(words, bits, j);
    forall i | 0 <= i < 64 ensures cell[i] == expected[i] {
      CellBit(words, bits, k, value, j, i);
    }
  }

  /** The plain array of 4096 cells that packed words stand for. */
  function CellsOf(words: seq<word>, bits: nat): (cells: seq<word>)
    requires IsPacked(words, bits)
    ensures |cells| == TOTAL_BLOCKSTATES
  {
    seq(TOTAL_BLOCKSTATES, k requires 0 <= k < TOTAL_BLOCKSTATES => ReadCell(words, bits, k))
  }

  /** What a write does to the plain array. */
  function Written(cells: seq<word>, bits: nat, k: nat, value: word): seq<word>
    requires k < |cells|
  {
    cells[k := Or(cells[k], And(value, Mask(bits)))]
  }

  lemma {:induction false} WriteRefines(words: seq<word>, bits: nat, k: nat, value: word)
    requires IsPacked(words, bits) && k < TOTAL_BLOCKSTATES
    ensures CellsOf(WriteCell(words, bits, k, value), bits) == Written(CellsOf(words, bits), bits, k, value)
  {
    var a, b := CellsOf(WriteCell(words, bits, k, value), bits), Written(CellsOf(words, bits), bits, k, value);
    forall j | 0 <= j < TOTAL_BLOCKSTATES ensures a[j] == b[j] {
      WriteThenRead(words, bits, k, value, j);
    }
  }

  lemma {:induction false} ZeroCells(words: seq<word>, bits: nat, k: nat)
    requires IsPacked(words, bits) && k < TOTAL_BLOCKSTATES
    requires forall n | 0 <= n < |words| :: words[n] == ZERO
    ensures ReadCell(words, bits, k) == ZERO
  {
    hide ReadCell, Base;
    var cell := ReadCell(words, bits, k);
    forall i | 0 <= i < 64 ensures !cell[i] { ReadBits(words, bits, k, i); }
  }

  // ---- filling a section ---------------------------------------------------------

  /** Palette index v written to cell k. */
  datatype Write = Write(k: nat, v: nat)

  function WriteAll(words: seq<word>, bits: nat, ws: seq<Write>): (r: seq<word>)
    requires IsPacked(words, bits) && forall i | 0 <= i < |ws| :: ws[i].k < TOTAL_BLOCKSTATES
    ensures IsPacked(r, bits)
  {
    if ws == [] then words
    else
      var w := ws[|ws| - 1];
      WriteCell(WriteAll(words, bits, ws[..|ws| - 1]), bits, w.k, OfInt(w.v, 64))
  }

  /** Filling a zeroed section, each cell at most once and in any order, reads back
    * exactly the indices written, and zero in the other cells. */
  lemma {:induction false} FillReadsBack(words: seq<word>, bits: nat, ws: seq<Write>, j: nat)
    requires IsPacked(words, bits) && j < TOTAL_BLOCKSTATES
    requires forall n | 0 <= n < |words| :: words[n] == ZERO
    requires forall i | 0 <= i < |ws| :: ws[i].k < TOTAL_BLOCKSTATES && ws[i].v < Pow2(bits)
    requires forall i, i' | 0 <= i < i' < |ws| :: ws[i].k != ws[i'].k
    ensures forall i | 0 <= i < |ws| && ws[i].k == j :: ToInt(ReadCell(WriteAll(words, bits, ws), bits, j)) == ws[i].v
    ensures (forall i | 0 <= i < |ws| :: ws[i].k != j) ==> ReadCell(WriteAll(words, bits, ws), bits, j) == ZERO
  {
    hide ReadCell, WriteCell, ToInt, OfInt, Pow2, IsPacked;
    if ws == [] {
      ZeroCells(words, bits, j);
    } else {
      var init, w := ws[..|ws| - 1], ws[|ws| - 1];
      FillReadsBack(words, bits, init, j);
      WriteThenRead(WriteAll(words, bits, init), bits, w.k, OfInt(w.v, 64), j);
      if w.k == j {
        assert forall i | 0 <= i < |init| :: init[i].k != j;
        MaskedInt(w.v, bits);
        OrZero(OfInt(w.v, 64));
        PowGrows(bits, 64) by { Widths(words, bits); }
        IntRoundTrip(w.v, 64);
      }
    }
  }

  lemma {:induction false} Widths(words: seq<word>, bits: nat)
    requires IsPacked(words, bits)
    ensures 4 <= bits <= 8
  {
  }

  lemma {:induction false} OrZero(w: word)
    ensures Or(ZERO, w) == w
  {
  }

  // ---- the section object --------------------------------------------------------

  class Section {
    const bitsPerBlock: nat
    const blockstates: array<word>

    ghost predicate Valid()
      reads this, blockstates
    {
      IsPacked(blockstates[..], bitsPerBlock)
    }

    /** The plain array of 4096 cells this section refines. */
    ghost function Cells(): (c: seq<word>)
      requires Valid()
      reads this, blockstates
      ensures |c| == TOTAL_BLOCKSTATES
    {
      CellsOf(blockstates[..], bitsPerBlock)
    }

    /** A section with all words zero. */
    constructor (bits: nat)
      requires 4 <= bits <= 8
      ensures Valid() && fresh(blockstates) && bitsPerBlock == bits
      ensures forall k | 0 <= k < TOTAL_BLOCKSTATES :: Cells()[k] == ZERO
    {
      bitsPerBlock := bits;
      blockstates := new word[64 * bits](_ => ZERO);
      new;
      forall k | 0 <= k < TOTAL_BLOCKSTATES ensures Cells()[k] == ZERO {
        ZeroCells(blockstates[..], bits, k);
      }
    }

    method ReadBlockstateAt(x: nat, y: nat, z: nat) returns (r: word)
      requires Valid()
      ensures r == Cells()[BlockIndex(x, y, z)]
    {
      var k := BlockIndex(x, y, z);
      PosInBounds(bitsPerBlock, k);
      var p := Pos(bitsPerBlock, k);
      r := Shr(blockstates[p.startLong], p.offset);
      if p.startLong != p.endLong {
        r := Or(r, Shl(blockstates[p.endLong], 64 - p.offset));
      }
      r := And(r, p.mask);
    }

    method WriteBlockstateAt(x: nat, y: nat, z: nat, value: word)
      requires Valid()
      modifies blockstates
      ensures Valid()
      ensures Cells() == Written(old(Cells()), bitsPerBlock, BlockIndex(x, y, z), value)
    {
      var k := BlockIndex(x, y, z);
      PosInBounds(bitsPerBlock, k);
      var p := Pos(bitsPerBlock, k);
      var v := And(value, p.mask);
      blockstates[p.startLong] := Or(blockstates[p.startLong], Shl(v, p.offset));
      if p.startLong != p.endLong {
        blockstates[p.endLong] := Or(blockstates[p.endLong], Shr(v, 64 - p.offset));
      }
      assert blockstates[..] == WriteCell(old(blockstates[..]), bitsPerBlock, k, value);
      WriteRefines(old(blockstates[..]), bitsPerBlock, k, value);
    }
  }
}
