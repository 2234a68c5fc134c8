/** The words of a section as one number, its cells as the digits of that number, and the
  * place of a block among the cells. */
module SectionNumber {
  import opened Bytes
  import opened Section

  // ---- bits and numbers ----------------------------------------------------------------------

  lemma {:induction false} DoubledPower(n: nat, x: nat)
    ensures 2 * (Pow2(n) * x) == Pow2(n + 1) * x
  {
    assert Pow2(n + 1) == 2 * Pow2(n);
  }

  lemma {:induction false} AppendedBits(a: seq<bool>, b: seq<bool>)
    ensures ToInt(a + b) == ToInt(a) + Pow2(|a|) * ToInt(b)
  {
    if a == [] {
      assert a + b == b;
    } else {
      assert (a + b)[1..] == a[1..] + b;
      AppendedBits(a[1..], b);
      DoubledPower(|a| - 1, ToInt(b));
    }
  }

  lemma {:induction false} BitsBound(a: seq<bool>)
    ensures ToInt(a) < Pow2(|a|)
  {
    if a != [] { BitsBound(a[1..]); }
  }

  lemma {:induction false} Quotient(n: nat, d: nat, q: nat, r: nat)
    requires n == r + d * q && r < d
    ensures n / d == q && n % d == r
  {
    QuotientIs(n, d, q, r);
    assert n == d * (n / d) + n % d;
  }

  /** The bits from a on, b of them, are a digit of the number. */
  lemma {:induction false} SliceIsDigit(s: seq<bool>, a: nat, b: nat)
    requires a + b <= |s|
    ensures ToInt(s[a..a + b]) == ToInt(s) / Pow2(a) % Pow2(b)
  {
    var low, mid, high := s[..a], s[a..a + b], s[a + b..];
    assert s == low + (mid + high);
    AppendedBits(low, mid + high);
    AppendedBits(mid, high);
    BitsBound(low);
    BitsBound(mid);
    Quotient(ToInt(s), Pow2(a), ToInt(mid + high), ToInt(low));
    Quotient(ToInt(mid + high), Pow2(b), ToInt(high), ToInt(mid));
  }

  lemma {:induction false} NoBits(s: seq<bool>)
    requires forall i | 0 <= i < |s| :: !s[i]
    ensures ToInt(s) == 0
  {
    if s != [] { NoBits(s[1..]); }
  }

  // ---- words ------------------------------------------------------------------------------------

  /** The words as one number, the first the lowest. */
  function Number(words: seq<word>): nat {
    if words == [] then 0 else ToInt(words[0]) + Pow2(64) * Number(words[1..])
  }

  function Flat(words: seq<word>): (s: seq<bool>)
    ensures |s| == 64 * |words|
  {
    if words == [] then [] else words[0] + Flat(words[1..])
  }

  lemma {:induction false} FlatNumber(words: seq<word>)
    ensures ToInt(Flat(words)) == Number(words)
  {
    if words != [] {
      FlatNumber(words[1..]);
      AppendedBits(words[0], Flat(words[1..]));
    }
  }

  lemma {:induction false} FlatBit(words: seq<word>, n: nat)
    requires n < 64 * |words|
    ensures Flat(words)[n] == BitOf(words, n)
  {
    if n >= 64 {
      FlatBit(words[1..], n - 64);
      assert n / 64 == (n - 64) / 64 + 1 && n % 64 == (n - 64) % 64;
    } else {
      assert n / 64 == 0 && n % 64 == n;
    }
  }

  /** Cell k holds the digit of weight 2^(bits * k) of the number that the words are. */
  lemma {:induction false} CellIsDigit(words: seq<word>, bits: nat, k: nat)
    requires IsPacked(words, bits) && k < TOTAL_BLOCKSTATES
    ensures ToInt(ReadCell(words, bits, k)) == Number(words) / Pow2(k * bits) % Pow2(bits)
  {
    hide ReadCell, ToInt, Flat, Number, BitOf, Base;
    var cell, base, s := ReadCell(words, bits, k), Base(bits, k), Flat(words);
    BaseIsProduct(bits, k);
    BaseStep(bits, k, TOTAL_BLOCKSTATES);
    BaseIsProduct(bits, TOTAL_BLOCKSTATES);
    forall i | 0 <= i < 64 ensures cell[i] == (i < bits && s[base + i]) {
      ReadBits(words, bits, k, i);
      if i < bits { FlatBit(words, base + i); }
    }
    var mid, high := s[base..base + bits], cell[bits..];
    assert cell == mid + high;
    NoBits(high);
    AppendedBits(mid, high);
    SliceIsDigit(s, base, bits);
    FlatNumber(words);
  }

  // ---- blocks -------------------------------------------------------------------------------------

  lemma {:induction false} SmallIndex(x: nat, y: nat, z: nat)
    requires x < 16 && y < 16 && z < 16
    ensures BlockIndex(x, y, z) == 256 * y + 16 * z + x
  {
    assert x % 16 == x && y % 16 == y && z % 16 == z;
  }

  /** A block's eastern neighbour is in the next cell, its southern one 16 cells on, the one
    * above it 256 cells on; the first block is in the first cell. */
  lemma {:induction false} Neighbours(x: nat, y: nat, z: nat)
    requires x < 16 && y < 16 && z < 16
    ensures (x, y, z) == (0, 0, 0) ==> BlockIndex(x, y, z) == 0
    ensures x < 15 ==> BlockIndex(x + 1, y, z) == BlockIndex(x, y, z) + 1
    ensures z < 15 ==> BlockIndex(x, y, z + 1) == BlockIndex(x, y, z) + 16
    ensures y < 15 ==> BlockIndex(x, y + 1, z) == BlockIndex(x, y, z) + 256
  {
    hide BlockIndex;
    SmallIndex(x, y, z);
    if x < 15 { SmallIndex(x + 1, y, z); }
    if y < 15 { SmallIndex(x, y + 1, z); }
    if z < 15 { SmallIndex(x, y, z + 1); }
  }

  lemma {:induction false} Sixteenth(n: nat)
    ensures n % 16 < 16 && n % 16 % 16 == n % 16
  {
  }

  /** Blocks of the world are found by their place in their section. */
  lemma {:induction false} IndexInSection(x: nat, y: nat, z: nat)
    ensures BlockIndex(x, y, z) == BlockIndex(x % 16, y % 16, z % 16)
  {
    Sixteenth(x);
    Sixteenth(y);
    Sixteenth(z);
  }
}
