/** Bytes, big-endian integers and the protocol's VarInt, as values.
  * A read takes the remaining input and returns what is left of it. */
module Bytes {

  datatype Option<+T> = None | Some(value: T)

  type byte = b: int | 0 <= b < 256

  lemma {:induction false} Assoc3<T>(a: seq<T>, b: seq<T>, c: seq<T>)
    ensures a + b + c == a + (b + c)
  {
  }

  lemma {:induction false} Assoc4<T>(a: seq<T>, b: seq<T>, c: seq<T>, d: seq<T>)
    ensures a + b + c + d == a + (b + (c + d))
  {
  }

  /** One after the other. */
  function Joined(parts: seq<seq<byte>>): seq<byte> {
    if parts == [] then [] else parts[0] + Joined(parts[1..])
  }

  // ---- elements read one by one ---------------------------------------

  /** Elements already read, in front of what remains to be parsed. */
  ghost function Prepend<T>(done: seq<T>, p: Option<(seq<T>, seq<byte>)>): Option<(seq<T>, seq<byte>)> {
    match p
    case None => None
    case Some((ts, rest)) => Some((done + ts, rest))
  }

  lemma {:induction false} PrependNothing<T>(p: Option<(seq<T>, seq<byte>)>)
    ensures Prepend([], p) == p
  {
    if p.Some? { assert [] + p.value.0 == p.value.0; }
  }

  lemma {:induction false} PrependTo<T>(done: seq<T>, rest: seq<byte>)
    ensures Prepend(done, Some(([], rest))) == Some((done, rest))
  {
    assert done + [] == done;
  }

  lemma {:induction false} PrependStep<T>(done: seq<T>, t: T, p: Option<(seq<T>, seq<byte>)>)
    ensures Prepend(done + [t], p) == Prepend(done, Prepend([t], p))
  {
    if p.Some? { Assoc3(done, [t], p.value.0); }
  }

  // ---- numbers --------------------------------------------------------

  const TWO_32: int := 0x1_0000_0000

  function Pow2(n: nat): (p: nat)
    ensures p >= 1
  {
    if n == 0 then 1 else 2 * Pow2(n - 1)
  }

  lemma {:induction false} PowGrows(a: nat, b: nat)
    requires a <= b
    ensures Pow2(a) <= Pow2(b)
  {
    if a < b { PowGrows(a, b - 1); }
  }

  /** Number of distinct values of a w-byte word. */
  function Pow256(w: nat): (p: nat)
    ensures p >= 1
  {
    if w == 0 then 1 else 256 * Pow256(w - 1)
  }

  /** The low w bytes of n, most significant first (htons, htonl, htobe64). */
  function BigEndian(n: nat, w: nat): (bs: seq<byte>)
    ensures |bs| == w
  {
    if w == 0 then [] else BigEndian(n / 256, w - 1) + [n % 256]
  }

  function FromBigEndian(bs: seq<byte>): (n: nat)
    ensures n < Pow256(|bs|)
  {
    if bs == [] then 0 else FromBigEndian(bs[..|bs| - 1]) * 256 + bs[|bs| - 1]
  }

  lemma {:induction false} BigEndianRoundTrip(n: nat, w: nat)
    requires n < Pow256(w)
    ensures FromBigEndian(BigEndian(n, w)) == n
  {
    if w > 0 {
      BigEndianRoundTrip(n / 256, w - 1);
      assert BigEndian(n, w)[..w - 1] == BigEndian(n / 256, w - 1);
    }
  }

  lemma {:induction false} Multiples(d: nat, q: nat, q': nat)
    requires q < q'
    ensures d * q + d <= d * q'
    decreases q'
  {
    assert d * q' == d * (q' - 1) + d;
    if q < q' - 1 { Multiples(d, q, q' - 1); }
  }

  lemma {:induction false} QuotientIs(n: nat, d: nat, q: nat, r: nat)
    requires n == d * q + r && r < d
    ensures n / d == q
  {
    var q' := n / d;
    assert n == d * q' + n % d;
    if q' > q { Multiples(d, q, q'); }
    if q' < q { Multiples(d, q', q); }
  }

  lemma {:induction false} Carry256(n: nat, p: nat, q: nat, r: nat)
    requires n / 256 == p * q + r && r < p
    ensures n == 256 * p * q + (256 * r + n % 256) && 256 * r + n % 256 < 256 * p
  {
    var m := p * q;
    assert n == 256 * (m + r) + n % 256;
    assert 256 * p * q == 256 * m;
  }

  lemma {:induction false} Carry128(n: nat, p: nat, q: nat, r: nat)
    requires n / 128 == p * q + r && r < p
    ensures n == 128 * p * q + (128 * r + n % 128) && 128 * r + n % 128 < 128 * p
  {
    var m := p * q;
    assert n == 128 * (m + r) + n % 128;
    assert 128 * p * q == 128 * m;
  }

  lemma {:induction false} Divided(n: nat, p: nat) returns (q: nat, r: nat)
    requires p > 0
    ensures q == n / p && n == p * q + r && r < p
  {
    q, r := n / p, n % p;
  }

  /** Byte i of a word of w bytes is the digit of weight 256^(w-1-i). */
  lemma {:induction false} BigEndianDigit(n: nat, w: nat, i: nat)
    requires i < w
    ensures BigEndian(n, w)[i] == n / Pow256(w - 1 - i) % 256
    decreases w
  {
    if i == w - 1 {
      assert Pow256(0) == 1 && n / 1 == n;
    } else {
      BigEndianDigit(n / 256, w - 1, i);
      var p := Pow256(w - 2 - i);
      var q, r := Divided(n / 256, p);
      Carry256(n, p, q, r);
      QuotientIs(n, 256 * p, q, 256 * r + n % 256);
    }
  }

  lemma {:induction false} OneByte(b: byte)
    ensures BigEndian(b, 1) == [b]
  {
    assert BigEndian(b / 256, 0) == [];
  }

  lemma {:induction false} TwoBytes(a: byte, b: byte)
    ensures BigEndian(256 * a + b, 2) == [a, b]
  {
    var n := 256 * a + b;
    assert n / 256 == a && n % 256 == b;
    assert BigEndian(a, 1) == BigEndian(a / 256, 0) + [a % 256] == [a];
  }

  lemma {:induction false} FourBytes(a: byte, b: byte, c: byte, d: byte)
    ensures BigEndian(256 * (256 * (256 * a + b) + c) + d, 4) == [a, b, c, d]
  {
    hide BigEndian;
    TwoBytes(a, b);
    OneMoreByte(256 * a + b, 2, c);
    OneMoreByte(256 * (256 * a + b) + c, 3, d);
  }

  lemma {:induction false} OneMoreByte(n: nat, w: nat, b: byte)
    ensures BigEndian(256 * n + b, w + 1) == BigEndian(n, w) + [b]
  {
    assert (256 * n + b) / 256 == n && (256 * n + b) % 256 == b;
  }

  lemma {:induction false} EightBytes(n: nat, a: byte, b: byte, c: byte, d: byte)
    ensures BigEndian(256 * (256 * (256 * (256 * n + a) + b) + c) + d, 8) == BigEndian(n, 4) + [a, b, c, d]
  {
    hide BigEndian;
    OneMoreByte(n, 4, a);
    OneMoreByte(256 * n + a, 5, b);
    OneMoreByte(256 * (256 * n + a) + b, 6, c);
    OneMoreByte(256 * (256 * (256 * n + a) + b) + c, 7, d);
  }

  /** The sum of the bytes, each with its weight. */
  function Weighted(bs: seq<byte>): nat {
    if bs == [] then 0 else bs[0] * Pow256(|bs| - 1) + Weighted(bs[1..])
  }

  lemma {:induction false} WeightedSnoc(bs: seq<byte>, b: byte)
    ensures Weighted(bs + [b]) == 256 * Weighted(bs) + b
  {
    if bs == [] {
      assert [] + [b] == [b] && [b][1..] == [] && Pow256(0) == 1;
    } else {
      WeightedSnoc(bs[1..], b);
      assert (bs + [b])[1..] == bs[1..] + [b];
      assert bs[0] * (256 * Pow256(|bs| - 1)) == 256 * (bs[0] * Pow256(|bs| - 1));
    }
  }

  /** A word is read as the sum of its bytes, the first with the highest weight. */
  lemma {:induction false} FromBigEndianIsSum(bs: seq<byte>)
    ensures FromBigEndian(bs) == Weighted(bs)
  {
    if bs != [] {
      var n := |bs| - 1;
      FromBigEndianIsSum(bs[..n]);
      WeightedSnoc(bs[..n], bs[n]);
      assert bs[..n] + [bs[n]] == bs;
    }
  }

  // ---- VarInt ---------------------------------------------------------

  type u32 = n: int | 0 <= n < 0x1_0000_0000

  /** The bytes packet_write_varint emits: seven bits at a time, least
    * significant first, with the top bit set on all but the last. */
  function VarInt(i: nat): (bs: seq<byte>)
    ensures |bs| >= 1
  {
    if i < 128 then [i] else [i % 128 + 128] + VarInt(i / 128)
  }

  lemma {:induction false} SmallVarInt(i: nat)
    requires i < 128
    ensures VarInt(i) == [i]
  {
  }

  /** x << (7 * n) */
  function Shl7(x: nat, n: nat): (y: nat)
    ensures y >= x
  {
    if n == 0 then x else 128 * Shl7(x, n - 1)
  }

  lemma {:induction false} Shl7Add(x: nat, y: nat, n: nat)
    ensures Shl7(x + y, n) == Shl7(x, n) + Shl7(y, n)
  {
    if n > 0 { Shl7Add(x, y, n - 1); }
  }

  lemma {:induction false} Shl7Next(x: nat, n: nat)
    ensures Shl7(128 * x, n) == Shl7(x, n + 1)
  {
    if n > 0 { Shl7Next(x, n - 1); }
  }

  /** Splitting off the lowest group of seven bits. */
  lemma {:induction false} Shl7Split(x: nat, n: nat)
    ensures Shl7(x, n) == Shl7(x % 128, n) + Shl7(x / 128, n + 1)
  {
    Shl7Add(x % 128, 128 * (x / 128), n);
    Shl7Next(x / 128, n);
  }

  function Pow128(n: nat): (p: nat)
    ensures p >= 1
  {
    if n == 0 then 1 else 128 * Pow128(n - 1)
  }

  /** Byte k of a VarInt holds the digit of weight 128^k, and more than that only when
    * another byte follows. */
  lemma {:induction false} VarIntGroup(i: nat, k: nat)
    requires k < |VarInt(i)|
    ensures VarInt(i)[k] == i / Pow128(k) % 128 + if k < |VarInt(i)| - 1 then 128 else 0
  {
    if k == 0 {
      assert i / 1 == i;
    } else {
      VarIntGroup(i / 128, k - 1);
      var p := Pow128(k - 1);
      var q, r := Divided(i / 128, p);
      Carry128(i, p, q, r);
      QuotientIs(i, 128 * p, q, 128 * r + i % 128);
    }
  }

  /** The sum of the groups of seven bits, the first with the lowest weight. */
  function Groups7(bs: seq<byte>): nat {
    if bs == [] then 0 else bs[0] % 128 + 128 * Groups7(bs[1..])
  }

  datatype VarIntResult =
    | VarIntOk(v: u32, n: nat, rest: seq<byte>)
    /** The input ended, or went on after five bytes; v holds the groups read so far. */
    | VarIntEof(v: u32)
    | VarIntTooLong(v: u32)

  /** read_varint_gen with n bytes already folded into acc. */
  function ReadVarIntFrom(input: seq<byte>, n: nat, acc: u32): VarIntResult
    decreases |input|
  {
    if input == [] then VarIntEof(acc)
    else if n >= 5 then VarIntTooLong(acc)
    else
      var acc' := (acc + Shl7(input[0] % 128, n)) % TWO_32;
      if input[0] >= 128 then ReadVarIntFrom(input[1..], n + 1, acc')
      else VarIntOk(acc', n + 1, input[1..])
  }

  function ReadVarInt(input: seq<byte>): VarIntResult
  {
    ReadVarIntFrom(input, 0, 0)
  }

  /** A value takes n bytes exactly when it needs n groups of seven bits. */
  lemma {:induction false} VarIntLength(i: nat, n: nat)
    requires n >= 1
    ensures |VarInt(i)| <= n <==> i < Shl7(1, n)
  {
    if n > 1 && i >= 128 {
      VarIntLength(i / 128, n - 1);
    }
  }

  lemma {:induction false} Shl7Values(x: nat)
    ensures Shl7(x, 0) == x && Shl7(x, 4) == 268435456 * x && Shl7(x, 5) == 34359738368 * x
  {
    assert Shl7(x, 3) == 128 * Shl7(x, 2);
    assert Shl7(x, 4) == 128 * Shl7(x, 3);
    assert Shl7(x, 5) == 128 * Shl7(x, 4);
  }

  /** One group with its continuation bit set. */
  lemma {:induction false} ReadVarIntStep(g: nat, tail: seq<byte>, n: nat, acc: u32)
    requires g < 128 && n < 5 && acc + Shl7(g, n) < TWO_32
    ensures ReadVarIntFrom([g + 128] + tail, n, acc) == ReadVarIntFrom(tail, n + 1, acc + Shl7(g, n))
  {
    assert ([g + 128] + tail)[1..] == tail;
    assert (g + 128) % 128 == g;
    assert (acc + Shl7(g, n)) % TWO_32 == acc + Shl7(g, n);
  }

  lemma {:induction false} ReadVarIntLast(i: nat, n: nat, acc: u32, rest: seq<byte>)
    requires i < 128 && n < 5 && acc + Shl7(i, n) < TWO_32
    ensures ReadVarIntFrom(VarInt(i) + rest, n, acc) == VarIntOk(acc + Shl7(i, n), n + |VarInt(i)|, rest)
  {
    hide Shl7;
    assert (VarInt(i) + rest)[1..] == rest;
  }

  lemma {:induction false} ReadVarIntInverts(i: nat, n: nat, acc: u32, rest: seq<byte>)
    requires n < 5 && acc + Shl7(i, n) < TWO_32
    ensures ReadVarIntFrom(VarInt(i) + rest, n, acc)
         == VarIntOk(acc + Shl7(i, n), n + |VarInt(i)|, rest)
    decreases i
  {
    hide ReadVarIntFrom, Shl7;
    if i < 128 {
      ReadVarIntLast(i, n, acc, rest);
    } else {
      Shl7Split(i, n);
      assert n != 4 by { Shl7Values(i); }
      var q, g := i / 128, i % 128;
      assert VarInt(i) + rest == [g + 128] + (VarInt(q) + rest);
      ReadVarIntStep(g, VarInt(q) + rest, n, acc);
      ReadVarIntInverts(q, n + 1, acc + Shl7(g, n), rest);
    }
  }

  /** Reading what was written gives back the value, the number of bytes
    * written (between 1 and 5, and no more than the value needs) and the
    * untouched rest of the input. */
  lemma {:induction false} VarIntRoundTrip(v: u32, rest: seq<byte>)
    ensures ReadVarInt(VarInt(v) + rest) == VarIntOk(v, |VarInt(v)|, rest)
    ensures 1 <= |VarInt(v)| <= 5
    ensures |VarInt(v)| > 1 ==> v >= Shl7(1, |VarInt(v)| - 1)
  {
    Shl7Values(1);
    ReadVarIntInverts(v, 0, 0, rest);
    VarIntLength(v, 5);
    if |VarInt(v)| > 1 {
      VarIntLength(v, |VarInt(v)| - 1);
    }
  }

  /** No encoding is a prefix of the encoding of another value. */
  lemma {:induction false} VarIntPrefixFree(v: u32, w: u32)
    requires VarInt(v) <= VarInt(w)
    ensures v == w
  {
    var tail := VarInt(w)[|VarInt(v)|..];
    VarIntRoundTrip(v, tail);
    VarIntRoundTrip(w, []);
    assert VarInt(v) + tail == VarInt(w) == VarInt(w) + [];
  }

  lemma {:induction false} ReadVarIntConsumesFrom(input: seq<byte>, n: nat, acc: u32)
    requires acc < Shl7(1, n)
    ensures var r := ReadVarIntFrom(input, n, acc);
      r.VarIntOk? ==> n < r.n <= 5 && r.n - n <= |input| && r.rest == input[r.n - n..] && r.v < Shl7(1, r.n)
    decreases |input|
  {
    if input != [] && n < 5 {
      GroupBound(acc, input[0] % 128, n);
      if input[0] >= 128 {
        ReadVarIntConsumesFrom(input[1..], n + 1, (acc + Shl7(input[0] % 128, n)) % TWO_32);
        var r := ReadVarIntFrom(input, n, acc);
        if r.VarIntOk? {
          assert input[1..][r.n - n - 1..] == input[r.n - n..];
        }
      }
    }
  }

  lemma {:induction false} GroupBound(acc: nat, g: nat, n: nat)
    requires g < 128 && acc < Shl7(1, n)
    ensures (acc + Shl7(g, n)) % TWO_32 <= acc + Shl7(g, n) < Shl7(1, n + 1)
  {
    Shl7Next(1, n);
    Shl7Add(g, 128 - g, n);
    Shl7Add(1, 127 - g, n);
    assert 1 + (127 - g) == 128 - g;
    assert g + (128 - g) == 128;
  }

  lemma {:induction false} ModSum(a: nat, b: nat)
    ensures (a % TWO_32 + b) % TWO_32 == (a + b) % TWO_32
  {
    var q := a / TWO_32;
    assert a == TWO_32 * q + a % TWO_32;
    assert a + b == TWO_32 * q + (a % TWO_32 + b);
  }

  lemma {:induction false} ReadVarIntSumFrom(input: seq<byte>, n: nat, acc: u32)
    requires ReadVarIntFrom(input, n, acc).VarIntOk?
    ensures var r := ReadVarIntFrom(input, n, acc); var k := r.n - n;
      && 0 < k <= |input| && r.n <= 5 && r.rest == input[k..]
      && r.v == (acc + Shl7(Groups7(input[..k]), n)) % TWO_32
      && input[k - 1] < 128 && forall i | 0 <= i < k - 1 :: input[i] >= 128
    decreases |input|
  {
    hide Shl7, Groups7;
    var g := input[0] % 128;
    var r := ReadVarIntFrom(input, n, acc);
    var k := r.n - n;
    if input[0] < 128 {
      LastGroup7(input);
    } else {
      var acc' := (acc + Shl7(g, n)) % TWO_32;
      ReadVarIntSumFrom(input[1..], n + 1, acc');
      var y := Groups7(input[1..][..k - 1]);
      FirstGroup7(input, k);
      assert input[1..][k - 1..] == input[k..];
      assert forall i | 0 < i < k - 1 :: input[i] == input[1..][i - 1];
      SumStep(acc, g, y, n);
    }
  }

  lemma {:induction false} SumStep(acc: u32, g: nat, y: nat, n: nat)
    ensures ((acc + Shl7(g, n)) % TWO_32 + Shl7(y, n + 1)) % TWO_32 == (acc + Shl7(g + 128 * y, n)) % TWO_32
  {
    hide Shl7;
    Shl7Next(y, n);
    Shl7Add(g, 128 * y, n);
    ModSum(acc + Shl7(g, n), Shl7(y, n + 1));
  }

  lemma {:induction false} LastGroup7(input: seq<byte>)
    requires input != []
    ensures Groups7(input[..1]) == input[0] % 128
  {
    assert input[..1][1..] == [];
  }

  lemma {:induction false} FirstGroup7(input: seq<byte>, k: nat)
    requires 0 < k <= |input|
    ensures Groups7(input[..k]) == input[0] % 128 + 128 * Groups7(input[1..][..k - 1])
  {
    assert input[..k][1..] == input[1..][..k - 1];
  }

  /** A VarInt ends at its first byte below 128, one of the first five, and is read as the
    * sum of its groups modulo 2^32; the rest is left. */
  lemma {:induction false} ReadVarIntIsSum(input: seq<byte>)
    requires ReadVarInt(input).VarIntOk?
    ensures var r := ReadVarInt(input);
      && 0 < r.n <= |input| && r.n <= 5 && r.rest == input[r.n..]
      && r.v == Groups7(input[..r.n]) % TWO_32
      && input[r.n - 1] < 128 && forall i | 0 <= i < r.n - 1 :: input[i] >= 128
  {
    ReadVarIntSumFrom(input, 0, 0);
  }

  lemma {:induction false} ZeroShifted(n: nat)
    ensures Shl7(0, n) == 0
  {
    if n > 0 { ZeroShifted(n - 1); }
  }

  lemma {:induction false} Groups7Step(input: seq<byte>)
    requires input != []
    ensures Groups7(input) == input[0] % 128 + 128 * Groups7(input[1..])
  {
  }

  lemma {:induction false} ReadVarIntGoesOn(input: seq<byte>, n: nat, acc: u32)
    requires input != [] && n < 5 && input[0] >= 128
    ensures ReadVarIntFrom(input, n, acc)
         == ReadVarIntFrom(input[1..], n + 1, (acc + Shl7(input[0] % 128, n)) % TWO_32)
  {
  }

  lemma {:induction false} ReadVarIntEndsFrom(input: seq<byte>, n: nat, acc: u32)
    requires n <= 5
    ensures var r := ReadVarIntFrom(input, n, acc);
      && (r.VarIntEof? <==> |input| <= 5 - n && forall i | 0 <= i < |input| :: input[i] >= 128)
      && (r.VarIntTooLong? <==> |input| > 5 - n && forall i | 0 <= i < 5 - n :: input[i] >= 128)
      && (r.VarIntEof? ==> r.v == (acc + Shl7(Groups7(input), n)) % TWO_32)
    decreases |input|
  {
    assert Groups7([]) == 0;
    hide Shl7, Groups7;
    if input == [] {
      ZeroShifted(n);
    } else if n < 5 && input[0] >= 128 {
      ReadVarIntGoesOn(input, n, acc);
      hide ReadVarIntFrom;
      var g := input[0] % 128;
      var acc' := (acc + Shl7(g, n)) % TWO_32;
      ReadVarIntEndsFrom(input[1..], n + 1, acc');
      assert forall i | 0 < i < |input| :: input[i] == input[1..][i - 1];
      assert forall i | 0 <= i < |input| - 1 :: input[1..][i] == input[i + 1];
      Groups7Step(input);
      SumStep(acc, g, Groups7(input[1..]), n);
    }
  }

  /** The other two outcomes: an input of at most five bytes that all go on ends early, and
    * counts for what it holds; one of more than five whose first five go on is too long. */
  lemma {:induction false} ReadVarIntEnds(input: seq<byte>)
    ensures var r := ReadVarInt(input);
      && (r.VarIntEof? <==> |input| <= 5 && forall i | 0 <= i < |input| :: input[i] >= 128)
      && (r.VarIntTooLong? <==> |input| > 5 && forall i | 0 <= i < 5 :: input[i] >= 128)
      && (r.VarIntEof? ==> r.v == Groups7(input) % TWO_32)
  {
    ReadVarIntEndsFrom(input, 0, 0);
  }

  /** A successful read consumed at least the bytes of the minimal encoding,
    * even when the input was padded with redundant groups. */
  lemma {:induction false} ReadVarIntConsumes(input: seq<byte>)
    ensures ReadVarInt(input).VarIntOk? ==>
      var r := ReadVarInt(input);
      r.n <= |input| && r.rest == input[r.n..] && |VarInt(r.v)| <= r.n <= 5
  {
    ReadVarIntConsumesFrom(input, 0, 0);
    if ReadVarInt(input).VarIntOk? {
      VarIntLength(ReadVarInt(input).v, ReadVarInt(input).n);
    }
  }
}
