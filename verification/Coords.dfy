/** Coordinate arithmetic, with the division of C spelled out, and the keys and
  * slots of the two-level chunk index. */
module Coords {
  import opened Bytes

  /** Division and remainder that truncate toward zero. */
  function CDiv(a: int, b: int): int
    requires b > 0
  {
    if a >= 0 then a / b else -((-a) / b)
  }

  function CMod(a: int, b: int): int
    requires b > 0
  {
    a - b * CDiv(a, b)
  }

  function Scale(x: int, factor: int): int
    requires factor > 0
  {
    if x >= 0 then CDiv(x, factor) else CDiv(x + 1, factor) - 1
  }

  function CoordToChunk(x: int): int { Scale(x, 16) }

  function ChunkToRegion(x: int): int { Scale(x, 32) }

  /** The two branches of scale are one floor division. */
  lemma {:induction false} ScaleIsFloor(x: int)
    ensures 16 * CoordToChunk(x) <= x < 16 * CoordToChunk(x) + 16
    ensures 32 * ChunkToRegion(x) <= x < 32 * ChunkToRegion(x) + 32
  {
  }

  /** Moving by whole chunks moves the chunk coordinate by as many. */
  lemma {:induction false} ChunkShift(x: int, k: int)
    ensures CoordToChunk(x + 16 * k) == CoordToChunk(x) + k
  {
  }

  function LocalizedChunk(x: int): int {
    if x > 0 then CMod(x, 32) else CMod(x + 1, 32) - 1
  }

  /** CHUNK_COORD_TO_ARRAY_IDX: negative coordinates are mirrored. */
  function ArrayIdx(n: int): int {
    if n < 0 then (n + 1) * -1 else n
  }

  function Slot(x: int): (i: nat)
    ensures i < 32
  {
    ArrayIdx(LocalizedChunk(x))
  }

  /** A chunk coordinate is determined by its region and its slot. */
  function ChunkAtSlot(r: int, i: nat): int {
    if r >= 0 then 32 * r + i else 32 * (r + 1) - 1 - i
  }

  lemma {:induction false} SlotDeterminesChunk(x: int)
    ensures ChunkAtSlot(ChunkToRegion(x), Slot(x)) == x
  {
  }

  /** Slots count up from the region's border that is nearer to zero. */
  lemma {:induction false} SlotMirrored(n: nat)
    ensures Slot(n) == n % 32 == Slot(-1 - n)
  {
    assert CMod(n, 32) == n % 32 && CMod(0 - n, 32) == 0 - n % 32;
  }

  // ---- region keys ----------------------------------------------------------------

  function DecNat(n: nat): (s: seq<byte>)
    ensures s != [] && 44 !in s && 45 !in s
  {
    if n < 10 then [48 + n] else DecNat(n / 10) + [48 + n % 10]
  }

  /** printf("%d") */
  function Dec(x: int): (s: seq<byte>)
    ensures s != [] && 44 !in s
  {
    if x < 0 then [45] + DecNat(-x) else DecNat(x)
  }

  /** The number a string of digits stands for. */
  function Decimal(s: seq<byte>): int {
    if s == [] then 0 else 10 * Decimal(s[..|s| - 1]) + (s[|s| - 1] as int - 48)
  }

  /** The digits of n, without a leading zero. */
  lemma {:induction false} DecNatIsDecimal(n: nat)
    ensures var s := DecNat(n);
      && Decimal(s) == n && (forall i | 0 <= i < |s| :: 48 <= s[i] <= 57) && (n > 0 ==> s[0] != 48)
  {
    if n >= 10 {
      DecNatIsDecimal(n / 10);
      var s := DecNat(n);
      assert s[..|s| - 1] == DecNat(n / 10);
    } else {
      var s: seq<byte> := [48 + n];
      assert s[..0] == [];
    }
  }

  /** The key of the region at -1, 10. */
  lemma {:induction false} RegionStringOf()
    ensures RegionString(-1, 10) == [45, 49, 44, 49, 48]
  {
    assert DecNat(10) == DecNat(1) + [48] == [49, 48];
    assert Dec(-1) == [45] + DecNat(1) == [45, 49];
    DigitsEnough(-1);
    DigitsEnough(10);
  }

  lemma {:induction false} DecNatInjective(a: nat, b: nat)
    requires DecNat(a) == DecNat(b)
    ensures a == b
  {
    var s := DecNat(a);
    assert s[|s| - 1] == 48 + a % 10 == 48 + b % 10;
    if a >= 10 && b >= 10 {
      assert DecNat(a / 10) == s[..|s| - 1] == DecNat(b / 10);
      DecNatInjective(a / 10, b / 10);
    }
  }

  lemma {:induction false} DecInjective(a: int, b: int)
    requires Dec(a) == Dec(b)
    ensures a == b
  {
    if a < 0 || b < 0 {
      assert Dec(a)[0] == 45 <==> a < 0;
      assert Dec(b)[0] == 45 <==> b < 0;
      assert DecNat(-a) == Dec(a)[1..] == Dec(b)[1..] == DecNat(-b);
      DecNatInjective(-a, -b);
    } else {
      DecNatInjective(a, b);
    }
  }

  /** What the loop of digits adds for the digits themselves. */
  function Divisions(x: int): nat
    decreases if x < 0 then -x else x
  {
    if x == 0 then 0 else 1 + Divisions(CDiv(x, 10))
  }

  function Digits(x: int): nat {
    (if x < 0 then 1 else 0) + (if CMod(x, 10) == 0 then 1 else 0) + Divisions(x)
  }

  method CountDigits(x: int) returns (n: nat)
    ensures n == Digits(x)
  {
    n := (if x < 0 then 1 else 0) + (if CMod(x, 10) == 0 then 1 else 0);
    var y := x;
    while y != 0
      invariant n + Divisions(y) == Digits(x)
      decreases if y < 0 then -y else y
    {
      y := CDiv(y, 10);
      n := n + 1;
    }
  }

  lemma {:induction false} DivisionsLength(n: nat)
    ensures n > 0 ==> Divisions(n) == Divisions(0 - n) == |DecNat(n)|
  {
    if n >= 10 {
      DivisionsLength(n / 10);
    } else if n > 0 {
      assert CDiv(n, 10) == 0 && CDiv(0 - n, 10) == 0;
    }
  }

  /** The buffer of region_string is always large enough. */
  lemma {:induction false} DigitsEnough(x: int)
    ensures |Dec(x)| <= Digits(x)
  {
    DivisionsLength(if x < 0 then -x else x);
  }

  /** It is exactly as large, or by one larger for the multiples of ten but zero. */
  lemma {:induction false} DigitsAre(x: int)
    ensures Digits(x) == |Dec(x)| + if x != 0 && x % 10 == 0 then 1 else 0
  {
    DivisionsLength(if x < 0 then -x else x);
    assert CMod(x, 10) == 0 <==> x % 10 == 0;
    if x == 0 { assert |DecNat(0)| == 1; }
  }

  /** snprintf into a buffer of Digits(x) + Digits(z) + 2 bytes. */
  function RegionString(x: int, z: int): seq<byte> {
    var s := Dec(x) + [44] + Dec(z);
    var room := Digits(x) + Digits(z) + 1;
    if |s| <= room then s else s[..room]
  }

  lemma {:induction false} RegionStringInjective(x: int, z: int, x': int, z': int)
    requires RegionString(x, z) == RegionString(x', z')
    ensures x == x' && z == z'
  {
    DigitsEnough(x);
    DigitsEnough(z);
    DigitsEnough(x');
    DigitsEnough(z');
    CommaSplit(Dec(x), Dec(z), Dec(x'), Dec(z'));
    DecInjective(x, x');
    DecInjective(z, z');
  }

  lemma {:induction false} CommaSplit(a: seq<byte>, b: seq<byte>, c: seq<byte>, d: seq<byte>)
    requires 44 !in a && 44 !in c && a + [44] + b == c + [44] + d
    ensures a == c && b == d
  {
    var s := a + [44] + b;
    assert s[|a|] == 44 && s[|c|] == 44;
    assert forall i | 0 <= i < |a| :: s[i] == a[i] && s[i] != 44;
    assert forall i | 0 <= i < |c| :: s[i] == c[i] && s[i] != 44;
    assert a == s[..|a|] == c && b == s[|a| + 1..] == d;
  }
}
