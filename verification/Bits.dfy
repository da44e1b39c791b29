/** Java's fixed-width integers over unbounded ones: two's-complement wrap-around, truncating
    division, and the bitwise operators, which are defined bit by bit. */
module Bits {

  function Pow2(k: nat): (r: nat)
    ensures r > 0
  {
    if k == 0 then 1 else 2 * Pow2(k - 1)
  }

  /** Java's byte. */
  type Byte = x: int | -128 <= x < 128

  /** The cast to byte: the value modulo 2^8, read as a signed number. */
  function ToByte(x: int): (r: Byte)
    ensures -128 <= x < 128 ==> r == x
  {
    (x + 128) % 256 - 128
  }

  /** The value an int variable keeps. */
  function ToInt(x: int): (r: int)
    ensures -0x8000_0000 <= r < 0x8000_0000
    ensures -0x8000_0000 <= x < 0x8000_0000 ==> r == x
  {
    (x + 0x8000_0000) % 0x1_0000_0000 - 0x8000_0000
  }

  /** The value a long variable keeps. */
  function ToLong(x: int): (r: int)
    ensures -0x8000_0000_0000_0000 <= r < 0x8000_0000_0000_0000
    ensures -0x8000_0000_0000_0000 <= x < 0x8000_0000_0000_0000 ==> r == x
  {
    (x + 0x8000_0000_0000_0000) % 0x1_0000_0000_0000_0000 - 0x8000_0000_0000_0000
  }

  /** Java's / truncates toward zero. */
  function JavaDiv(x: int, y: int): int
    requires y > 0
  {
    if x >= 0 then x / y else -((-x) / y)
  }

  /** Java's % takes the sign of the dividend. */
  function JavaMod(x: int, y: int): int
    requires y > 0
  {
    if x >= 0 then x % y else -((-x) % y)
  }

  function Abs(x: int): nat { if x < 0 then -x else x }

  function BitOr(x: int, y: int): int
    decreases Abs(x)
  {
    if x == 0 then y
    else if y == 0 then x
    else if x == -1 || y == -1 then -1
    else 2 * BitOr(x / 2, y / 2) + (if x % 2 == 1 || y % 2 == 1 then 1 else 0)
  }

  function BitAnd(x: int, y: int): int
    decreases Abs(x)
  {
    if x == 0 || y == 0 then 0
    else if x == -1 then y
    else if y == -1 then x
    else 2 * BitAnd(x / 2, y / 2) + (if x % 2 == 1 && y % 2 == 1 then 1 else 0)
  }

  /** Or-ing k low bits into a value whose k low bits are clear is addition, for negative values too. */
  lemma {:induction false} OrIsPlus(x: int, y: int, k: nat)
    requires 0 <= y < Pow2(k)
    ensures BitOr(x * Pow2(k), y) == x * Pow2(k) + y
  {
    if k > 0 && x != 0 && y != 0 {
      var h := x * Pow2(k - 1);
      assert x * Pow2(k) == 2 * h;
      OrIsPlus(x, y / 2, k - 1);
      assert BitOr(2 * h, y) == 2 * BitOr(h, y / 2) + (if y % 2 == 1 then 1 else 0);
    }
  }

  lemma AndOdd(x: int, m: int)
    requires m >= 1 && x != 0 && x != -1
    ensures BitAnd(x, 2 * m - 1) == 2 * BitAnd(x / 2, m - 1) + x % 2
  {
    assert (2 * m - 1) / 2 == m - 1 && (2 * m - 1) % 2 == 1;
  }

  /** Masking with k ones keeps the value modulo 2^k, for negative values too. */
  lemma {:induction false} AndIsMod(x: int, k: nat)
    ensures BitAnd(x, Pow2(k) - 1) == x % Pow2(k)
    decreases k
  {
    if x == -1 {
      MinusOne(Pow2(k));
    } else if k > 0 && x != 0 {
      AndIsMod(x / 2, k - 1);
      AndOdd(x, Pow2(k - 1));
      ModHalf(x, Pow2(k - 1));
    }
  }

  lemma MinusOne(m: nat)
    requires m > 0
    ensures -1 % m == m - 1
  {
    assert -1 == (-1) * m + (m - 1);
    DivModUnique(-1, m, -1, m - 1);
  }

  lemma MulMono(a: int, b: int, d: nat)
    requires a <= b
    ensures a * d <= b * d
  {
  }

  lemma DivModUnique(x: int, m: int, q: int, r: int)
    requires m > 0 && x == q * m + r && 0 <= r < m
    ensures x / m == q && x % m == r
  {
    var d := x / m - q;
    assert d * m == r - x % m by {
      assert x == (x / m) * m + x % m;
      assert d * m == (x / m) * m - q * m;
    }
    assert d >= 1 ==> d * m >= m;
    assert d <= -1 ==> d * m <= -m;
  }

  lemma ModHalf(x: int, m: nat)
    requires m > 0
    ensures x % (2 * m) == 2 * ((x / 2) % m) + x % 2
  {
    var q := (x / 2) / m;
    assert x / 2 == q * m + (x / 2) % m;
    assert x == q * (2 * m) + (2 * ((x / 2) % m) + x % 2);
    DivModUnique(x, 2 * m, q, 2 * ((x / 2) % m) + x % 2);
  }

  /** The powers the code shifts by. */
  lemma Powers()
    ensures Pow2(2) == 4 && Pow2(4) == 16 && Pow2(6) == 64 && Pow2(8) == 256
    ensures Pow2(10) == 1024 && Pow2(14) == 16384
  {
    assert Pow2(2) == 4;
    assert Pow2(4) == 16;
    assert Pow2(6) == 64;
    assert Pow2(8) == 256;
    assert Pow2(10) == 1024;
    assert Pow2(12) == 4096;
  }

  // ---------------------------------------------------------------- what the operators mean

  /** Bit k of the two's complement of x. */
  predicate Bit(x: int, k: nat)
    decreases k
  {
    if k == 0 then x % 2 == 1 else Bit(x / 2, k - 1)
  }

  lemma OrAndHalves(x: int, y: int)
    requires x != 0 && y != 0 && x != -1 && y != -1
    ensures BitOr(x, y) / 2 == BitOr(x / 2, y / 2) && (BitOr(x, y) % 2 == 1 <==> x % 2 == 1 || y % 2 == 1)
    ensures BitAnd(x, y) / 2 == BitAnd(x / 2, y / 2) && (BitAnd(x, y) % 2 == 1 <==> x % 2 == 1 && y % 2 == 1)
  {
    HalfOf(BitOr(x / 2, y / 2), BitOr(x, y));
    HalfOf(BitAnd(x / 2, y / 2), BitAnd(x, y));
  }

  lemma HalfOf(h: int, x: int)
    requires x == 2 * h || x == 2 * h + 1
    ensures x / 2 == h && x % 2 == x - 2 * h
  {
  }

  lemma OrAndConstants(x: int, y: int)
    requires x == 0 || y == 0 || x == -1 || y == -1
    ensures BitOr(x, y) == if x == 0 then y else if y == 0 then x else -1
    ensures BitAnd(x, y) == if x == -1 then y else if y == -1 then x else 0
  {
  }

  /** Bit by bit, for negative numbers too. */
  lemma {:induction false} OrAndBits(x: int, y: int, k: nat)
    ensures Bit(BitOr(x, y), k) <==> Bit(x, k) || Bit(y, k)
    ensures Bit(BitAnd(x, y), k) <==> Bit(x, k) && Bit(y, k)
    decreases k
  {
    hide BitOr, BitAnd;
    ZeroAndMinusOne(k);
    if x == 0 || y == 0 || x == -1 || y == -1 {
      OrAndConstants(x, y);
    } else {
      OrAndHalves(x, y);
      if k > 0 {
        OrAndBits(x / 2, y / 2, k - 1);
      }
    }
  }

  lemma {:induction false} ZeroAndMinusOne(k: nat)
    ensures !Bit(0, k) && Bit(-1, k)
  {
    if k > 0 {
      ZeroAndMinusOne(k - 1);
    }
  }

  /** The casts keep the low bits. */
  lemma CastsKeepLowBits(x: int)
    ensures (ToByte(x) - x) % 0x100 == 0
    ensures (ToInt(x) - x) % 0x1_0000_0000 == 0
    ensures (ToLong(x) - x) % 0x1_0000_0000_0000_0000 == 0
  {
  }

  /** Quotient and remainder fit together, and the remainder has the sign of the dividend. */
  lemma JavaDivMod(x: int, y: int)
    requires y > 0
    ensures JavaDiv(x, y) * y + JavaMod(x, y) == x && -y < JavaMod(x, y) < y
    ensures x >= 0 ==> JavaMod(x, y) >= 0
    ensures x <= 0 ==> JavaMod(x, y) <= 0
  {
    var q, r := Abs(x) / y, Abs(x) % y;
    assert Abs(x) == q * y + r;
    assert -q * y == -(q * y);
  }
}
