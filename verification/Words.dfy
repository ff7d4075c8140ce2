/**
 Machine words of any width, as natural numbers below a power of two, with the
 bitwise operators of C defined bit by bit from the most significant bit down.
 */
module Words {

  type byte = b: int | 0 <= b < 256

  const TWO32: int := 0x1_0000_0000
  const TWO64: int := 0x1_0000_0000_0000_0000

  function Pow2(n: nat): (p: nat)
    ensures p >= 1
  {
    if n == 0 then 1 else 2 * Pow2(n - 1)
  }

  lemma {:induction false} Pow2Add(m: nat, n: nat)
    ensures Pow2(m + n) == Pow2(m) * Pow2(n)
  {
    if m != 0 {
      Pow2Add(m - 1, n);
      assert Pow2(m + n) == 2 * Pow2((m - 1) + n);
    }
  }

  lemma Pow2Values()
    ensures Pow2(8) == 256 && Pow2(16) == 0x1_0000 && Pow2(24) == 0x100_0000 && Pow2(32) == TWO32
  {
    assert Pow2(4) == 16;
    Pow2Add(4, 4);
    Pow2Add(8, 8);
    Pow2Add(16, 8);
    Pow2Add(16, 16);
  }

  datatype BitOp = AND | OR | XOR {
    predicate On(a: bool, b: bool) {
      match this
      case AND => a && b
      case OR => a || b
      case XOR => a != b
    }
  }

  predicate IsWord(w: nat, x: int) {
    0 <= x < Pow2(w)
  }

  /** The most significant bit of a w-bit word. */
  predicate Msb(w: nat, x: int)
    requires w >= 1
  {
    x >= Pow2(w - 1)
  }

  /** A w-bit word without its most significant bit. */
  function Low(w: nat, x: nat): (r: nat)
    requires w >= 1 && IsWord(w, x)
    ensures IsWord(w - 1, r)
  {
    if Msb(w, x) then x - Pow2(w - 1) else x
  }

  function Bitwise(op: BitOp, w: nat, x: nat, y: nat): (r: nat)
    requires IsWord(w, x) && IsWord(w, y)
    ensures IsWord(w, r)
    ensures w >= 1 ==> Msb(w, r) == op.On(Msb(w, x), Msb(w, y))
  {
    if w == 0 then 0
    else
      (if op.On(Msb(w, x), Msb(w, y)) then Pow2(w - 1) else 0) + Bitwise(op, w - 1, Low(w, x), Low(w, y))
  }

  function Ones(w: nat): (r: nat)
    ensures IsWord(w, r)
  {
    Pow2(w) - 1
  }

  function Not(w: nat, x: nat): (r: nat)
    requires IsWord(w, x)
    ensures IsWord(w, r)
  {
    Pow2(w) - 1 - x
  }

  /** Subtraction modulo 2^w. */
  function Sub(w: nat, x: nat, y: nat): (r: nat)
    requires IsWord(w, x) && IsWord(w, y)
    ensures IsWord(w, r)
  {
    if x >= y then x - y else x - y + Pow2(w)
  }

  lemma {:induction false} AndIdentities(w: nat, x: nat)
    requires IsWord(w, x)
    ensures Bitwise(AND, w, Ones(w), x) == x
    ensures Bitwise(AND, w, x, Ones(w)) == x
    ensures Bitwise(AND, w, 0, x) == 0
    ensures Bitwise(AND, w, x, 0) == 0
  {
    if w != 0 {
      AndIdentities(w - 1, Low(w, x));
    }
  }

  lemma {:induction false} OrIdentities(w: nat, x: nat)
    requires IsWord(w, x)
    ensures Bitwise(OR, w, x, 0) == x
    ensures Bitwise(OR, w, 0, x) == x
    ensures Bitwise(XOR, w, x, 0) == x
  {
    if w != 0 {
      OrIdentities(w - 1, Low(w, x));
    }
  }

  lemma BitwiseIdentities(w: nat, x: nat)
    requires IsWord(w, x)
    ensures Bitwise(AND, w, Ones(w), x) == x && Bitwise(AND, w, x, Ones(w)) == x
    ensures Bitwise(AND, w, 0, x) == 0 && Bitwise(AND, w, x, 0) == 0
    ensures Bitwise(OR, w, x, 0) == x && Bitwise(OR, w, 0, x) == x
    ensures Bitwise(XOR, w, x, 0) == x
  {
    AndIdentities(w, x);
    OrIdentities(w, x);
  }

  lemma {:induction false} XorCancels(w: nat, x: nat, y: nat)
    requires IsWord(w, x) && IsWord(w, y)
    ensures Bitwise(XOR, w, x, Bitwise(XOR, w, x, y)) == y
  {
    if w != 0 {
      XorCancels(w - 1, Low(w, x), Low(w, y));
    }
  }

  lemma {:induction false} XorCommutes(w: nat, x: nat, y: nat)
    requires IsWord(w, x) && IsWord(w, y)
    ensures Bitwise(XOR, w, x, y) == Bitwise(XOR, w, y, x)
  {
    if w != 0 {
      XorCommutes(w - 1, Low(w, x), Low(w, y));
    }
  }

  lemma MulAtLeast(k: int, m: int)
    requires m >= 0
    ensures k >= 1 ==> k * m >= m
    ensures k <= -1 ==> k * m <= -m
  {
  }

  lemma Distribute(a: int, b: int, m: int)
    ensures (a + b) * m == a * m + b * m
    ensures (a - b) * m == a * m - b * m
  {
  }

  /** Quotient and remainder are determined by the division equation. */
  lemma DivModUnique(x: int, m: int, q: int, r: int)
    requires m >= 1 && x == q * m + r && 0 <= r < m
    ensures x / m == q && x % m == r
  {
    var q', r' := x / m, x % m;
    assert x == q' * m + r';
    Distribute(q, q', m);
    MulAtLeast(q - q', m);
  }

  lemma ModMultiple(x: nat, k: nat, m: nat)
    requires m >= 1
    ensures (x + k * m) % m == x % m
    ensures (x + k * m) / m == x / m + k
  {
    var q, r := x / m, x % m;
    Distribute(q, k, m);
    DivModUnique(x + k * m, m, q + k, r);
  }

  lemma DivFits(x: nat, m: nat)
    requires m >= 1
    ensures 0 <= x / m <= x
  {
    var q, r := x / m, x % m;
    assert x == q * m + r;
    MulAtLeast(q, m);
    MulAtLeast(m, if q > 0 then q else 0);
  }

  lemma SplitPow2(w: nat, n: nat)
    requires n < w
    ensures Pow2(w - 1) == Pow2(w - 1 - n) * Pow2(n) >= Pow2(n)
  {
    Pow2Add(w - 1 - n, n);
    MulAtLeast(Pow2(w - 1 - n), Pow2(n));
  }

  /** The n low bits of a w-bit word are zero. */
  predicate LowClear(w: nat, n: nat, x: nat)
    requires IsWord(w, x)
  {
    if w <= n then x == 0 else LowClear(w - 1, n, Low(w, x))
  }

  /** Where hi * m lies relative to p * m, and what is left of it above p * m. */
  lemma ScaledOrder(hi: int, p: int, m: int)
    requires 0 <= hi < 2 * p && m >= 1
    ensures 0 <= hi * m < 2 * (p * m)
    ensures hi < p ==> hi * m < p * m
    ensures hi >= p ==> hi * m == p * m + (hi - p) * m && (hi - p) * m >= 0
  {
    Distribute(p, p, m);
    Distribute(p + p, hi, m);
    Distribute(p, hi, m);
    Distribute(hi, p, m);
    MulAtLeast(p + p - hi, m);
    MulAtLeast(p - hi, m);
    MulAtLeast(hi - p, m);
    MulAtLeast(hi, m);
  }

  /** A word shifted left by n has n zero low bits. */
  lemma {:induction false} ShiftClearsLow(w: nat, n: nat, hi: nat)
    requires n <= w && hi < Pow2(w - n)
    ensures IsWord(w, hi * Pow2(n)) && LowClear(w, n, hi * Pow2(n))
  {
    if w > n {
      var m, p := Pow2(n), Pow2(w - 1 - n);
      SplitPow2(w, n);
      ScaledOrder(hi, p, m);
      ShiftClearsLow(w - 1, n, if hi >= p then hi - p else hi);
    }
  }

  /** Two words that share no bit: `|` is addition. */
  lemma {:induction false} OrOfDisjoint(w: nat, n: nat, x: nat, lo: nat)
    requires n <= w && IsWord(w, x) && LowClear(w, n, x) && IsWord(n, lo)
    ensures IsWord(w, lo) && Bitwise(OR, w, x, lo) == x + lo
  {
    if w == n {
      OrIdentities(w, lo);
    } else {
      SplitPow2(w, n);
      OrOfDisjoint(w - 1, n, Low(w, x), lo);
    }
  }

  /** `x & (2^n - 1)` keeps the n low bits. */
  lemma {:induction false} AndOfLowMask(w: nat, n: nat, x: nat)
    requires n <= w && IsWord(w, x)
    ensures IsWord(w, Ones(n))
    ensures Bitwise(AND, w, x, Ones(n)) == x % Pow2(n)
  {
    if w == n {
      BitwiseIdentities(w, x);
      DivModUnique(x, Pow2(n), 0, x);
    } else {
      SplitPow2(w, n);
      var y := Low(w, x);
      assert Bitwise(AND, w, x, Ones(n)) == Bitwise(AND, w - 1, y, Ones(n));
      AndOfLowMask(w - 1, n, y);
      ModMultiple(y, Pow2(w - 1 - n), Pow2(n));
    }
  }

  /** `(x << n) | lo` on a 32-bit word, the operands sharing no bit. */
  function OrShifted(hi: nat, n: nat, lo: nat): (r: nat)
    requires n <= 32 && hi < Pow2(32 - n) && lo < Pow2(n)
    ensures r == hi * Pow2(n) + lo
  {
    ShiftClearsLow(32, n, hi);
    OrOfDisjoint(32, n, hi * Pow2(n), lo);
    Bitwise(OR, 32, hi * Pow2(n), lo)
  }

  /** `l & 0xff` on a 32-bit word. */
  lemma MaskByte(l: nat)
    requires l < TWO32
    ensures IsWord(32, l) && IsWord(32, 0xff)
    ensures Bitwise(AND, 32, l, 0xff) == l % 256
  {
    Pow2Values();
    AndOfLowMask(32, 8, l);
  }

  /** The conversion of a wider integer to a 32-bit int. */
  function ToInt32(x: int): (r: int)
    ensures -0x8000_0000 <= r < 0x8000_0000
    ensures r == x <==> -0x8000_0000 <= x < 0x8000_0000
  {
    var m := x % TWO32;
    if m < 0x8000_0000 then m else m - TWO32
  }

  /** The conversion changes a number by a multiple of 2^32 only. */
  lemma ToInt32IsCongruent(x: int)
    ensures (x - ToInt32(x)) % 0x1_0000_0000 == 0
  {
    var q := x / TWO32;
    if x % TWO32 < 0x8000_0000 {
      DivModUnique(x - ToInt32(x), TWO32, q, 0);
    } else {
      DivModUnique(x - ToInt32(x), TWO32, q + 1, 0);
    }
  }

  // ------------------------------------------------------------ byte strings

  function Zeros(n: nat): (r: seq<byte>)
    ensures |r| == n
  {
    seq(n, _ => 0)
  }

  function LittleEndian(n: nat, x: nat): (r: seq<byte>)
    ensures |r| == n
  {
    if n == 0 then [] else [x % 256] + LittleEndian(n - 1, x / 256)
  }

  function FromLittleEndian(s: seq<byte>): (r: nat)
  {
    if s == [] then 0 else s[0] + 256 * FromLittleEndian(s[1..])
  }

  function BigEndian(n: nat, x: nat): (r: seq<byte>)
    ensures |r| == n
  {
    if n == 0 then [] else BigEndian(n - 1, x / 256) + [x % 256]
  }

  function FromBigEndian(s: seq<byte>): (r: nat)
  {
    if s == [] then 0 else 256 * FromBigEndian(s[..|s| - 1]) + s[|s| - 1]
  }

  function Pow256(n: nat): (p: nat)
    ensures p >= 1
  {
    if n == 0 then 1 else 256 * Pow256(n - 1)
  }

  lemma FourBytes(x: nat)
    ensures LittleEndian(4, x) == [x % 256, x / 256 % 256, x / 256 / 256 % 256, x / 256 / 256 / 256 % 256]
    ensures BigEndian(4, x) == [x / 256 / 256 / 256 % 256, x / 256 / 256 % 256, x / 256 % 256, x % 256]
  {
    var y, z := x / 256, x / 256 / 256;
    assert LittleEndian(2, z) == [z % 256, z / 256 % 256];
    assert LittleEndian(4, x) == [x % 256] + ([y % 256] + LittleEndian(2, z));
    assert BigEndian(2, z) == [z / 256 % 256, z % 256];
    assert BigEndian(4, x) == (BigEndian(2, z) + [y % 256]) + [x % 256];
  }

  lemma Pow256Values()
    ensures Pow256(1) == 256 && Pow256(2) == 0x1_0000 && Pow256(3) == 0x100_0000
    ensures Pow256(4) == TWO32 && Pow256(8) == TWO64
  {
    assert Pow256(2) == 0x1_0000;
    assert Pow256(4) == TWO32;
    assert Pow256(6) == 0x1_0000 * TWO32;
    assert Pow256(8) == TWO64;
  }

  /** Each fixed-width integer encoding is a bijection with the n-byte strings. */
  lemma {:induction false} LittleEndianBijection(n: nat, x: nat, s: seq<byte>)
    requires x < Pow256(n) && |s| == n
    ensures FromLittleEndian(LittleEndian(n, x)) == x
    ensures FromLittleEndian(s) < Pow256(n)
    ensures LittleEndian(n, FromLittleEndian(s)) == s
  {
    if n != 0 {
      LittleEndianBijection(n - 1, x / 256, s[1..]);
      assert LittleEndian(n, x)[1..] == LittleEndian(n - 1, x / 256);
      assert FromLittleEndian(s) / 256 == FromLittleEndian(s[1..]);
    }
  }

  lemma {:induction false} BigEndianBijection(n: nat, x: nat, s: seq<byte>)
    requires x < Pow256(n) && |s| == n
    ensures FromBigEndian(BigEndian(n, x)) == x
    ensures FromBigEndian(s) < Pow256(n)
    ensures BigEndian(n, FromBigEndian(s)) == s
  {
    if n != 0 {
      BigEndianBijection(n - 1, x / 256, s[..n - 1]);
      assert BigEndian(n, x)[..n - 1] == BigEndian(n - 1, x / 256);
      assert FromBigEndian(s) / 256 == FromBigEndian(s[..n - 1]);
    }
  }

  /** The n-byte encoding in either byte order. */
  function Encode(bigEndian: bool, n: nat, x: nat): (r: seq<byte>)
    ensures |r| == n
  {
    if bigEndian then BigEndian(n, x) else LittleEndian(n, x)
  }

  /** Byte i counted from the least significant end. */
  lemma {:induction false} EncodedByte(bigEndian: bool, n: nat, x: nat, i: nat)
    requires i < n
    ensures Encode(bigEndian, n, x)[if bigEndian then n - 1 - i else i] == x / Pow256(i) % 256
  {
    if i > 0 {
      EncodedByte(bigEndian, n - 1, x / 256, i - 1);
      DivTwice(x, Pow256(i - 1));
    }
  }

  lemma DivTwice(x: nat, p: nat)
    requires p >= 1
    ensures x / 256 / p == x / (256 * p)
  {
    var y := x / 256;
    var q, r := y / p, y % p;
    assert y == q * p + r;
    assert x == q * (256 * p) + (256 * r + x % 256);
    DivModUnique(x, 256 * p, q, 256 * r + x % 256);
  }

  lemma EncodingInjective(bigEndian: bool, n: nat, x: nat, y: nat)
    requires x < Pow256(n) && y < Pow256(n)
    requires Encode(bigEndian, n, x) == Encode(bigEndian, n, y)
    ensures x == y
  {
    var s := LittleEndian(n, 0);
    if bigEndian {
      BigEndianBijection(n, x, s);
      BigEndianBijection(n, y, s);
    } else {
      LittleEndianBijection(n, x, s);
      LittleEndianBijection(n, y, s);
    }
  }
}
