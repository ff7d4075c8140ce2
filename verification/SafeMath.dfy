/**
 The overflow-checked arithmetic of safe_math.h for an integer type of any width. A signed
 type has the range -max - 1 .. max, an unsigned one 0 .. max. Every intermediate expression
 of the signed forms goes through `Fit`, whose precondition says that it does not overflow.
 */
module SafeMath {
  import opened Words

  /** A returned value together with the bit it may have set in `*err`. */
  datatype Checked = Checked(value: int, err: bool)

  predicate Signed(max: int, x: int) {
    -max - 1 <= x <= max
  }

  predicate Unsigned(max: int, x: int) {
    0 <= x <= max
  }

  /** The value of a signed C expression: defined only when it does not overflow. */
  function Fit(max: int, x: int): (r: int)
    requires Signed(max, x)
  {
    x
  }

  /** The representable number nearest to x. */
  function Clamp(max: int, x: int): int {
    if x < -max - 1 then -max - 1 else if x > max then max else x
  }

  lemma ClampIsNearest(max: int, x: int, y: int)
    requires max >= 1
    ensures Signed(max, Clamp(max, x))
    ensures Signed(max, y) ==> Abs(x - Clamp(max, x)) <= Abs(x - y)
    ensures Signed(max, y) && Abs(x - y) == Abs(x - Clamp(max, x)) ==> y == Clamp(max, x)
  {
  }

  // ---------------------------------------------------------- C's / and %

  function Abs(x: int): nat {
    if x < 0 then -x else x
  }

  /** Division that truncates toward zero. */
  function Quo(a: int, b: int): int
    requires b != 0
  {
    if (a < 0) == (b < 0) then Abs(a) / Abs(b) else -(Abs(a) / Abs(b))
  }

  function Rem(a: int, b: int): int
    requires b != 0
  {
    a - Quo(a, b) * b
  }

  predicate SameSign(x: int, y: int) {
    x == 0 || y == 0 || (x < 0 <==> y < 0)
  }

  /** What makes q and r the truncated quotient and remainder of a by b. */
  predicate IsQuoRem(a: int, b: int, q: int, r: int) {
    a == q * b + r && Abs(r) < Abs(b) && SameSign(r, a)
  }

  lemma Magnitudes(x: nat, y: nat)
    requires y >= 1
    ensures var k := x / y;
            0 <= k <= x && 0 <= k * y <= x < k * y + y
  {
    DivFits(x, y);
    MulAtLeast(x / y, y);
  }

  lemma QuoTimesDivisor(a: int, b: int)
    requires b != 0
    ensures var p: int := Abs(a) / Abs(b) * Abs(b);
            Quo(a, b) * b == if a < 0 then -p else p
  {
    var k: int, y: int := Abs(a) / Abs(b), Abs(b);
    NegatedFactor(k, y);
    NegatedFactor(k, -y);
  }

  lemma QuoRem(a: int, b: int)
    requires b != 0
    ensures IsQuoRem(a, b, Quo(a, b), Rem(a, b))
    ensures Abs(Quo(a, b)) <= Abs(a)
    ensures SameSign(Quo(a, b) * b, a)
  {
    Magnitudes(Abs(a), Abs(b));
    QuoTimesDivisor(a, b);
  }

  /** A product in terms of the absolute values. */
  lemma SignedProduct(x: int, y: int)
    ensures x * y == if (x < 0) == (y < 0) then (Abs(x) * Abs(y)) as int else -(Abs(x) * Abs(y) as int)
  {
    NegatedFactor(x, y);
    NegatedFactor(y, x);
    NegatedFactor(-x, y);
  }

  lemma NegatedFactor(x: int, y: int)
    ensures (-x) * y == -(x * y) && x * (-y) == -(x * y)
  {
  }

  lemma MulAbs(x: int, y: int)
    ensures Abs(x * y) == Abs(x) * Abs(y)
    ensures x != 0 && y != 0 ==> Abs(x * y) >= Abs(x) && Abs(x * y) >= Abs(y)
  {
    SignedProduct(x, y);
    MulAtLeast(Abs(x), Abs(y));
    MulAtLeast(Abs(y), Abs(x));
  }

  lemma MulSigns(x: int, y: int)
    ensures x * y < 0 <==> x != 0 && y != 0 && (x < 0) != (y < 0)
    ensures x * y == 0 <==> x == 0 || y == 0
  {
    SignedProduct(x, y);
    MulAtLeast(Abs(x), Abs(y));
  }

  lemma SmallMultiple(k: int, b: int)
    requires Abs(k * b) < Abs(b)
    ensures k == 0
  {
    MulAbs(k, b);
  }

  /** The quotient and the remainder are determined. */
  lemma QuoRemUnique(a: int, b: int, q: int, r: int)
    requires b != 0 && IsQuoRem(a, b, q, r)
    ensures q == Quo(a, b) && r == Rem(a, b)
  {
    QuoRem(a, b);
    var q', r' := Quo(a, b), Rem(a, b);
    if a == 0 {
      ZeroQuoRem(b, q, r);
      ZeroQuoRem(b, q', r');
    }
    Distribute(q, q', b);
    SmallMultiple(q - q', b);
  }

  lemma ZeroQuoRem(b: int, q: int, r: int)
    requires b != 0 && IsQuoRem(0, b, q, r)
    ensures q == 0 && r == 0
  {
    MulAbs(q, b);
  }

  // ------------------------------------------------- saturating arithmetic

  /** The multiplication fallback also flags a product that is exactly the minimum. */
  predicate MulFlagged(exact: bool, max: int, a: int, b: int) {
    !Signed(max, a * b) || (!exact && a * b == -max - 1 && a != 1 && b != 1)
  }

  function AddS(max: int, a: int, b: int): (r: Checked)
    requires max >= 1 && Signed(max, a) && Signed(max, b)
    ensures r.value == Clamp(max, a + b)
    ensures r.err <==> !Signed(max, a + b)
  {
    if (a < 0) != (b < 0)
       || (a > 0 && b <= Fit(max, max - a))
       || (a < 0 && b >= Fit(max, -max - 1 - a))
       || a == 0
    then Checked(Fit(max, a + b), false)
    else Checked(if a < 0 then -max - 1 else max, true)
  }

  function SubS(max: int, a: int, b: int): (r: Checked)
    requires max >= 1 && Signed(max, a) && Signed(max, b)
    ensures r.value == Clamp(max, a - b)
    ensures r.err <==> !Signed(max, a - b)
  {
    if !((a < 0) != (b < 0))
       || (b > 0 && a >= Fit(max, -max - 1 + b))
       || (b < 0 && a <= Fit(max, max + b))
       || b == 0
    then Checked(Fit(max, a - b), false)
    else Checked(if a < 0 then -max - 1 else max, true)
  }

  /** `x <= max / y` is the test x * y <= max without the overflowing product. */
  lemma DivisionTest(max: int, x: nat, y: nat)
    requires max >= 1 && y >= 1
    ensures x <= max / y <==> x * y <= max
  {
    var q := max / y;
    assert max == q * y + max % y;
    Distribute(q, x, y);
    MulAtLeast(q - x, y);
  }

  /** With `exact` the compiler's overflow builtin decides, otherwise the fallback. */
  function MulS(exact: bool, max: int, a: int, b: int): (r: Checked)
    requires max >= 1 && Signed(max, a) && Signed(max, b)
    ensures r.value == Clamp(max, a * b)
    ensures r.err <==> MulFlagged(exact, max, a, b)
  {
    MulAbs(a, b);
    MulSigns(a, b);
    if exact && Signed(max, a * b) then Checked(a * b, false)
    else if !exact && (a == 0 || b == 0) then Checked(0, false)
    else if !exact && a == 1 then Checked(b, false)
    else if !exact && b == 1 then Checked(a, false)
    else if !exact && MulFits(max, a, b) then Checked(Fit(max, a * b), false)
    else Checked(if (a < 0) != (b < 0) then -max - 1 else max, true)
  }

  predicate MulFits(max: int, a: int, b: int)
    requires max >= 1 && Signed(max, a) && Signed(max, b) && a != 0 && b != 0
    ensures MulFits(max, a, b) <==> Abs(a * b) <= max
  {
    MulAbs(a, b);
    a != -max - 1 && b != -max - 1 &&
    var x := if a < 0 then Fit(max, -a) else a;
    var y := if b < 0 then Fit(max, -b) else b;
    DivisionTest(max, x, y);
    x <= max / y
  }

  function DivS(max: int, a: int, b: int): (r: Checked)
    requires max >= 1 && Signed(max, a) && Signed(max, b)
    ensures r.err <==> b == 0 || !Signed(max, Quo(a, b))
    ensures r.value == if b != 0 then Clamp(max, Quo(a, b)) else if a < 0 then -max - 1 else max
  {
    if b == 0 then Checked(if a < 0 then -max - 1 else max, true)
    else if b == -1 && a == -max - 1 then Checked(max, true)
    else
      QuoInRange(max, a, b);
      Checked(Fit(max, Quo(a, b)), false)
  }

  lemma QuoInRange(max: int, a: int, b: int)
    requires max >= 1 && Signed(max, a) && b != 0 && !(b == -1 && a == -max - 1)
    ensures Signed(max, Quo(a, b))
  {
    QuoRem(a, b);
    if Abs(b) >= 2 {
      QuotientShrinks(Abs(a), Abs(b));
    }
  }

  lemma QuotientShrinks(x: nat, y: nat)
    requires y >= 2
    ensures 2 * (x / y) <= x
  {
    var q, r := x / y, x % y;
    assert x == q * y + r;
    DivFits(x, y);
    Distribute(y, 2, q);
    MulAtLeast(q, y - 2);
  }

  function ModS(max: int, a: int, b: int): (r: Checked)
    requires max >= 1 && Signed(max, a) && Signed(max, b)
    ensures Signed(max, r.value)
    ensures r.err <==> b == 0 || !Signed(max, Quo(a, b))
    ensures r.value == if b == 0 then 0 else if r.err then max else Rem(a, b)
  {
    if b == 0 then Checked(0, true)
    else if b == -1 && a == -max - 1 then Checked(max, true)
    else
      QuoInRange(max, a, b);
      QuoRem(a, b);
      Checked(Fit(max, Rem(a, b)), false)
  }

  /** The value of an unsigned C expression: modulo max + 1. */
  function Wrap(max: int, x: nat): (r: int)
    requires max >= 1
    ensures Unsigned(max, r)
    ensures x <= max ==> r == x
    ensures (x - r) % (max + 1) == 0
  {
    WrapFits(max, x);
    x % (max + 1)
  }

  lemma WrapFits(max: int, x: nat)
    requires max >= 1
    ensures 0 <= x % (max + 1) <= max
    ensures x <= max ==> x % (max + 1) == x
    ensures (x - x % (max + 1)) % (max + 1) == 0
  {
    var q := x / (max + 1);
    assert x - x % (max + 1) == q * (max + 1) + 0;
    DivModUnique(x - x % (max + 1), max + 1, q, 0);
    if x <= max {
      DivModUnique(x, max + 1, 0, x);
    }
  }

  function AddU(max: int, a: int, b: int): (r: Checked)
    requires max >= 1 && Unsigned(max, a) && Unsigned(max, b)
    ensures r.value == Wrap(max, a + b)
    ensures r.err <==> a + b > max
  {
    Checked(Wrap(max, a + b), b > max - a)
  }

  /** The fallback divides by b. */
  function MulU(exact: bool, max: int, a: int, b: int): (r: Checked)
    requires max >= 1 && Unsigned(max, a) && Unsigned(max, b) && (exact || b != 0)
    ensures a * b >= 0 && r.value == Wrap(max, a * b)
    ensures r.err <==> a * b > max
  {
    MulSigns(a, b);
    if exact then Checked(Wrap(max, a * b), a * b > max)
    else
      DivisionTest(max, a, b);
      Checked(Wrap(max, a * b), a > max / b)
  }

  // ------------------------------------------------- fused multiply-divide

  /** Dividing the larger factor first and correcting with the remainder loses nothing. */
  lemma MulDivIdentity(a: int, b: int, c: int)
    requires c != 0
    ensures Quo(a * b, c) == Quo(a, c) * b + Quo(Rem(a, c) * b, c)
    ensures Abs(Quo(a, c) * b) <= Abs(Quo(a * b, c))
    ensures SameSign(Quo(a, c) * b, Quo(a * b, c))
  {
    var q, r := Quo(a, c), Rem(a, c);
    var q1, r1 := Quo(r * b, c), Rem(r * b, c);
    QuoRem(a, c);
    QuoRem(r * b, c);
    Regroup(a, b, c, q, r, q1, r1);
    ProductSigns(a, b, c, q, r, q1, r1);
    QuoRemUnique(a * b, c, q * b + q1, r1);
    assert SameSign(q * b, q1);
  }

  lemma Regroup(a: int, b: int, c: int, q: int, r: int, q1: int, r1: int)
    requires a == q * c + r && r * b == q1 * c + r1
    ensures a * b == (q * b + q1) * c + r1
  {
    Distribute(q * c, r, b);
    Distribute(q * b, q1, c);
    assert (q * c) * b == (q * b) * c;
  }

  lemma ProductSigns(a: int, b: int, c: int, q: int, r: int, q1: int, r1: int)
    requires c != 0 && IsQuoRem(a, c, q, r) && SameSign(q * c, a)
    requires IsQuoRem(r * b, c, q1, r1) && SameSign(q1 * c, r * b)
    ensures SameSign(r1, a * b)
    ensures SameSign(q * b, q1)
  {
    MulSigns(r, b);
    MulSigns(a, b);
    MulSigns(q, b);
    MulSigns(q, c);
    MulSigns(q1, c);
    if r == 0 || b == 0 {
      ZeroQuoRem(c, q1, r1);
    }
    if a == 0 {
      ZeroQuoRem(c, q, r);
    }
  }

  function Larger(a: int, b: int): int { if b > a then b else a }
  function Smaller(a: int, b: int): int { if b > a then a else b }

  /** The multiplication does not fit and neither does one of the two partial products. */
  predicate PartFlagged(exact: bool, max: int, a: int, b: int, c: int)
    requires c != 0
  {
    var big, small := Larger(a, b), Smaller(a, b);
    && MulFlagged(exact, max, a, b)
    && (MulFlagged(exact, max, Rem(big, c), small) || MulFlagged(exact, max, Quo(big, c), small))
  }

  /** With exact overflow detection only the remainder product can raise a spurious error. */
  lemma ExactPartFlagged(max: int, a: int, b: int, c: int)
    requires max >= 1 && c != 0 && Signed(max, Quo(a * b, c))
    ensures PartFlagged(true, max, a, b, c) <==>
            !Signed(max, a * b) && !Signed(max, Rem(Larger(a, b), c) * Smaller(a, b))
  {
    var big, small := Larger(a, b), Smaller(a, b);
    assert a * b == big * small;
    MulDivIdentity(big, small, c);
    NearerZero(max, Quo(big, c) * small, Quo(big * small, c));
  }

  lemma NearerZero(max: int, x: int, y: int)
    requires Abs(x) <= Abs(y) && SameSign(x, y) && Signed(max, y)
    ensures Signed(max, x)
  {
  }

  lemma SecondPhase(max: int, a: int, b: int, c: int)
    requires max >= 1 && Signed(max, a) && Signed(max, b) && Signed(max, c) && c != 0 && b <= a
    ensures !Signed(max, Quo(a, c)) ==> !Signed(max, Quo(a * b, c))
    ensures Signed(max, Rem(a, c))
    ensures Signed(max, Rem(a, c) * b) ==> Signed(max, Quo(Rem(a, c) * b, c))
    ensures Quo(a * b, c) == Quo(a, c) * b + Quo(Rem(a, c) * b, c)
  {
    MulDivIdentity(a, b, c);
    QuoRem(a, c);
    if c == -1 {
      DivideByMinusOne(a);
      DivideByMinusOne(a * b);
      MulSigns(Rem(a, c), b);
      MulAbs(a, b);
      MulSigns(a, b);
    } else {
      QuoInRange(max, a, c);
      if Signed(max, Rem(a, c) * b) {
        QuoInRange(max, Rem(a, c) * b, c);
      }
    }
  }

  lemma DivideByMinusOne(a: int)
    ensures Quo(a, -1) == -a && Rem(a, -1) == 0
  {
  }

  /** The value returned when the product does not fit: the identity with every part clamped. */
  function ClampedParts(max: int, a: int, b: int, c: int): int
    requires max >= 1 && c != 0
  {
    var big, small := Larger(a, b), Smaller(a, b);
    var rem := if Signed(max, Quo(big, c)) then Rem(big, c) else max;
    var whole := Clamp(max, Clamp(max, Quo(big, c)) * small);
    Clamp(max, whole + Clamp(max, Quo(Clamp(max, rem * small), c)))
  }

  method MulDivS(exact: bool, max: int, a0: int, b0: int, c: int, err0: bool) returns (res: int, err: bool)
    requires max >= 1 && Signed(max, a0) && Signed(max, b0) && Signed(max, c)
    ensures Signed(max, res)
    ensures !err ==> c != 0 && res == Quo(a0 * b0, c)
    ensures err <==> err0 || c == 0 || !Signed(max, Quo(a0 * b0, c)) || PartFlagged(exact, max, a0, b0, c)
    ensures c != 0 ==> res == if MulFlagged(exact, max, a0, b0) then ClampedParts(max, a0, b0, c)
                              else Clamp(max, Quo(a0 * b0, c))
    ensures c == 0 ==> res == if a0 == 0 || b0 == 0 then 0 else max
  {
    var a, b := a0, b0;
    err := err0;
    if c == 0 {
      return if a == 0 || b == 0 then 0 else max, true;
    }
    var x := MulS(exact, max, a, b);
    if !x.err {
      var d := DivS(max, x.value, c);
      return d.value, err || d.err;
    }
    if b > a {
      var t := b;
      b := a;
      a := t;
    }
    PartsCommute(exact, max, a0, b0, c);
    res, err := DividedFirst(exact, max, a, b, c, err);
  }

  lemma PartsCommute(exact: bool, max: int, a: int, b: int, c: int)
    requires max >= 1 && c != 0
    ensures a * b == b * a && Quo(a * b, c) == Quo(b * a, c)
    ensures MulFlagged(exact, max, a, b) <==> MulFlagged(exact, max, b, a)
    ensures PartFlagged(exact, max, a, b, c) <==> PartFlagged(exact, max, b, a, c)
    ensures ClampedParts(max, a, b, c) == ClampedParts(max, b, a, c)
  {
  }

  /** The last phase of MulDivS: the larger factor is divided first. */
  method DividedFirst(exact: bool, max: int, a: int, b: int, c: int, err0: bool) returns (res: int, err: bool)
    requires max >= 1 && Signed(max, a) && Signed(max, b) && Signed(max, c) && c != 0 && b <= a
    ensures Signed(max, res) && res == ClampedParts(max, a, b, c)
    ensures !err ==> res == Quo(a * b, c)
    ensures MulFlagged(exact, max, a, b) ==>
              (err <==> err0 || !Signed(max, Quo(a * b, c)) || PartFlagged(exact, max, a, b, c))
  {
    SecondPhase(max, a, b, c);
    var q := DivS(max, a, c);
    var r := ModS(max, a, c);
    var x := MulS(exact, max, r.value, b);
    var y := MulS(exact, max, q.value, b);
    var q2 := DivS(max, x.value, c);
    var s := AddS(max, y.value, q2.value);
    return s.value, err0 || q.err || r.err || x.err || y.err || q2.err || s.err;
  }

  /** The value returned when the product does not fit: the identity modulo max + 1. */
  function WrappedParts(max: int, a: int, b: int, c: int): int
    requires max >= 1 && Unsigned(max, a) && Unsigned(max, b) && c >= 1
  {
    var big, small := Larger(a, b), Smaller(a, b);
    UnsignedIdentity(big, small, c);
    var rem := Wrap(max, big % c * small);
    DivFits(rem, c);
    Wrap(max, Wrap(max, big / c * small) + rem / c)
  }

  /** The fallback multiplication divides by its second argument, so it is not defined for b0 = 0. */
  method MulDivU(exact: bool, max: int, a0: int, b0: int, c: int, err0: bool) returns (res: int, err: bool)
    requires max >= 1 && Unsigned(max, a0) && Unsigned(max, b0) && Unsigned(max, c)
    requires exact || b0 != 0 || c == 0
    ensures Unsigned(max, res)
    ensures !err ==> c != 0 && res == a0 * b0 / c
    ensures err <==> err0 || c == 0
                     || (a0 * b0 > max
                         && (Larger(a0, b0) % c * Smaller(a0, b0) > max || a0 * b0 / c > max))
    ensures c != 0 && a0 * b0 > max ==> res == WrappedParts(max, a0, b0, c)
    ensures c == 0 ==> res == if a0 == 0 || b0 == 0 then 0 else max
  {
    var a, b := a0, b0;
    err := err0;
    if c == 0 {
      return if a == 0 || b == 0 then 0 else max, true;
    }
    var x := MulU(exact, max, a, b);
    if !x.err {
      DivFits(a * b, c);
      return x.value / c, err;
    }
    if b > a {
      var t := b;
      b := a;
      a := t;
    }
    WrappedPartsCommute(max, a0, b0, c);
    res, err := DividedFirstU(exact, max, a, b, c, err);
  }

  lemma WrappedPartsCommute(max: int, a: int, b: int, c: int)
    requires max >= 1 && Unsigned(max, a) && Unsigned(max, b) && c >= 1
    ensures a * b == b * a && WrappedParts(max, a, b, c) == WrappedParts(max, b, a, c)
    ensures a * b > max ==> a != 0 && b != 0
  {
  }

  /** The last phase of MulDivU. */
  method DividedFirstU(exact: bool, max: int, a: int, b: int, c: int, err0: bool) returns (res: int, err: bool)
    requires max >= 1 && Unsigned(max, a) && Unsigned(max, b) && Unsigned(max, c) && c != 0 && b <= a
    requires exact || b != 0
    ensures Unsigned(max, res) && res == WrappedParts(max, a, b, c)
    ensures !err ==> res == a * b / c
    ensures a * b > max ==> (err <==> err0 || a % c * b > max || a * b / c > max)
  {
    UnsignedIdentity(a, b, c);
    DivFits(a, c);
    var x := MulU(exact, max, a % c, b);
    var y := MulU(exact, max, a / c, b);
    DivFits(x.value, c);
    var s := AddU(max, y.value, x.value / c);
    return s.value, err0 || x.err || y.err || s.err;
  }

  lemma UnsignedIdentity(a: nat, b: nat, c: nat)
    requires c >= 1
    ensures a % c * b >= 0 && a / c * b >= 0
    ensures a * b / c == a / c * b + a % c * b / c
  {
    DivFits(a, c);
    var q, r := a / c, a % c;
    var p := r * b;
    assert a == q * c + r;
    DivFits(p, c);
    var q1, r1 := p / c, p % c;
    Regroup(a, b, c, q, r, q1, r1);
    DivModUnique(a * b, c, q * b + q1, r1);
  }
}
