/** A model of the arbitrary-precision decimal primitive (big.js) that bigmoney.js
    builds on: exact addition, subtraction and multiplication, division and
    rounding to a fixed number of places under a rounding mode, comparison, the
    remainder and integer powers, and the decimal text of a value. */
module Decimals {

  import opened Outcomes

  /** The value `coef * 10^-exp`; the representation is not normalised, so two
      different representations can denote the same number (see `Eq`). */
  datatype Decimal = Decimal(coef: int, exp: nat)

  /** The rounding modes of big.js, numbered 0 to 3 there. */
  datatype RoundingMode = Down | HalfUp | HalfEven | Up

  /** The primitive's global configuration: the places kept by a division
      (Big.DP) and the rounding mode used by division and rounding (Big.RM). */
  datatype Context = Context(dp: nat, rm: RoundingMode)

  const DefaultContext := Context(20, HalfUp)

  /** Exponents of the leading digit at or beyond which `Render` switches to
      exponential notation (Big.E_POS and Big.E_NEG). */
  const ExpPos := 21
  const ExpNeg := -7

  function Pow10(n: nat): (r: nat)
    ensures r >= 1
  {
    if n == 0 then 1 else 10 * Pow10(n - 1)
  }

  lemma {:induction false} Pow10Add(a: nat, b: nat)
    ensures Pow10(a + b) == Pow10(a) * Pow10(b)
  {
    if a > 0 {
      Pow10Add(a - 1, b);
      assert Pow10(a + b) == 10 * Pow10(a - 1 + b);
    }
  }

  function Max(a: nat, b: nat): nat { if a < b then b else a }

  function Sign(x: int): int { if x > 0 then 1 else if x < 0 then -1 else 0 }

  function AbsInt(x: int): nat { if x < 0 then -x else x }

  function FromInt(n: int): Decimal { Decimal(n, 0) }

  const Zero := Decimal(0, 0)

  /** One hundredth, with sign `s`: the literal `0.01 * s` of the allocation loop. */
  function Cent(s: int): Decimal { Decimal(s, 2) }

  /** The coefficient of `d` written at scale `m` (that is, in units of 10^-m). */
  function Units(d: Decimal, m: nat): int
    requires d.exp <= m
  {
    d.coef * Pow10(m - d.exp)
  }

  /** Rewriting at a finer scale multiplies the coefficient by the change of scale. */
  lemma UnitsRescale(d: Decimal, m: nat, k: nat)
    requires d.exp <= m
    ensures Units(d, m + k) == Units(d, m) * Pow10(k)
  {
    var a, b := Pow10(m - d.exp), Pow10(k);
    Pow10Add(m - d.exp, k);
    assert m + k - d.exp == (m - d.exp) + k;
    assert Pow10(m + k - d.exp) == a * b;
    MulAssoc(d.coef, a, b);
  }

  lemma MulAssoc(x: int, y: int, z: int)
    ensures x * (y * z) == (x * y) * z
  {
  }

  /** A positive multiple of `k` is at least `k`. */
  lemma MulAtLeast(j: int, k: int)
    requires j >= 1 && k > 0
    ensures j * k >= k
  {
    assert j * k == (j - 1) * k + k;
  }

  function Add(a: Decimal, b: Decimal): Decimal {
    var m := Max(a.exp, b.exp);
    Decimal(Units(a, m) + Units(b, m), m)
  }

  function Neg(a: Decimal): Decimal { Decimal(-a.coef, a.exp) }

  function Sub(a: Decimal, b: Decimal): Decimal {
    var m := Max(a.exp, b.exp);
    Decimal(Units(a, m) - Units(b, m), m)
  }

  function Mul(a: Decimal, b: Decimal): Decimal {
    Decimal(a.coef * b.coef, a.exp + b.exp)
  }

  function Abs(a: Decimal): Decimal { Decimal(AbsInt(a.coef), a.exp) }

  lemma UnitsAdd(a: Decimal, b: Decimal, m: nat)
    requires a.exp <= m && b.exp <= m
    ensures Add(a, b).exp <= m
    ensures Units(Add(a, b), m) == Units(a, m) + Units(b, m)
  {
    var e := Max(a.exp, b.exp);
    var x, y, p := Units(a, e), Units(b, e), Pow10(m - e);
    assert e + (m - e) == m;
    UnitsRescale(a, e, m - e);
    UnitsRescale(b, e, m - e);
    UnitsRescale(Add(a, b), e, m - e);
    assert Units(Add(a, b), e) == x + y;
    MulDistrib(x, y, p);
  }

  lemma UnitsSub(a: Decimal, b: Decimal, m: nat)
    requires a.exp <= m && b.exp <= m
    ensures Sub(a, b).exp <= m
    ensures Units(Sub(a, b), m) == Units(a, m) - Units(b, m)
  {
    var e := Max(a.exp, b.exp);
    var x, y, p := Units(a, e), Units(b, e), Pow10(m - e);
    assert e + (m - e) == m;
    UnitsRescale(a, e, m - e);
    UnitsRescale(b, e, m - e);
    UnitsRescale(Sub(a, b), e, m - e);
    assert Units(Sub(a, b), e) == x - y;
    MulDistrib(x, -y, p);
    NegMul(y, p);
  }

  lemma MulDistrib(x: int, y: int, p: int)
    ensures (x + y) * p == x * p + y * p
  {
  }

  /** Numeric comparison, as big.js `cmp`: -1, 0 or 1. */
  function Cmp(a: Decimal, b: Decimal): (r: int)
    ensures -1 <= r <= 1
    ensures r == 0 <==> Units(a, Max(a.exp, b.exp)) == Units(b, Max(a.exp, b.exp))
  {
    var m := Max(a.exp, b.exp);
    var x, y := Units(a, m), Units(b, m);
    if x < y then -1 else if x == y then 0 else 1
  }

  predicate Eq(a: Decimal, b: Decimal) { Cmp(a, b) == 0 }
  predicate Gt(a: Decimal, b: Decimal) { Cmp(a, b) > 0 }
  predicate Gte(a: Decimal, b: Decimal) { Cmp(a, b) >= 0 }
  predicate Lt(a: Decimal, b: Decimal) { Cmp(a, b) < 0 }
  predicate Lte(a: Decimal, b: Decimal) { Cmp(a, b) <= 0 }

  /** Numeric equality does not depend on the scale at which it is checked. */
  lemma EqAtScale(a: Decimal, b: Decimal, m: nat)
    requires a.exp <= m && b.exp <= m
    ensures Eq(a, b) <==> Units(a, m) == Units(b, m)
  {
    var e := Max(a.exp, b.exp);
    var x, y, p := Units(a, e), Units(b, e), Pow10(m - e);
    assert e + (m - e) == m;
    UnitsRescale(a, e, m - e);
    UnitsRescale(b, e, m - e);
    assert Eq(a, b) <==> x == y;
    if x * p == y * p {
      MulCancel(x, y, p);
    }
  }

  /** Nor does comparison: at any scale holding both values it is the sign of the
      difference of their coefficients, and swapping the operands negates it. */
  lemma CmpAtScale(a: Decimal, b: Decimal, m: nat)
    requires a.exp <= m && b.exp <= m
    ensures Cmp(a, b) == Sign(Units(a, m) - Units(b, m))
    ensures Cmp(b, a) == -Cmp(a, b)
  {
    var e := Max(a.exp, b.exp);
    var x, y, p := Units(a, e), Units(b, e), Pow10(m - e);
    assert e + (m - e) == m;
    UnitsRescale(a, e, m - e);
    UnitsRescale(b, e, m - e);
    if x < y {
      assert y * p - x * p == (y - x) * p;
      MulAtLeast(y - x, p);
    } else if x > y {
      assert x * p - y * p == (x - y) * p;
      MulAtLeast(x - y, p);
    }
  }

  /** Whether a quotient with integer part `a` and remainder `r` (of `d`) is
      rounded away from zero under mode `rm`. */
  predicate RoundsAway(a: nat, r: nat, d: int, rm: RoundingMode) {
    match rm
    case Down => false
    case HalfUp => 2 * r >= d
    case HalfEven => 2 * r > d || (2 * r == d && a % 2 == 1)
    case Up => r > 0
  }

  /** The integer nearest `n / d` under rounding mode `rm` (for Down and Up:
      toward and away from zero; for the half modes: ties away from zero or to even). */
  function RoundQuotient(n: int, d: int, rm: RoundingMode): (q: int)
    requires d > 0
  {
    var mag: int := RoundMagnitude(AbsInt(n), d, rm);
    if n < 0 then -mag else mag
  }

  /** `RoundQuotient` for a non-negative dividend. */
  function RoundMagnitude(a: nat, d: int, rm: RoundingMode): nat
    requires d > 0
  {
    if RoundsAway(a / d, a % d, d, rm) then a / d + 1 else a / d
  }

  /** `RoundQuotient(n, d, rm) * d` is within one `d` of `n`, lies on the same side
      of zero as `n`, and equals `n` exactly when `d` divides `n`; for the half
      modes it is within half of `d`. */
  lemma RoundQuotientBounds(n: int, d: int, rm: RoundingMode)
    requires d > 0
    ensures var q := RoundQuotient(n, d, rm);
      && AbsInt(q * d - n) < d
      && (n % d == 0 <==> q * d == n)
      && (n >= 0 ==> q >= 0) && (n <= 0 ==> q <= 0)
      && (rm == HalfUp || rm == HalfEven ==> 2 * AbsInt(q * d - n) <= d)
  {
    var A := AbsInt(n);
    var a, r := A / d, A % d;
    var mag := if RoundsAway(a, r, d, rm) then a + 1 else a;
    var q := RoundQuotient(n, d, rm);
    MagnitudeBounds(A, d, rm);
    var e := mag * d - A;
    assert e == 0 <==> A % d == 0;
    if n >= 0 {
      assert q * d - n == e;
    } else {
      NegMul(mag, d);
      assert q * d - n == -e;
      NegMod(A, d);
    }
  }

  /** The same facts for a non-negative dividend, stated on the magnitude. */
  lemma MagnitudeBounds(A: nat, d: int, rm: RoundingMode)
    requires d > 0
    ensures var a, r := A / d, A % d;
      var e := (if RoundsAway(a, r, d, rm) then a + 1 else a) * d - A;
      && (RoundsAway(a, r, d, rm) ==> e == d - r && r > 0)
      && (!RoundsAway(a, r, d, rm) ==> e == -r)
      && (rm == HalfUp || rm == HalfEven ==> 2 * AbsInt(e) <= d)
  {
    var a, r := A / d, A % d;
    assert A == a * d + r;
    if RoundsAway(a, r, d, rm) {
      assert (a + 1) * d == a * d + d;
    }
  }

  lemma NegMul(x: int, y: int)
    ensures (-x) * y == -(x * y)
  {
  }

  /** `-A` is divisible by `d` exactly when `A` is. */
  lemma NegMod(A: int, d: int)
    requires A >= 0 && d > 0
    ensures (-A) % d == 0 <==> A % d == 0
  {
    var a, r := A / d, A % d;
    assert A == a * d + r;
    if r == 0 {
      NegMul(a, d);
      DivModUnique(-A, d, -a, 0);
    } else {
      assert -A == (-a - 1) * d + (d - r);
      DivModUnique(-A, d, -a - 1, d - r);
    }
  }

  /** Round `x` to `dp` places (big.js `round(dp, rm)`); a value with no more
      than `dp` places is returned unchanged. */
  function Round(x: Decimal, dp: nat, rm: RoundingMode): (r: Decimal)
    ensures r.exp <= dp && r.exp <= x.exp
  {
    if x.exp <= dp then x
    else Decimal(RoundQuotient(x.coef, Pow10(x.exp - dp), rm), dp)
  }

  /** The quotient `a / b` rounded to `dp` places (big.js `div`). */
  function Div(a: Decimal, b: Decimal, dp: nat, rm: RoundingMode): (r: Result<Decimal>)
    ensures r.Err? <==> b.coef == 0
    ensures r.Err? ==> r.error == DivisionByZero
    ensures r.Ok? ==> r.value.exp == dp
  {
    if b.coef == 0 then Err(DivisionByZero)
    else
      var n := a.coef * Pow10(b.exp + dp);
      var d := b.coef * Pow10(a.exp);
      Ok(Decimal(RoundQuotient(Sign(d) * n, AbsInt(d), rm), dp))
  }

  /** The remainder of truncated division (big.js `mod`, which follows the
      sign of the dividend like JavaScript's `%`). */
  function Mod(a: Decimal, b: Decimal): (r: Result<Decimal>)
    ensures r.Err? <==> b.coef == 0
  {
    if b.coef == 0 then Err(DivisionByZero)
    else
      var m := Max(a.exp, b.exp);
      var x, y := Units(a, m), Units(b, m);
      Ok(Decimal(Sign(x) * (AbsInt(x) % AbsInt(y)), m))
  }

  /** `a * (a * ... )`, `k` factors, computed exactly. */
  function PowNat(a: Decimal, k: nat): Decimal {
    if k == 0 then Decimal(1, 0) else Mul(a, PowNat(a, k - 1))
  }

  /** big.js `pow(n)`: exact for `n >= 0`; for `n < 0` the reciprocal of the
      exact power, divided to `dp` places. */
  function Pow(a: Decimal, n: int, ctx: Context): (r: Result<Decimal>)
    ensures n >= 0 ==> r == Ok(PowNat(a, n))
    ensures n < 0 ==> (r.Err? <==> a.coef == 0)
  {
    var y := PowNat(a, AbsInt(n));
    if n >= 0 then Ok(y)
    else
      PowNatZero(a, AbsInt(n));
      Div(Decimal(1, 0), y, ctx.dp, ctx.rm)
  }

  lemma {:induction false} PowNatZero(a: Decimal, k: nat)
    ensures PowNat(a, k).coef == 0 <==> (a.coef == 0 && k > 0)
  {
    if k > 0 {
      PowNatZero(a, k - 1);
    }
  }

  /** A value is a whole number of hundredths. */
  predicate CentMultiple(d: Decimal) {
    d.exp <= 2 || d.coef % Pow10(d.exp - 2) == 0
  }

  /** The number of hundredths in a whole number of hundredths. */
  function Cents(d: Decimal): int
    requires CentMultiple(d)
  {
    if d.exp <= 2 then d.coef * Pow10(2 - d.exp) else d.coef / Pow10(d.exp - 2)
  }

  /** At any scale `m >= 2`, a whole number of hundredths is `Cents(d)` units of
      10^(m-2), and a value that is not one is not a multiple of that unit. */
  lemma CentsAtScale(d: Decimal, m: nat)
    requires d.exp <= m && 2 <= m
    ensures CentMultiple(d) <==> Units(d, m) % Pow10(m - 2) == 0
    ensures CentMultiple(d) ==> Units(d, m) == Cents(d) * Pow10(m - 2)
  {
    if d.exp <= 2 {
      Pow10Add(2 - d.exp, m - 2);
      assert m - d.exp == (2 - d.exp) + (m - 2);
      MulAssoc(d.coef, Pow10(2 - d.exp), Pow10(m - 2));
      MulMod(d.coef * Pow10(2 - d.exp), Pow10(m - 2));
    } else {
      Pow10Add(d.exp - 2, m - d.exp);
      assert m - 2 == (d.exp - 2) + (m - d.exp);
      ScaledMod(d.coef, Pow10(d.exp - 2), Pow10(m - d.exp));
    }
  }

  /** Scaling both `c` and `p` by `s` keeps divisibility and the quotient. */
  lemma ScaledMod(c: int, p: int, s: int)
    requires p > 0 && s > 0
    ensures (c * s) % (p * s) == 0 <==> c % p == 0
    ensures c % p == 0 ==> c * s == (c / p) * (p * s)
  {
    var q, r := c / p, c % p;
    ScaledDecomposition(c, p, s);
    ScaledRange(r, p, s);
    DivModUnique(c * s, p * s, q, r * s);
    if r != 0 {
      MulAtLeast(r, s);
    }
  }

  lemma ScaledDecomposition(c: int, p: int, s: int)
    requires p > 0
    ensures c * s == (c / p) * (p * s) + (c % p) * s
  {
    var q, r := c / p, c % p;
    assert c == q * p + r;
    assert (q * p + r) * s == q * p * s + r * s;
    MulAssoc(q, p, s);
  }

  lemma ScaledRange(r: int, p: int, s: int)
    requires 0 <= r < p && s > 0
    ensures 0 <= r * s < p * s
  {
    assert (p - r) * s == p * s - r * s;
    MulAtLeast(p - r, s);
  }

  lemma MulMod(x: int, k: int)
    requires k > 0
    ensures (x * k) % k == 0
  {
    DivModUnique(x * k, k, x, 0);
  }

  lemma DivModUnique(n: int, k: int, q: int, r: int)
    requires k > 0 && 0 <= r < k && n == q * k + r
    ensures n / k == q && n % k == r
  {
    var q', r' := n / k, n % k;
    assert n == q' * k + r';
    if q' > q {
      assert (q' - q) * k == q' * k - q * k;
      MulAtLeast(q' - q, k);
    } else if q' < q {
      assert (q - q') * k == q * k - q' * k;
      MulAtLeast(q - q', k);
    }
  }

  lemma MulCancel(x: int, y: int, k: int)
    requires k > 0 && x * k == y * k
    ensures x == y
  {
    if x < y {
      assert y * k - x * k == (y - x) * k;
      MulAtLeast(y - x, k);
    } else if x > y {
      assert x * k - y * k == (x - y) * k;
      MulAtLeast(x - y, k);
    }
  }

  /** Adding a multiple of `k` does not change the remainder modulo `k`. */
  lemma ModShift(x: int, c: int, k: int)
    requires k > 0
    ensures (x + c * k) % k == x % k
    ensures (x + c * k) / k == x / k + c
  {
    assert x == (x / k) * k + x % k;
    assert x + c * k == (x / k + c) * k + x % k;
    DivModUnique(x + c * k, k, x / k + c, x % k);
  }

  /** The scale at which two values and whole hundredths can all be written. */
  function CentScale(a: Decimal, b: Decimal): nat {
    Max(Max(a.exp, b.exp), 2)
  }

  /** Adding a whole number of hundredths keeps a value a whole number of
      hundredths or not one, and whole hundredths add up. */
  lemma CentsAdd(a: Decimal, b: Decimal)
    requires CentMultiple(b)
    ensures CentMultiple(Add(a, b)) <==> CentMultiple(a)
    ensures CentMultiple(a) ==> Cents(Add(a, b)) == Cents(a) + Cents(b)
  {
    var m := CentScale(a, b);
    var k := Pow10(m - 2);
    var s := Add(a, b);
    var x, y, cb := Units(a, m), Units(b, m), Cents(b);
    UnitsAdd(a, b, m);
    assert Units(s, m) == x + y;
    CentsAtScale(b, m);
    assert y == cb * k;
    CentsAtScale(a, m);
    CentsAtScale(s, m);
    ModShift(x, cb, k);
    assert CentMultiple(s) <==> (x + cb * k) % k == 0;
    if CentMultiple(a) {
      var ca := Cents(a);
      assert x == ca * k;
      MulDistrib(ca, cb, k);
      assert Units(s, m) == (ca + cb) * k;
      MulCancel(Cents(s), ca + cb, k);
    }
  }

  /** The same for subtracting a whole number of hundredths. */
  lemma CentsSub(a: Decimal, b: Decimal)
    requires CentMultiple(b)
    ensures CentMultiple(Sub(a, b)) <==> CentMultiple(a)
    ensures CentMultiple(a) ==> Cents(Sub(a, b)) == Cents(a) - Cents(b)
  {
    var m := CentScale(a, b);
    var k := Pow10(m - 2);
    var s := Sub(a, b);
    var x, y, cb := Units(a, m), Units(b, m), Cents(b);
    UnitsSub(a, b, m);
    assert Units(s, m) == x - y;
    CentsAtScale(b, m);
    assert y == cb * k;
    NegMul(cb, k);
    assert Units(s, m) == x + (-cb) * k;
    CentsAtScale(a, m);
    CentsAtScale(s, m);
    ModShift(x, -cb, k);
    assert CentMultiple(s) <==> (x + (-cb) * k) % k == 0;
    if CentMultiple(a) {
      var ca := Cents(a);
      assert x == ca * k;
      MulDistrib(ca, -cb, k);
      assert Units(s, m) == (ca - cb) * k;
      MulCancel(Cents(s), ca - cb, k);
    }
  }

  /** A whole number of hundredths has the sign of its count of hundredths; in
      particular it is zero exactly when that count is. */
  lemma CentsSign(d: Decimal)
    requires CentMultiple(d)
    ensures Sign(Cents(d)) == Sign(d.coef)
  {
    var m := Max(d.exp, 2);
    CentsAtScale(d, m);
    var k := Pow10(m - 2);
    var p := Pow10(m - d.exp);
    assert Units(d, m) == d.coef * p;
    SignMul(d.coef, p);
    SignMul(Cents(d), k);
  }

  lemma SignMul(x: int, k: int)
    requires k > 0
    ensures Sign(x * k) == Sign(x)
  {
    if x > 0 {
      MulAtLeast(x, k);
    } else if x < 0 {
      MulAtLeast(-x, k);
      NegMul(x, k);
    }
  }

  /** Numeric zero: `eq(0)` holds exactly when the coefficient is zero. */
  lemma EqZero(x: Decimal)
    ensures Eq(x, Zero) <==> x.coef == 0
  {
    assert Units(x, x.exp) == x.coef;
  }

  /** Whole hundredths at scale two are their own count. */
  lemma CentIsCents(c: int)
    ensures CentMultiple(Cent(c)) && Cents(Cent(c)) == c
  {
  }

  /** Rounding to `dp` places leaves a value of at most `dp` places alone; otherwise
      it moves the value by less than one unit of the last kept place (at most half
      a unit for the half modes), and by nothing exactly when the dropped digits
      are all zero. */
  lemma RoundError(x: Decimal, dp: nat, rm: RoundingMode)
    ensures x.exp <= dp ==> Round(x, dp, rm) == x
    ensures x.exp > dp ==>
      var r, k := Round(x, dp, rm), Pow10(x.exp - dp);
      && AbsInt(Units(r, x.exp) - x.coef) < k
      && (rm == HalfUp || rm == HalfEven ==> 2 * AbsInt(Units(r, x.exp) - x.coef) <= k)
      && (x.coef % k == 0 <==> Eq(r, x))
  {
    if x.exp > dp {
      var k := Pow10(x.exp - dp);
      RoundQuotientBounds(x.coef, k, rm);
      EqAtScale(Round(x, dp, rm), x, x.exp);
      assert Units(x, x.exp) == x.coef;
    }
  }

  /** Rounding to a whole number of hundredths commutes with adding whole
      hundredths, as long as the value and the shifted value lie on the same side
      of zero and ties are not broken to even. */
  lemma RoundShift(x: Decimal, c: int, rm: RoundingMode)
    requires rm != HalfEven
    requires (x.coef >= 0 && Add(x, Cent(c)).coef >= 0) || (x.coef <= 0 && Add(x, Cent(c)).coef <= 0)
    ensures Round(Add(x, Cent(c)), 2, rm) == Add(Round(x, 2, rm), Cent(c))
  {
    if x.exp > 2 {
      var k := Pow10(x.exp - 2);
      assert Units(x, x.exp) == x.coef;
      assert Add(x, Cent(c)) == Decimal(x.coef + c * k, x.exp);
      RoundQuotientShift(x.coef, c, k, rm);
    }
  }

  lemma RoundQuotientShift(n: int, c: int, k: int, rm: RoundingMode)
    requires k > 0 && rm != HalfEven
    requires (n >= 0 && n + c * k >= 0) || (n <= 0 && n + c * k <= 0)
    ensures RoundQuotient(n + c * k, k, rm) == RoundQuotient(n, k, rm) + c
  {
    if n >= 0 && n + c * k >= 0 {
      RoundMagnitudeShift(n, c, k, rm);
    } else {
      NegMul(c, k);
      assert -(n + c * k) == -n + (-c) * k;
      RoundMagnitudeShift(-n, -c, k, rm);
    }
  }

  lemma RoundMagnitudeShift(a: nat, c: int, k: int, rm: RoundingMode)
    requires k > 0 && rm != HalfEven && a + c * k >= 0
    ensures RoundMagnitude(a + c * k, k, rm) == RoundMagnitude(a, k, rm) + c
  {
    ModShift(a, c, k);
  }

  /** Dividing an exact product by one of its factors gives the other factor
      back, when that factor has no more places than the division keeps. */
  lemma DivMulExact(v: Decimal, x: Decimal, dp: nat, rm: RoundingMode)
    requires x.coef != 0 && v.exp <= dp
    ensures Div(Mul(v, x), x, dp, rm).Ok?
    ensures Eq(Div(Mul(v, x), x, dp, rm).value, v)
  {
    var a := Mul(v, x);
    var n := a.coef * Pow10(x.exp + dp);
    var d := x.coef * Pow10(a.exp);
    var q := v.coef * Pow10(dp - v.exp);
    var ax := AbsInt(x.coef);
    assert Sign(d) * n == q * AbsInt(d) by {
      Pow10Add(dp - v.exp, v.exp + x.exp);
      assert dp - v.exp + (v.exp + x.exp) == x.exp + dp;
      var p1, p2 := Pow10(dp - v.exp), Pow10(v.exp + x.exp);
      assert Pow10(x.exp + dp) == p1 * p2;
      SignMul(x.coef, p2);
      AbsMul(x.coef, p2);
      assert AbsInt(d) == ax * p2;
      assert Sign(x.coef) * x.coef == ax;
      calc {
        Sign(d) * n;
        Sign(x.coef) * (v.coef * x.coef * (p1 * p2));
        { MulAssoc4(Sign(x.coef), v.coef, x.coef, p1, p2); }
        (v.coef * p1) * ((Sign(x.coef) * x.coef) * p2);
        q * AbsInt(d);
      }
    }
    RoundQuotientExact(Sign(d) * n, AbsInt(d), q, rm);
    EqAtScale(Div(a, x, dp, rm).value, v, dp);
  }

  lemma MulAssoc4(s: int, v: int, x: int, p1: int, p2: int)
    ensures s * (v * x * (p1 * p2)) == (v * p1) * ((s * x) * p2)
  {
  }

  lemma AbsMul(x: int, k: int)
    requires k > 0
    ensures AbsInt(x * k) == AbsInt(x) * k
  {
    if x < 0 {
      NegMul(x, k);
    }
  }

  /** An exact quotient is not rounded. */
  lemma RoundQuotientExact(n: int, d: int, q: int, rm: RoundingMode)
    requires d > 0 && n == q * d
    ensures RoundQuotient(n, d, rm) == q
  {
    RoundQuotientBounds(n, d, rm);
    NegMod(0, d);
    DivModUnique(n, d, q, 0);
    MulCancel(RoundQuotient(n, d, rm), q, d);
  }

  /** A non-negative quotient with a known remainder rounds up exactly when the
      mode says the remainder is large enough. */
  lemma RoundQuotientOf(n: int, d: int, q: int, r: int, rm: RoundingMode)
    requires d > 0 && q >= 0 && 0 <= r < d && n == q * d + r
    ensures RoundQuotient(n, d, rm) == if RoundsAway(q, r, d, rm) then q + 1 else q
  {
    if q > 0 { MulAtLeast(q, d); }
    DivModUnique(n, d, q, r);
  }

  /** Every mode rounds the magnitude, so rounding is symmetric about zero. */
  lemma RoundQuotientNeg(n: int, d: int, rm: RoundingMode)
    requires d > 0
    ensures RoundQuotient(-n, d, rm) == -RoundQuotient(n, d, rm)
  {
    assert AbsInt(-n) == AbsInt(n);
    if n == 0 {
      assert RoundMagnitude(0, d, rm) == 0;
    }
  }

  /** Rounding the negation of a value gives the negation of the rounded value. */
  lemma RoundNeg(x: Decimal, dp: nat, rm: RoundingMode)
    ensures Round(Neg(x), dp, rm) == Neg(Round(x, dp, rm))
  {
    if x.exp > dp {
      RoundQuotientNeg(x.coef, Pow10(x.exp - dp), rm);
    }
  }

  /** `div` rounds the exact quotient to `dp` places: the quotient `q` times the
      divisor `b` misses the dividend `a` by less than 10^-dp times `|b|`, and by
      at most half of that in the half modes. Both sides are written as
      coefficients at the scale `dp + a.exp + b.exp`. */
  lemma DivError(a: Decimal, b: Decimal, dp: nat, rm: RoundingMode)
    requires b.coef != 0
    ensures Div(a, b, dp, rm).Ok?
    ensures var q := Div(a, b, dp, rm).value.coef;
      var e := q * b.coef * Pow10(a.exp) - a.coef * Pow10(b.exp + dp);
      && AbsInt(e) < AbsInt(b.coef) * Pow10(a.exp)
      && (rm == HalfUp || rm == HalfEven ==> 2 * AbsInt(e) <= AbsInt(b.coef) * Pow10(a.exp))
  {
    var p, s := Pow10(b.exp + dp), Pow10(a.exp);
    var q := RoundQuotient(Sign(b.coef * s) * (a.coef * p), AbsInt(b.coef * s), rm);
    assert Div(a, b, dp, rm).value.coef == q;
    SignedRoundError(a.coef * p, b.coef * s, rm);
    MulAssoc(q, b.coef, s);
    AbsMul(b.coef, s);
  }

  /** Rounding `n / d` for a divisor of either sign, as `Div` does it: the rounded
      quotient times `d` is within `|d|` of `n`, and within half of it in the half
      modes. */
  lemma SignedRoundError(n: int, d: int, rm: RoundingMode)
    requires d != 0
    ensures var q := RoundQuotient(Sign(d) * n, AbsInt(d), rm);
      && AbsInt(q * d - n) < AbsInt(d)
      && (rm == HalfUp || rm == HalfEven ==> 2 * AbsInt(q * d - n) <= AbsInt(d))
  {
    var q := RoundQuotient(Sign(d) * n, AbsInt(d), rm);
    RoundQuotientBounds(Sign(d) * n, AbsInt(d), rm);
    if d > 0 {
      assert Sign(d) * n == n && AbsInt(d) == d;
    } else {
      assert Sign(d) * n == -n && AbsInt(d) == -d;
      NegMul(d, q);
      assert q * AbsInt(d) == -(q * d);
    }
  }

  /** The powers of ten that the worked examples use. */
  lemma PowersOfTen()
    ensures Pow10(18) == 1000000000000000000
    ensures Pow10(20) == 100000000000000000000
    ensures Pow10(22) == 10000000000000000000000
    ensures Pow10(36) == 1000000000000000000000000000000000000
  {
    assert Pow10(2) == 100;
    Pow10Add(2, 2);
    Pow10Add(4, 4);
    Pow10Add(8, 8);
    Pow10Add(16, 2);
    Pow10Add(18, 2);
    Pow10Add(20, 2);
    Pow10Add(18, 18);
  }

  /** The exact sum of a sequence of values, added from the left as `reduce` does. */
  function Sum(ds: seq<Decimal>): Decimal {
    if ds == [] then Zero else Add(Sum(ds[..|ds| - 1]), ds[|ds| - 1])
  }

  /** Every value is a whole number of hundredths. */
  predicate AllCents(ds: seq<Decimal>) {
    forall i :: 0 <= i < |ds| ==> CentMultiple(ds[i])
  }

  /** The total number of hundredths in values that are whole hundredths. */
  function CentsTotal(ds: seq<Decimal>): int
    requires AllCents(ds)
  {
    if ds == [] then 0 else CentsTotal(ds[..|ds| - 1]) + Cents(ds[|ds| - 1])
  }

  /** Whole hundredths add up to whole hundredths, and their counts add up. */
  lemma {:induction false} SumOfCents(ds: seq<Decimal>)
    requires AllCents(ds)
    ensures CentMultiple(Sum(ds)) && Cents(Sum(ds)) == CentsTotal(ds)
  {
    if ds != [] {
      var front := ds[..|ds| - 1];
      assert AllCents(front);
      SumOfCents(front);
      CentsAdd(Sum(front), ds[|ds| - 1]);
    }
  }

  /** The most places any of the values carries. */
  function MaxExp(ds: seq<Decimal>): (m: nat)
    ensures forall i :: 0 <= i < |ds| ==> ds[i].exp <= m
  {
    if ds == [] then 0 else Max(MaxExp(ds[..|ds| - 1]), ds[|ds| - 1].exp)
  }

  /** The coefficients of values at a common scale `m`, added up. */
  function UnitsTotal(ds: seq<Decimal>, m: nat): int
    requires forall i :: 0 <= i < |ds| ==> ds[i].exp <= m
  {
    if ds == [] then 0 else UnitsTotal(ds[..|ds| - 1], m) + Units(ds[|ds| - 1], m)
  }

  /** The exact sum fits any scale its terms fit, and there its coefficient is
      the total of theirs. */
  lemma {:induction false} SumUnits(ds: seq<Decimal>, m: nat)
    requires forall i :: 0 <= i < |ds| ==> ds[i].exp <= m
    ensures Sum(ds).exp <= m && Units(Sum(ds), m) == UnitsTotal(ds, m)
  {
    if ds != [] {
      var front := ds[..|ds| - 1];
      SumUnits(front, m);
      UnitsAdd(Sum(front), ds[|ds| - 1], m);
    }
  }

  /** Two whole numbers of hundredths are numerically equal exactly when their
      counts are. */
  lemma CentsEq(a: Decimal, b: Decimal)
    requires CentMultiple(a) && CentMultiple(b)
    ensures Eq(a, b) <==> Cents(a) == Cents(b)
  {
    var m := Max(Max(a.exp, b.exp), 2);
    CentsAtScale(a, m);
    CentsAtScale(b, m);
    EqAtScale(a, b, m);
    if Units(a, m) == Units(b, m) {
      MulCancel(Cents(a), Cents(b), Pow10(m - 2));
    }
  }

  /** Adding hundredths twice is adding them once, in the same representation. */
  lemma AddCentsTwice(x: Decimal, a: int, b: int)
    ensures Add(Add(x, Cent(a)), Cent(b)) == Add(x, Cent(a + b))
  {
    var m := Max(x.exp, 2);
    var p := Pow10(m - 2);
    var y := Add(x, Cent(a));
    assert y == Decimal(Units(x, m) + a * p, m);
    assert Units(y, m) == y.coef;
    assert (a + b) * p == a * p + b * p;
  }

  /** The digit characters of `n`, without leading zeros ("0" for zero). */
  function Digits(n: nat): (s: string)
    ensures |s| >= 1
  {
    if n < 10 then [DigitChar(n)] else Digits(n / 10) + [DigitChar(n % 10)]
  }

  /** Appending one digit to a number appends its character to the text. */
  lemma DigitsSnoc(n: nat, d: nat, s: string)
    requires n > 0 && d < 10 && Digits(n) == s
    ensures Digits(10 * n + d) == s + [DigitChar(d)]
  {
    assert (10 * n + d) / 10 == n && (10 * n + d) % 10 == d;
  }

  function DigitChar(n: nat): (c: char)
    requires n < 10
    ensures '0' <= c <= '9'
  {
    ['0', '1', '2', '3', '4', '5', '6', '7', '8', '9'][n]
  }

  function Zeros(n: nat): (s: string)
    ensures |s| == n
  {
    if n == 0 then "" else Zeros(n - 1) + "0"
  }

  /** Drop trailing zero digits: `c * 10^k` is rewritten with no factor 10 left in `c`. */
  function Strip(c: nat, k: int): (r: (nat, int))
    requires c > 0
    ensures r.0 > 0
    decreases c
  {
    if c % 10 == 0 then Strip(c / 10, k + 1) else (c, k)
  }

  /** The text big.js gives a value: an optional "-", then the significant digits
      in plain notation, or in exponential notation when the leading digit's
      exponent is at least `ExpPos` or at most `ExpNeg`. */
  function Render(d: Decimal): (s: string)
    ensures |s| >= 1
  {
    if d.coef == 0 then "0"
    else
      var stripped := Strip(AbsInt(d.coef), -(d.exp as int));
      var body := Body(Digits(stripped.0), stripped.1);
      if d.coef > 0 then body else "-" + body
  }

  /** The unsigned text of `ds * 10^k`, where `ds` are significant digits. */
  function Body(ds: string, k: int): (s: string)
    requires |ds| >= 1
    ensures |s| >= 1
  {
    var n := |ds|;
    var e := k + n - 1;
    if e >= ExpPos || e <= ExpNeg then Exponential(ds, e)
    else if k >= 0 then ds + Zeros(k)
    else if -k < n then ds[..n + k] + "." + ds[n + k..]
    else "0." + Zeros(-k - n) + ds
  }

  /** Exponential notation: the leading digit, the other digits after a point,
      then "e", the exponent's sign and its digits. */
  function Exponential(ds: string, e: int): (s: string)
    requires |ds| >= 1
    ensures |s| >= 1
  {
    var frac := if |ds| > 1 then "." + ds[1..] else "";
    [ds[0]] + frac + "e" + (if e < 0 then "-" else "+") + Digits(AbsInt(e))
  }

  /** Text free of '%', the character a format template marks its fields with. */
  predicate Unmarked(s: string) {
    forall i :: 0 <= i < |s| ==> s[i] != '%'
  }

  lemma UnmarkedJoin(a: string, b: string)
    requires Unmarked(a) && Unmarked(b)
    ensures Unmarked(a + b)
  {
    forall i | 0 <= i < |a + b| ensures (a + b)[i] != '%' {
      if i < |a| { assert (a + b)[i] == a[i]; } else { assert (a + b)[i] == b[i - |a|]; }
    }
  }

  lemma UnmarkedSlice(s: string, i: nat, j: nat)
    requires Unmarked(s) && i <= j <= |s|
    ensures Unmarked(s[i..j])
  {
    assert forall k :: 0 <= k < j - i ==> s[i..j][k] == s[i + k];
  }

  lemma {:induction false} DigitsUnmarked(n: nat)
    ensures Unmarked(Digits(n))
  {
    if n >= 10 {
      DigitsUnmarked(n / 10);
      UnmarkedJoin(Digits(n / 10), [DigitChar(n % 10)]);
    }
  }

  lemma {:induction false} ZerosUnmarked(n: nat)
    ensures Unmarked(Zeros(n))
  {
    if n > 0 {
      ZerosUnmarked(n - 1);
      UnmarkedJoin(Zeros(n - 1), "0");
    }
  }

  lemma BodyUnmarked(ds: string, k: int)
    requires |ds| >= 1 && Unmarked(ds)
    ensures Unmarked(Body(ds, k))
  {
    var n := |ds|;
    var e := k + n - 1;
    if e >= ExpPos || e <= ExpNeg {
      ExponentialUnmarked(ds, e);
    } else if k >= 0 {
      ZerosUnmarked(k);
      UnmarkedJoin(ds, Zeros(k));
    } else if -k < n {
      UnmarkedSlice(ds, 0, n + k);
      UnmarkedSlice(ds, n + k, n);
      UnmarkedJoin(ds[..n + k], ".");
      UnmarkedJoin(ds[..n + k] + ".", ds[n + k..]);
    } else {
      ZerosUnmarked(-k - n);
      UnmarkedJoin("0.", Zeros(-k - n));
      UnmarkedJoin("0." + Zeros(-k - n), ds);
    }
  }

  lemma ExponentialUnmarked(ds: string, e: int)
    requires |ds| >= 1 && Unmarked(ds)
    ensures Unmarked(Exponential(ds, e))
  {
    var frac := if |ds| > 1 then "." + ds[1..] else "";
    var sign := if e < 0 then "-" else "+";
    UnmarkedSlice(ds, 1, |ds|);
    UnmarkedJoin(".", ds[1..]);
    UnmarkedJoin([ds[0]], frac);
    UnmarkedJoin([ds[0]] + frac, "e");
    UnmarkedJoin([ds[0]] + frac + "e", sign);
    DigitsUnmarked(AbsInt(e));
    UnmarkedJoin([ds[0]] + frac + "e" + sign, Digits(AbsInt(e)));
  }

  /** No text of a value holds the character '%'. */
  lemma RenderUnmarked(d: Decimal)
    ensures Unmarked(Render(d))
  {
    if d.coef != 0 {
      var stripped := Strip(AbsInt(d.coef), -(d.exp as int));
      DigitsUnmarked(stripped.0);
      BodyUnmarked(Digits(stripped.0), stripped.1);
      UnmarkedJoin("-", Body(Digits(stripped.0), stripped.1));
    }
  }

  /** A positive value is its unsigned text. */
  lemma RenderPositive(d: Decimal, c: nat, k: int)
    requires d.coef > 0 && Strip(AbsInt(d.coef), -(d.exp as int)) == (c, k)
    ensures Render(d) == Body(Digits(c), k)
  {
    var body := Body(Digits(c), k);
    assert d.coef != 0 && d.coef > 0;
    assert Render(d) == body;
  }

  /** A positive value whose significant digits `hi + lo` straddle the point,
      with the digits `lo` after it. */
  lemma RenderPoint(d: Decimal, c: nat, k: int, hi: string, lo: string)
    requires d.coef > 0 && Strip(d.coef, -(d.exp as int)) == (c, k) && Digits(c) == hi + lo
    requires k == -|lo| && |lo| > 0 && |hi| > 0 && |hi| - 1 < ExpPos
    ensures Render(d) == hi + "." + lo
  {
    assert AbsInt(d.coef) == d.coef;
    RenderPositive(d, c, k);
    BodyPoint(hi, lo);
  }

  lemma BodyPoint(hi: string, lo: string)
    requires |lo| > 0 && |hi| > 0 && |hi| - 1 < ExpPos
    ensures Body(hi + lo, -|lo|) == hi + "." + lo
  {
    var ds := hi + lo;
    assert ds[..|hi|] == hi;
    assert ds[|hi|..] == lo;
  }

  /** A positive whole value below 10^21: its digits and then `k` zeros. */
  lemma RenderWhole(d: Decimal, c: nat, k: int, ds: string)
    requires d.coef > 0 && Strip(d.coef, -(d.exp as int)) == (c, k) && Digits(c) == ds
    requires k >= 0 && k + |ds| - 1 < ExpPos
    ensures Render(d) == ds + Zeros(k)
  {
    assert AbsInt(d.coef) == d.coef;
    RenderPositive(d, c, k);
  }
}
