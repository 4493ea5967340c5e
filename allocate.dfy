/** `Money.prototype.allocate` of bigmoney.js: an amount is split by ratios into
    provisional shares, and what is left over, one hundredth at a time, is handed
    out round-robin from the first share on. */
module Allocation {

  import opened Outcomes
  import Dec = Decimals
  import opened BigMoney

  /** The argument of `allocate`: none, a number of equal parts, or a list of
      integer ratios. */
  datatype Ratios = Unspecified | Count(n: int) | List(ratios: seq<int>)

  /** `ones(len)`: a list of `len` ones, empty when `len` is not positive. */
  method Ones(len: int) returns (arr: seq<int>)
    ensures |arr| == if len > 0 then len else 0
    ensures forall i :: 0 <= i < |arr| ==> arr[i] == 1
  {
    arr := [];
    var i := 0;
    while i < len
      invariant 0 <= i <= (if len > 0 then len else 0)
      invariant |arr| == i
      invariant forall j :: 0 <= j < |arr| ==> arr[j] == 1
    {
      arr := arr + [1];
      i := i + 1;
    }
  }

  /** The ratios a call works with: `n` ones for a count. */
  function RatioList(ratios: Ratios): seq<int>
    requires !ratios.Unspecified?
  {
    match ratios
    case Count(n) => seq(if n > 0 then n else 0, _ => 1)
    case List(rs) => rs
  }

  /** `ratios.reduce(sum)`, and the sum of any list of integers. */
  function Total(xs: seq<int>): int {
    if xs == [] then 0 else Total(xs[..|xs| - 1]) + xs[|xs| - 1]
  }

  /** The provisional share for one ratio: `amount.times(ratio).div(total)`. */
  function Share(m: Money, ratio: int, total: int, ctx: Dec.Context): (r: Money)
    requires total != 0
    ensures r.currency == m.currency && r.options == m.options
    ensures r.val.exp == ctx.dp
  {
    Div(Times(m, Num(Dec.FromInt(ratio)), ctx), Num(Dec.FromInt(total)), ctx).value
  }

  /** A share whose exact quotient, at the places a division keeps, is `q` with
      remainder `r`, rounded by the context's mode. */
  lemma ShareIs(m: Money, ratio: int, total: int, ctx: Dec.Context, q: int, r: int)
    requires total > 0 && q >= 0 && 0 <= r < total * Dec.Pow10(m.val.exp)
    requires m.val.coef * ratio * Dec.Pow10(ctx.dp) == q * (total * Dec.Pow10(m.val.exp)) + r
    ensures Share(m, ratio, total, ctx).val == Dec.Decimal(
      if Dec.RoundsAway(q, r, total * Dec.Pow10(m.val.exp), ctx.rm) then q + 1 else q, ctx.dp)
  {
    var d := total * Dec.Pow10(m.val.exp);
    Dec.MulAtLeast(total, Dec.Pow10(m.val.exp));
    assert Dec.Sign(d) == 1 && Dec.AbsInt(d) == d;
    Dec.RoundQuotientOf(m.val.coef * ratio * Dec.Pow10(ctx.dp), d, q, r, ctx.rm);
  }

  /** A provisional share is `m * ratio / total` rounded to the places a division
      keeps: the share times `total` misses `m * ratio` by less than 10^-dp times
      `|total|`, and by at most half of that in the half modes (both written as
      coefficients at the scale `dp + m.val.exp`). */
  lemma ShareError(m: Money, ratio: int, total: int, ctx: Dec.Context)
    requires total != 0
    ensures var e := Share(m, ratio, total, ctx).val.coef * total * Dec.Pow10(m.val.exp)
                     - m.val.coef * ratio * Dec.Pow10(ctx.dp);
      && Dec.AbsInt(e) < Dec.AbsInt(total) * Dec.Pow10(m.val.exp)
      && (ctx.rm == Dec.HalfUp || ctx.rm == Dec.HalfEven ==> 2 * Dec.AbsInt(e) <= Dec.AbsInt(total) * Dec.Pow10(m.val.exp))
  {
    Dec.DivError(Dec.Mul(m.val, Dec.FromInt(ratio)), Dec.FromInt(total), ctx.dp, ctx.rm);
  }

  function Shares(m: Money, rs: seq<int>, total: int, ctx: Dec.Context): seq<Money>
    requires total != 0
  {
    seq(|rs|, i requires 0 <= i < |rs| => Share(m, rs[i], total, ctx))
  }

  /** What is left of `m` once each share, as big.js reads it, has been taken off:
      a Money argument of `minus` enters as its display value. */
  function RemainderAfter(m: Money, shares: seq<Money>, ctx: Dec.Context): (r: Money)
    ensures r.currency == m.currency && r.options == m.options
  {
    if shares == [] then m
    else Minus(RemainderAfter(m, shares[..|shares| - 1], ctx), Of(shares[|shares| - 1]), ctx)
  }

  /** The display values of a list of amounts. */
  function Displays(ms: seq<Money>, ctx: Dec.Context): (ds: seq<Dec.Decimal>)
    ensures |ds| == |ms| && Dec.AllCents(ds)
  {
    seq(|ms|, i requires 0 <= i < |ms| => ValueOf(ms[i], ctx))
  }

  /** The exact values of a list of amounts. */
  function Values(ms: seq<Money>): seq<Dec.Decimal> {
    seq(|ms|, i requires 0 <= i < |ms| => ms[i].val)
  }

  /** The remainder is a whole number of hundredths exactly when the amount is,
      and then it is the amount less the displayed shares. */
  lemma {:induction false} RemainderCents(m: Money, shares: seq<Money>, ctx: Dec.Context)
    ensures Dec.CentMultiple(RemainderAfter(m, shares, ctx).val) <==> Dec.CentMultiple(m.val)
    ensures Dec.CentMultiple(m.val) ==>
      Dec.Cents(RemainderAfter(m, shares, ctx).val) == Dec.Cents(m.val) - Dec.CentsTotal(Displays(shares, ctx))
  {
    if shares != [] {
      var front := shares[..|shares| - 1];
      var last := shares[|shares| - 1];
      RemainderCents(m, front, ctx);
      var prev := RemainderAfter(m, front, ctx);
      Dec.CentsSub(prev.val, ValueOf(last, ctx));
      assert Displays(shares, ctx)[..|shares| - 1] == Displays(front, ctx);
    }
  }

  /** The step of the correction loop: one hundredth towards zero,
      `remainder.plus(0.01 * remainder.val.s * -1)`. */
  function Step(r: Money, ctx: Dec.Context): Money {
    Plus(r, Num(Dec.Cent(-Dec.Sign(r.val.coef))), ctx)
  }

  /** The remainder after `k` steps. */
  function Iterate(r: Money, k: nat, ctx: Dec.Context): Money {
    if k == 0 then r else Step(Iterate(r, k - 1, ctx), ctx)
  }

  /** From a whole number of hundredths `c`, step `k <= |c|` leaves `c - sign(c) * k`
      hundredths, with the same tags. */
  lemma {:induction false} IterateCents(r: Money, k: nat, ctx: Dec.Context)
    requires Dec.CentMultiple(r.val) && k <= Dec.AbsInt(Dec.Cents(r.val))
    ensures var x := Iterate(r, k, ctx);
      && Dec.CentMultiple(x.val)
      && Dec.Cents(x.val) == Dec.Cents(r.val) - Dec.Sign(Dec.Cents(r.val)) * k
      && x.currency == r.currency && x.options == r.options
  {
    if k > 0 {
      IterateCents(r, k - 1, ctx);
      var c, s := Dec.Cents(r.val), Dec.Sign(Dec.Cents(r.val));
      var prev := Iterate(r, k - 1, ctx);
      var cp := Dec.Cents(prev.val);
      SignStep(c, s, k);
      assert cp == c - s * (k - 1);
      assert Dec.Sign(cp) == s;
      Dec.CentsSign(prev.val);
      assert Iterate(r, k, ctx) == Rewrap(prev, Dec.Add(prev.val, Dec.Cent(-s)));
      Dec.CentIsCents(-s);
      Dec.CentsAdd(prev.val, Dec.Cent(-s));
      assert cp + -s == c - s * k;
    }
  }

  /** Counting down from `c` towards zero: before step `k <= |c|` the count
      still has the sign `s` of `c`, and the step takes one more `s` off. */
  lemma SignStep(c: int, s: int, k: nat)
    requires s == Dec.Sign(c) && 0 < k <= Dec.AbsInt(c)
    ensures Dec.Sign(c - s * (k - 1)) == s
    ensures c - s * (k - 1) - s == c - s * k
  {
    if c > 0 {
      assert s == 1;
    } else {
      assert s == -1;
    }
  }

  /** A remainder that is not a whole number of hundredths never reaches zero. */
  lemma {:induction false} IterateNeverZero(r: Money, k: nat, ctx: Dec.Context)
    requires !Dec.CentMultiple(r.val)
    ensures !Dec.CentMultiple(Iterate(r, k, ctx).val)
    ensures Iterate(r, k, ctx).val.coef != 0
  {
    if k > 0 {
      IterateNeverZero(r, k - 1, ctx);
      var prev := Iterate(r, k - 1, ctx);
      Dec.CentIsCents(-Dec.Sign(prev.val.coef));
      Dec.CentsAdd(prev.val, Dec.Cent(-Dec.Sign(prev.val.coef)));
    }
  }

  /** The correction loop stops exactly when the remainder it starts from is a
      whole number of hundredths. */
  lemma SettlesIff(r: Money, ctx: Dec.Context)
    ensures (exists k: nat :: Iterate(r, k, ctx).val.coef == 0) <==> Dec.CentMultiple(r.val)
  {
    if Dec.CentMultiple(r.val) {
      SettlesAfterCents(r, ctx);
      var n := Dec.AbsInt(Dec.Cents(r.val));
      assert Iterate(r, n, ctx).val.coef == 0;
    } else {
      NeverSettles(r, ctx);
    }
  }

  /** From `c` whole hundredths the loop stops after exactly `|c|` steps. */
  lemma SettlesAfterCents(r: Money, ctx: Dec.Context)
    requires Dec.CentMultiple(r.val)
    ensures var n := Dec.AbsInt(Dec.Cents(r.val));
      Iterate(r, n, ctx).val.coef == 0 && forall k: nat :: k < n ==> Iterate(r, k, ctx).val.coef != 0
  {
    var n := Dec.AbsInt(Dec.Cents(r.val));
    IterateZeroIff(r, n, ctx);
    forall k: nat | k < n ensures Iterate(r, k, ctx).val.coef != 0 {
      IterateZeroIff(r, k, ctx);
    }
  }

  lemma IterateZeroIff(r: Money, k: nat, ctx: Dec.Context)
    requires Dec.CentMultiple(r.val) && k <= Dec.AbsInt(Dec.Cents(r.val))
    ensures Iterate(r, k, ctx).val.coef == 0 <==> k == Dec.AbsInt(Dec.Cents(r.val))
  {
    IterateCents(r, k, ctx);
    Dec.CentsSign(Iterate(r, k, ctx).val);
  }

  /** Otherwise it never stops: `allocate` does not return. */
  lemma NeverSettles(r: Money, ctx: Dec.Context)
    requires !Dec.CentMultiple(r.val)
    ensures forall k: nat :: Iterate(r, k, ctx).val.coef != 0
  {
    forall k: nat ensures Iterate(r, k, ctx).val.coef != 0 {
      IterateNeverZero(r, k, ctx);
    }
  }

  /** How many hundredths share `i` of `n` receives in `k` round-robin steps
      that start at share 0. */
  function Corrections(n: nat, k: nat, i: nat): nat
    requires n > 0
  {
    k / n + (if i < k % n then 1 else 0)
  }

  function CorrectionCounts(n: nat, k: nat): seq<int>
    requires n > 0
  {
    seq(n, i requires 0 <= i < n => Corrections(n, k, i))
  }

  /** One more step adds a hundredth to share `k % n` only. */
  lemma CorrectionsStep(n: nat, k: nat, i: nat)
    requires n > 0 && i < n
    ensures Corrections(n, k + 1, i) == Corrections(n, k, i) + (if i == k % n then 1 else 0)
  {
    var q, r := k / n, k % n;
    if r + 1 < n {
      Dec.DivModUnique(k + 1, n, q, r + 1);
    } else {
      Dec.DivModUnique(k + 1, n, q + 1, 0);
    }
  }

  lemma {:induction false} TotalBump(xs: seq<int>, j: nat)
    requires j < |xs|
    ensures Total(xs[j := xs[j] + 1]) == Total(xs) + 1
  {
    var ys := xs[j := xs[j] + 1];
    if j < |xs| - 1 {
      assert ys[..|ys| - 1] == xs[..|xs| - 1][j := xs[j] + 1];
      TotalBump(xs[..|xs| - 1], j);
    } else {
      assert ys[..|ys| - 1] == xs[..|xs| - 1];
    }
  }

  /** The round-robin is fair: after `k` steps the counts add up to `k`, do not
      grow along the list, and differ by at most one. */
  lemma CorrectionsFair(n: nat, k: nat)
    requires n > 0
    ensures Total(CorrectionCounts(n, k)) == k
    ensures forall i: nat, j: nat :: i <= j < n ==>
      Corrections(n, k, j) <= Corrections(n, k, i) <= Corrections(n, k, j) + 1
  {
    CorrectionsTotal(n, k);
  }

  lemma {:induction false} CorrectionsTotal(n: nat, k: nat)
    requires n > 0
    ensures Total(CorrectionCounts(n, k)) == k
  {
    if k == 0 {
      assert CorrectionCounts(n, 0) == seq(n, _ => 0);
      ZeroTotal(n);
    } else {
      CorrectionsTotal(n, k - 1);
      var j := (k - 1) % n;
      var before := CorrectionCounts(n, k - 1);
      var after := before[j := before[j] + 1];
      forall i | 0 <= i < n ensures CorrectionCounts(n, k)[i] == after[i] {
        CorrectionsStep(n, k - 1, i);
      }
      assert CorrectionCounts(n, k) == after;
      TotalBump(before, j);
    }
  }

  lemma {:induction false} ZeroTotal(n: nat)
    ensures Total(seq(n, _ => 0)) == 0
  {
    if n > 0 {
      assert seq(n, _ => 0)[..n - 1] == seq(n - 1, _ => 0);
      ZeroTotal(n - 1);
    }
  }

  /** Share `x` after `c` hundredths of corrections (a negative `c` takes them off);
      untouched when there are none. */
  function Bump(x: Money, c: int, ctx: Dec.Context): Money {
    if c == 0 then x else Plus(x, Num(Dec.Cent(c)), ctx)
  }

  /** One more hundredth in the same direction. */
  lemma BumpStep(x: Money, s: int, j: nat, ctx: Dec.Context)
    requires s == 1 || s == -1
    ensures Plus(Bump(x, s * j, ctx), Num(Dec.Cent(s)), ctx) == Bump(x, s * (j + 1), ctx)
  {
    if j > 0 {
      Dec.AddCentsTwice(x.val, s * j, s);
      assert s * j + s == s * (j + 1);
    }
  }

  /** The shares after `k` round-robin corrections of sign `s`. */
  function Corrected(prov: seq<Money>, s: int, k: nat, ctx: Dec.Context): (r: seq<Money>)
    requires |prov| > 0
    ensures |r| == |prov|
  {
    seq(|prov|, i requires 0 <= i < |prov| => Bump(prov[i], s * Corrections(|prov|, k, i), ctx))
  }

  /** The shares once a remainder of whole hundredths has been handed out. */
  function Settled(prov: seq<Money>, rem: Money, ctx: Dec.Context): (r: seq<Money>)
    requires |prov| > 0 && Dec.CentMultiple(rem.val)
    ensures |r| == |prov|
  {
    var c := Dec.Cents(rem.val);
    Corrected(prov, Dec.Sign(c), Dec.AbsInt(c), ctx)
  }

  /** The `forEach` over the ratios: provisional shares, and the remainder they leave. */
  method ShareOut(m: Money, rs: seq<int>, total: int, ctx: Dec.Context) returns (results: seq<Money>, remainder: Money)
    requires total != 0
    ensures results == Shares(m, rs, total, ctx)
    ensures remainder == RemainderAfter(m, results, ctx)
  {
    results := [];
    remainder := m;
    for index := 0 to |rs|
      invariant |results| == index
      invariant forall i :: 0 <= i < index ==> results[i] == Share(m, rs[i], total, ctx)
      invariant remainder == RemainderAfter(m, results, ctx)
    {
      var share := Div(Times(m, Num(Dec.FromInt(rs[index])), ctx), Num(Dec.FromInt(total)), ctx).value;
      assert share == Share(m, rs[index], total, ctx);
      ghost var before := results;
      results := results + [share];
      assert results[..|results| - 1] == before && results[index] == share;
      remainder := Minus(remainder, Of(results[index]), ctx);
      assert remainder == RemainderAfter(m, results, ctx);
    }
  }

  /** The test of the correction loop after `k <= |c|` steps from `c` hundredths:
      the remainder is zero exactly after `|c|` steps, and before that it keeps
      the sign of `c`. */
  lemma LoopGuard(rem: Money, k: nat, ctx: Dec.Context)
    requires Dec.CentMultiple(rem.val) && k <= Dec.AbsInt(Dec.Cents(rem.val))
    ensures Eq(Iterate(rem, k, ctx), Num(Dec.Zero), ctx) <==> k == Dec.AbsInt(Dec.Cents(rem.val))
    ensures k < Dec.AbsInt(Dec.Cents(rem.val)) ==>
      Dec.Sign(Iterate(rem, k, ctx).val.coef) == Dec.Sign(Dec.Cents(rem.val))
  {
    var x := Iterate(rem, k, ctx);
    IterateCents(rem, k, ctx);
    Dec.CentsSign(x.val);
    Dec.EqZero(x.val);
  }

  /** The cursor `current++`, reset to 0 at the end of the list, is the step
      count modulo the number of shares. */
  lemma CursorStep(n: nat, k: nat)
    requires n > 0
    ensures (if k % n + 1 >= n then 0 else k % n + 1) == (k + 1) % n
  {
    if k % n + 1 < n {
      Dec.DivModUnique(k + 1, n, k / n, k % n + 1);
    } else {
      Dec.DivModUnique(k + 1, n, k / n + 1, 0);
    }
  }

  /** One more correction of sign `s` goes to share `k % n`. */
  lemma SettleStep(prov: seq<Money>, s: int, k: nat, ctx: Dec.Context)
    requires |prov| > 0 && (s == 1 || s == -1)
    ensures var j, before := k % |prov|, Corrected(prov, s, k, ctx);
      Corrected(prov, s, k + 1, ctx) == before[j := Plus(before[j], Num(Dec.Cent(s)), ctx)]
  {
    var n, j := |prov|, k % |prov|;
    var before := Corrected(prov, s, k, ctx);
    var after := before[j := Plus(before[j], Num(Dec.Cent(s)), ctx)];
    BumpStep(prov[j], s, Corrections(n, k, j), ctx);
    forall i | 0 <= i < n ensures Corrected(prov, s, k + 1, ctx)[i] == after[i] {
      CorrectionsStep(n, k, i);
    }
  }

  /** The `while (!remainder.eq(0))` loop: a hundredth with the remainder's sign
      goes to the share under the cursor, which then moves on and wraps around. */
  method SettleRemainder(prov: seq<Money>, rem: Money, ctx: Dec.Context) returns (results: seq<Money>)
    requires |prov| > 0 && Dec.CentMultiple(rem.val)
    ensures results == Settled(prov, rem, ctx)
  {
    var n := |prov|;
    ghost var c := Dec.Cents(rem.val);
    ghost var s := Dec.Sign(c);
    ghost var k: nat := 0;
    results := prov;
    assert results == Corrected(prov, s, 0, ctx);
    var remainder := rem;
    var current := 0;
    Dec.CentsSign(rem.val);
    LoopGuard(rem, 0, ctx);
    while !Eq(remainder, Num(Dec.Zero), ctx)
      invariant k <= Dec.AbsInt(c)
      invariant remainder == Iterate(rem, k, ctx)
      invariant current == k % n
      invariant results == Corrected(prov, s, k, ctx)
      decreases Dec.AbsInt(c) - k
    {
      LoopGuard(rem, k, ctx);
      var sign := Dec.Sign(remainder.val.coef);
      SettleStep(prov, sign, k, ctx);
      CursorStep(n, k);
      results := results[current := Plus(results[current], Num(Dec.Cent(sign)), ctx)];
      current := current + 1;
      if current >= n {
        current := 0;
      }
      remainder := Plus(remainder, Num(Dec.Cent(sign * -1)), ctx);
      k := k + 1;
    }
    LoopGuard(rem, k, ctx);
  }

  /** The inputs on which `allocate` returns: without ratios, with no ratios or a
      zero total (it throws at once), or with an amount of whole hundredths. On
      any other amount the correction loop runs forever (`SettlesIff`). */
  predicate Terminates(m: Money, ratios: Ratios) {
    ratios.Unspecified? || |RatioList(ratios)| == 0 || Total(RatioList(ratios)) == 0 ||
    Dec.CentMultiple(m.val)
  }

  /** What `allocate` returns: the amount itself without ratios; `reduce` of no
      ratios throws; a zero total throws at the first division. */
  function Allocated(m: Money, ratios: Ratios, ctx: Dec.Context): Result<seq<Money>>
    requires Terminates(m, ratios)
  {
    if ratios.Unspecified? then Ok([m])
    else
      var rs := RatioList(ratios);
      if |rs| == 0 then Err(EmptyRatios)
      else if Total(rs) == 0 then Err(DivisionByZero)
      else
        var prov := Shares(m, rs, Total(rs), ctx);
        RemainderCents(m, prov, ctx);
        Ok(Settled(prov, RemainderAfter(m, prov, ctx), ctx))
  }

  /** `m.allocate(ratios)`. */
  method Allocate(m: Money, ratios: Ratios, ctx: Dec.Context) returns (r: Result<seq<Money>>)
    requires Terminates(m, ratios)
    ensures r == Allocated(m, ratios, ctx)
  {
    if ratios.Unspecified? {
      return Ok([m]);
    }
    var rs: seq<int>;
    if ratios.Count? {
      rs := Ones(ratios.n);
      assert rs == RatioList(ratios);
    } else {
      rs := ratios.ratios;
    }
    if |rs| == 0 {
      return Err(EmptyRatios);
    }
    var total := Total(rs);
    if total == 0 {
      return Err(DivisionByZero);
    }
    var results, remainder := ShareOut(m, rs, total, ctx);
    RemainderCents(m, results, ctx);
    results := SettleRemainder(results, remainder, ctx);
    return Ok(results);
  }

  /** `a` and `b` lie on the same side of zero. */
  predicate SameSide(a: Dec.Decimal, b: Dec.Decimal) {
    (a.coef >= 0 && b.coef >= 0) || (a.coef <= 0 && b.coef <= 0)
  }

  /** No correction moved a share across zero. */
  predicate KeepsSides(before: seq<Money>, after: seq<Money>) {
    |before| == |after| && forall i :: 0 <= i < |before| ==> SameSide(before[i].val, after[i].val)
  }

  /** Corrections change a share's tags by nothing, and its hundredths by exactly
      their number. */
  lemma BumpCents(x: Money, c: int, ctx: Dec.Context)
    ensures Bump(x, c, ctx).currency == x.currency && Bump(x, c, ctx).options == x.options
    ensures Dec.CentMultiple(Bump(x, c, ctx).val) <==> Dec.CentMultiple(x.val)
    ensures Dec.CentMultiple(x.val) ==> Dec.Cents(Bump(x, c, ctx).val) == Dec.Cents(x.val) + c
  {
    Dec.CentIsCents(c);
    Dec.CentsAdd(x.val, Dec.Cent(c));
  }

  /** Corrections move a share's display by exactly their number of hundredths,
      unless ties go to even or the share crosses zero. */
  lemma BumpDisplay(x: Money, c: int, ctx: Dec.Context)
    requires ctx.rm != Dec.HalfEven && SameSide(x.val, Bump(x, c, ctx).val)
    ensures Dec.Cents(ValueOf(Bump(x, c, ctx), ctx)) == Dec.Cents(ValueOf(x, ctx)) + c
  {
    if c != 0 {
      Dec.RoundShift(x.val, c, ctx.rm);
      Dec.CentIsCents(c);
      Dec.CentsAdd(ValueOf(x, ctx), Dec.Cent(c));
    }
  }

  /** Moving each count by `s` times a count moves the total by `s` times their total. */
  lemma {:induction false} CentsTotalShift(a: seq<Dec.Decimal>, b: seq<Dec.Decimal>, s: int, cs: seq<int>)
    requires |a| == |b| == |cs| && Dec.AllCents(a) && Dec.AllCents(b)
    requires forall i :: 0 <= i < |a| ==> Dec.Cents(b[i]) == Dec.Cents(a[i]) + s * cs[i]
    ensures Dec.CentsTotal(b) == Dec.CentsTotal(a) + s * Total(cs)
  {
    if a != [] {
      var n := |a| - 1;
      var a', b', cs' := a[..n], b[..n], cs[..n];
      assert Dec.AllCents(a') && Dec.AllCents(b');
      forall i | 0 <= i < n ensures Dec.Cents(b'[i]) == Dec.Cents(a'[i]) + s * cs'[i] {
        assert b'[i] == b[i] && a'[i] == a[i] && cs'[i] == cs[i];
      }
      CentsTotalShift(a', b', s, cs');
      assert Dec.CentsTotal(b) == Dec.CentsTotal(b') + Dec.Cents(b[n]);
      assert Dec.CentsTotal(a) == Dec.CentsTotal(a') + Dec.Cents(a[n]);
      assert Total(cs) == Total(cs') + cs[n];
      MulAdd(s, Total(cs'), cs[n]);
    }
  }

  lemma MulAdd(s: int, x: int, y: int)
    ensures s * (x + y) == s * x + s * y
  {
  }

  /** `|c|` corrections of sign `sign(c)` make `c`. */
  lemma SignTimesAbs(c: int)
    ensures Dec.Sign(c) * Dec.AbsInt(c) == c
  {
  }

  /** Handing out a remainder of whole hundredths moves the total of the displays
      by exactly that remainder, as long as ties do not go to even and no share
      crosses zero. */
  lemma SettledDisplays(prov: seq<Money>, rem: Money, ctx: Dec.Context)
    requires |prov| > 0 && Dec.CentMultiple(rem.val) && ctx.rm != Dec.HalfEven
    requires KeepsSides(prov, Settled(prov, rem, ctx))
    ensures Dec.CentsTotal(Displays(Settled(prov, rem, ctx), ctx)) ==
      Dec.CentsTotal(Displays(prov, ctx)) + Dec.Cents(rem.val)
  {
    var n, c := |prov|, Dec.Cents(rem.val);
    var s, k := Dec.Sign(c), Dec.AbsInt(c);
    var res := Settled(prov, rem, ctx);
    var cs := CorrectionCounts(n, k);
    forall i | 0 <= i < n
      ensures Dec.Cents(Displays(res, ctx)[i]) == Dec.Cents(Displays(prov, ctx)[i]) + s * cs[i]
    {
      BumpDisplay(prov[i], s * cs[i], ctx);
    }
    CentsTotalShift(Displays(prov, ctx), Displays(res, ctx), s, cs);
    CorrectionsFair(n, k);
    SignTimesAbs(c);
  }

  /** The same for the exact values of shares that are whole hundredths, in any
      rounding mode and whatever the signs. */
  lemma SettledValues(prov: seq<Money>, rem: Money, ctx: Dec.Context)
    requires |prov| > 0 && Dec.CentMultiple(rem.val) && Dec.AllCents(Values(prov))
    ensures Dec.AllCents(Values(Settled(prov, rem, ctx)))
    ensures Dec.CentsTotal(Values(Settled(prov, rem, ctx))) == Dec.CentsTotal(Values(prov)) + Dec.Cents(rem.val)
  {
    var n, c := |prov|, Dec.Cents(rem.val);
    var s, k := Dec.Sign(c), Dec.AbsInt(c);
    var res := Settled(prov, rem, ctx);
    var cs := CorrectionCounts(n, k);
    forall i | 0 <= i < n
      ensures Dec.CentMultiple(Values(res)[i])
      ensures Dec.Cents(Values(res)[i]) == Dec.Cents(Values(prov)[i]) + s * cs[i]
    {
      assert Dec.CentMultiple(Values(prov)[i]);
      BumpCents(prov[i], s * cs[i], ctx);
    }
    CentsTotalShift(Values(prov), Values(res), s, cs);
    CorrectionsFair(n, k);
    SignTimesAbs(c);
  }

  /** A correction of `c` hundredths moves a share's coefficient at any scale
      `m >= 2` that holds it by `c` units of 10^(m-2). */
  lemma BumpUnits(x: Money, c: int, m: nat, ctx: Dec.Context)
    requires x.val.exp <= m && 2 <= m
    ensures Bump(x, c, ctx).val.exp <= m
    ensures Dec.Units(Bump(x, c, ctx).val, m) == Dec.Units(x.val, m) + c * Dec.Pow10(m - 2)
  {
    if c != 0 {
      Dec.UnitsAdd(x.val, Dec.Cent(c), m);
    }
  }

  /** Moving each coefficient by `s * cs[i]` hundredths moves their total by
      `s * Total(cs)` hundredths. */
  lemma {:induction false} UnitsTotalShift(a: seq<Dec.Decimal>, b: seq<Dec.Decimal>, s: int, cs: seq<int>, m: nat)
    requires 2 <= m && |a| == |b| == |cs|
    requires forall i :: 0 <= i < |a| ==> a[i].exp <= m && b[i].exp <= m
    requires forall i :: 0 <= i < |a| ==> Dec.Units(b[i], m) == Dec.Units(a[i], m) + s * cs[i] * Dec.Pow10(m - 2)
    ensures Dec.UnitsTotal(b, m) == Dec.UnitsTotal(a, m) + s * Total(cs) * Dec.Pow10(m - 2)
  {
    if a != [] {
      var n := |a| - 1;
      var a', b', cs' := a[..n], b[..n], cs[..n];
      forall i | 0 <= i < n
        ensures Dec.Units(b'[i], m) == Dec.Units(a'[i], m) + s * cs'[i] * Dec.Pow10(m - 2)
      {
        assert b'[i] == b[i] && a'[i] == a[i] && cs'[i] == cs[i];
      }
      UnitsTotalShift(a', b', s, cs', m);
      assert Total(cs) == Total(cs') + cs[n];
      MulAdd3(s, Total(cs'), cs[n], Dec.Pow10(m - 2));
    }
  }

  lemma MulAdd3(s: int, x: int, y: int, p: int)
    ensures s * (x + y) * p == s * x * p + s * y * p
  {
  }

  /** Handing out a remainder of whole hundredths moves the total coefficient of
      the exact shares, at any scale `m >= 2` holding them and the remainder, by
      exactly the remainder. */
  lemma SettledUnits(prov: seq<Money>, rem: Money, ctx: Dec.Context, m: nat)
    requires |prov| > 0 && Dec.CentMultiple(rem.val) && 2 <= m && rem.val.exp <= m
    requires forall i :: 0 <= i < |prov| ==> prov[i].val.exp <= m
    ensures forall i :: 0 <= i < |prov| ==> Settled(prov, rem, ctx)[i].val.exp <= m
    ensures Dec.UnitsTotal(Values(Settled(prov, rem, ctx)), m) ==
      Dec.UnitsTotal(Values(prov), m) + Dec.Units(rem.val, m)
  {
    var n, c := |prov|, Dec.Cents(rem.val);
    var s, k := Dec.Sign(c), Dec.AbsInt(c);
    var res := Settled(prov, rem, ctx);
    var cs := CorrectionCounts(n, k);
    forall i | 0 <= i < n
      ensures res[i].val.exp <= m
      ensures Dec.Units(Values(res)[i], m) == Dec.Units(Values(prov)[i], m) + s * cs[i] * Dec.Pow10(m - 2)
    {
      BumpUnits(prov[i], s * cs[i], m, ctx);
    }
    UnitsTotalShift(Values(prov), Values(res), s, cs, m);
    CorrectionsFair(n, k);
    SignTimesAbs(c);
    Dec.CentsAtScale(rem.val, m);
  }

  /** The loop as written, on shares of any number of places: the exact shares it
      leaves add up to the provisional shares plus the remainder it started from. */
  lemma SettledSum(prov: seq<Money>, rem: Money, ctx: Dec.Context)
    requires |prov| > 0 && Dec.CentMultiple(rem.val)
    ensures Dec.Eq(Dec.Sum(Values(Settled(prov, rem, ctx))), Dec.Add(Dec.Sum(Values(prov)), rem.val))
  {
    var m := Dec.Max(Dec.Max(Dec.MaxExp(Values(prov)), rem.val.exp), 2);
    var before, after := Values(prov), Values(Settled(prov, rem, ctx));
    assert forall i :: 0 <= i < |prov| ==> prov[i].val.exp == before[i].exp;
    SettledUnits(prov, rem, ctx, m);
    Dec.SumUnits(before, m);
    Dec.SumUnits(after, m);
    Dec.UnitsAdd(Dec.Sum(before), rem.val, m);
    Dec.EqAtScale(Dec.Sum(after), Dec.Add(Dec.Sum(before), rem.val), m);
  }

  lemma MulSub(x: int, y: int, p: int)
    ensures (x - y) * p == x * p - y * p
  {
  }

  /** The remainder of an amount of whole hundredths, at a scale `e >= 2` holding
      it and the amount, is the amount less the sum of the displays. */
  lemma RemainderUnits(m: Money, shares: seq<Money>, ctx: Dec.Context, e: nat)
    requires Dec.CentMultiple(m.val) && 2 <= e && m.val.exp <= e
    requires RemainderAfter(m, shares, ctx).val.exp <= e
    ensures Dec.Sum(Displays(shares, ctx)).exp <= e
    ensures Dec.Units(RemainderAfter(m, shares, ctx).val, e) ==
      Dec.Units(m.val, e) - Dec.Units(Dec.Sum(Displays(shares, ctx)), e)
  {
    var rem, ds := RemainderAfter(m, shares, ctx), Displays(shares, ctx);
    RemainderCents(m, shares, ctx);
    Dec.SumUnits(ds, e);
    Dec.SumOfCents(ds);
    Dec.CentsAtScale(rem.val, e);
    Dec.CentsAtScale(m.val, e);
    Dec.CentsAtScale(Dec.Sum(ds), e);
    MulSub(Dec.Cents(m.val), Dec.CentsTotal(ds), Dec.Pow10(e - 2));
  }

  /** The same on the settled shares themselves: their sum is the amount plus
      what display rounding drops from the provisional shares. */
  lemma SettledGap(m: Money, prov: seq<Money>, ctx: Dec.Context)
    requires Dec.CentMultiple(m.val) && |prov| > 0
    ensures Dec.CentMultiple(RemainderAfter(m, prov, ctx).val)
    ensures var exact := Dec.Sum(Values(Settled(prov, RemainderAfter(m, prov, ctx), ctx)));
      var gap := Dec.Sub(Dec.Sum(Values(prov)), Dec.Sum(Displays(prov, ctx)));
      && Dec.Eq(exact, Dec.Add(m.val, gap))
      && (Dec.Eq(exact, m.val) <==> Dec.Eq(Dec.Sum(Values(prov)), Dec.Sum(Displays(prov, ctx))))
  {
    var rem := RemainderAfter(m, prov, ctx);
    RemainderCents(m, prov, ctx);
    var vs, ds := Values(prov), Displays(prov, ctx);
    var res := Values(Settled(prov, rem, ctx));
    var e := Dec.Max(Dec.Max(Dec.Max(Dec.MaxExp(vs), m.val.exp), rem.val.exp), 2);
    assert forall i :: 0 <= i < |prov| ==> prov[i].val.exp == vs[i].exp;
    SettledUnits(prov, rem, ctx, e);
    Dec.SumUnits(vs, e);
    Dec.SumUnits(res, e);
    RemainderUnits(m, prov, ctx, e);
    var gap := Dec.Sub(Dec.Sum(vs), Dec.Sum(ds));
    Dec.UnitsSub(Dec.Sum(vs), Dec.Sum(ds), e);
    Dec.UnitsAdd(m.val, gap, e);
    Dec.EqAtScale(Dec.Sum(res), Dec.Add(m.val, gap), e);
    Dec.EqAtScale(Dec.Sum(res), m.val, e);
    Dec.EqAtScale(Dec.Sum(vs), Dec.Sum(ds), e);
  }

  /** Where the exact shares of `allocate` end up: the amount plus what display
      rounding drops from the provisional shares. They add up to the amount
      exactly when the provisional shares add up to their displays. */
  lemma AllocatedSum(m: Money, ratios: Ratios, ctx: Dec.Context)
    requires Dec.CentMultiple(m.val)
    requires !ratios.Unspecified? && |RatioList(ratios)| > 0 && Total(RatioList(ratios)) != 0
    ensures var prov := Provisional(m, ratios, ctx);
      var exact := Dec.Sum(Values(Allocated(m, ratios, ctx).value));
      && Dec.Eq(exact, Dec.Add(m.val, Dec.Sub(Dec.Sum(Values(prov)), Dec.Sum(Displays(prov, ctx)))))
      && (Dec.Eq(exact, m.val) <==> Dec.Eq(Dec.Sum(Values(prov)), Dec.Sum(Displays(prov, ctx))))
  {
    AllocatedSettles(m, ratios, ctx);
    SettledGap(m, Provisional(m, ratios, ctx), ctx);
  }

  lemma {:induction false} TotalOnes(n: nat)
    ensures Total(seq(n, _ => 1)) == n
  {
    if n > 0 {
      assert seq(n, _ => 1)[..n - 1] == seq(n - 1, _ => 1);
      TotalOnes(n - 1);
    }
  }

  /** The shape of what `allocate` returns: the amount alone without ratios; an
      error exactly for an empty list (for a count, one that is not positive) or
      a zero total; otherwise one share per ratio, each in the amount's currency
      and with its options. */
  lemma AllocationShape(m: Money, ratios: Ratios, ctx: Dec.Context)
    requires Terminates(m, ratios)
    ensures var r := Allocated(m, ratios, ctx);
      && (ratios.Unspecified? ==> r == Ok([m]))
      && (!ratios.Unspecified? ==>
            && (r.Err? <==> |RatioList(ratios)| == 0 || Total(RatioList(ratios)) == 0)
            && (r.Err? ==> r.error == if |RatioList(ratios)| == 0 then EmptyRatios else DivisionByZero)
            && (r.Ok? ==> |r.value| == |RatioList(ratios)|))
      && (ratios.Count? ==> (r.Err? <==> ratios.n <= 0))
      && (r.Ok? ==> forall i :: 0 <= i < |r.value| ==>
            r.value[i].currency == m.currency && r.value[i].options == m.options)
  {
    if ratios.Count? && ratios.n > 0 {
      TotalOnes(ratios.n);
    }
    var r := Allocated(m, ratios, ctx);
    if r.Ok? && !ratios.Unspecified? {
      var rs := RatioList(ratios);
      var prov := Shares(m, rs, Total(rs), ctx);
      var rem := RemainderAfter(m, prov, ctx);
      RemainderCents(m, prov, ctx);
      var c := Dec.Cents(rem.val);
      forall i | 0 <= i < |r.value|
        ensures r.value[i].currency == m.currency && r.value[i].options == m.options
      {
        BumpCents(prov[i], Dec.Sign(c) * Corrections(|prov|, Dec.AbsInt(c), i), ctx);
      }
    }
  }

  /** The provisional shares, for a call that gets that far. */
  function Provisional(m: Money, ratios: Ratios, ctx: Dec.Context): seq<Money>
    requires !ratios.Unspecified? && Total(RatioList(ratios)) != 0
  {
    Shares(m, RatioList(ratios), Total(RatioList(ratios)), ctx)
  }

  /** A call that gets past the checks settles the remainder of its provisional shares. */
  lemma AllocatedSettles(m: Money, ratios: Ratios, ctx: Dec.Context)
    requires Dec.CentMultiple(m.val)
    requires !ratios.Unspecified? && |RatioList(ratios)| > 0 && Total(RatioList(ratios)) != 0
    ensures Dec.CentMultiple(RemainderAfter(m, Provisional(m, ratios, ctx), ctx).val)
    ensures Allocated(m, ratios, ctx) ==
      Ok(Settled(Provisional(m, ratios, ctx), RemainderAfter(m, Provisional(m, ratios, ctx), ctx), ctx))
  {
    RemainderCents(m, Provisional(m, ratios, ctx), ctx);
  }

  /** No cent is lost in the display: when ties are not broken to even and no
      correction moves a share across zero, the displayed shares add up to the
      amount. */
  lemma AllocationDisplaysAddUp(m: Money, ratios: Ratios, ctx: Dec.Context)
    requires Dec.CentMultiple(m.val) && ctx.rm != Dec.HalfEven
    requires !ratios.Unspecified? && |RatioList(ratios)| > 0 && Total(RatioList(ratios)) != 0
    requires KeepsSides(Provisional(m, ratios, ctx), Allocated(m, ratios, ctx).value)
    ensures Dec.Eq(Dec.Sum(Displays(Allocated(m, ratios, ctx).value, ctx)), m.val)
  {
    var prov := Provisional(m, ratios, ctx);
    var rem := RemainderAfter(m, prov, ctx);
    RemainderCents(m, prov, ctx);
    var res := Settled(prov, rem, ctx);
    SettledDisplays(prov, rem, ctx);
    Dec.SumOfCents(Displays(res, ctx));
    Dec.CentsEq(Dec.Sum(Displays(res, ctx)), m.val);
  }

  /** Shares of equal ratios are displayed at most one hundredth apart, under the
      same conditions. */
  lemma EqualRatiosWithinACent(m: Money, ratios: Ratios, ctx: Dec.Context, i: nat, j: nat)
    requires Dec.CentMultiple(m.val) && ctx.rm != Dec.HalfEven
    requires !ratios.Unspecified? && Total(RatioList(ratios)) != 0
    requires i < |RatioList(ratios)| && j < |RatioList(ratios)| && RatioList(ratios)[i] == RatioList(ratios)[j]
    requires KeepsSides(Provisional(m, ratios, ctx), Allocated(m, ratios, ctx).value)
    ensures var r := Allocated(m, ratios, ctx).value;
      Dec.AbsInt(Dec.Cents(ValueOf(r[i], ctx)) - Dec.Cents(ValueOf(r[j], ctx))) <= 1
  {
    var prov := Provisional(m, ratios, ctx);
    var rem := RemainderAfter(m, prov, ctx);
    RemainderCents(m, prov, ctx);
    var n, c := |prov|, Dec.Cents(rem.val);
    var s, k := Dec.Sign(c), Dec.AbsInt(c);
    BumpDisplay(prov[i], s * Corrections(n, k, i), ctx);
    BumpDisplay(prov[j], s * Corrections(n, k, j), ctx);
    CorrectionsFair(n, k);
  }

  /** The provisional shares rounded to hundredths, as `toString` shows them. */
  function CentShares(m: Money, rs: seq<int>, total: int, ctx: Dec.Context): seq<Money>
    requires total != 0
  {
    seq(|rs|, i requires 0 <= i < |rs| => Round(Share(m, rs[i], total, ctx), 2, ctx.rm))
  }

  /** `allocate` with each provisional share rounded to hundredths before the
      remainder is taken: the remainder is then exactly what the shares miss. */
  function CentAllocated(m: Money, ratios: Ratios, ctx: Dec.Context): Result<seq<Money>>
    requires Terminates(m, ratios)
  {
    if ratios.Unspecified? then Ok([m])
    else
      var rs := RatioList(ratios);
      if |rs| == 0 then Err(EmptyRatios)
      else if Total(rs) == 0 then Err(DivisionByZero)
      else
        var prov := CentShares(m, rs, Total(rs), ctx);
        RemainderCents(m, prov, ctx);
        Ok(Settled(prov, RemainderAfter(m, prov, ctx), ctx))
  }

  /** The corrected call, once past the checks, settles the remainder of its
      rounded shares. */
  lemma CentAllocatedSettles(m: Money, ratios: Ratios, ctx: Dec.Context)
    requires Dec.CentMultiple(m.val)
    requires !ratios.Unspecified? && |RatioList(ratios)| > 0 && Total(RatioList(ratios)) != 0
    ensures var prov := CentShares(m, RatioList(ratios), Total(RatioList(ratios)), ctx);
      Dec.CentMultiple(RemainderAfter(m, prov, ctx).val) &&
      CentAllocated(m, ratios, ctx) == Ok(Settled(prov, RemainderAfter(m, prov, ctx), ctx))
  {
    RemainderCents(m, CentShares(m, RatioList(ratios), Total(RatioList(ratios)), ctx), ctx);
  }

  /** The corrected allocation fails exactly where `allocate` does, and for an
      amount of whole hundredths its shares are whole hundredths whose exact
      values and displays both add up to the amount, in every rounding mode. */
  lemma CentAllocationExact(m: Money, ratios: Ratios, ctx: Dec.Context)
    requires Dec.CentMultiple(m.val)
    ensures var r := CentAllocated(m, ratios, ctx);
      && (r.Err? <==> Allocated(m, ratios, ctx).Err?)
      && (r.Err? ==> r == Allocated(m, ratios, ctx))
      && (r.Ok? ==>
            && |r.value| == |Allocated(m, ratios, ctx).value|
            && Dec.AllCents(Values(r.value))
            && (forall i :: 0 <= i < |r.value| ==> Dec.Eq(ValueOf(r.value[i], ctx), r.value[i].val))
            && Dec.Eq(Dec.Sum(Values(r.value)), m.val)
            && Dec.Eq(Dec.Sum(Displays(r.value, ctx)), m.val))
  {
    var r := CentAllocated(m, ratios, ctx);
    if r.Ok? {
      if ratios.Unspecified? {
        SingleShare(m);
      } else {
        CentSharesAddUp(m, ratios, ctx);
      }
      CentDisplays(m, r.value, ctx);
    }
  }

  lemma SingleShare(m: Money)
    requires Dec.CentMultiple(m.val)
    ensures Dec.AllCents(Values([m])) && Dec.Eq(Dec.Sum(Values([m])), m.val)
  {
    assert Values([m]) == [m.val];
    assert Dec.Sum([m.val]) == Dec.Add(Dec.Zero, m.val);
    Dec.CentsAdd(Dec.Zero, m.val);
    Dec.CentsEq(Dec.Add(Dec.Zero, m.val), m.val);
  }

  lemma CentSharesAddUp(m: Money, ratios: Ratios, ctx: Dec.Context)
    requires Dec.CentMultiple(m.val)
    requires !ratios.Unspecified? && |RatioList(ratios)| > 0 && Total(RatioList(ratios)) != 0
    ensures var r := CentAllocated(m, ratios, ctx).value;
      Dec.AllCents(Values(r)) && Dec.Eq(Dec.Sum(Values(r)), m.val)
  {
    var rs := RatioList(ratios);
    var prov := CentShares(m, rs, Total(rs), ctx);
    var rem := RemainderAfter(m, prov, ctx);
    RemainderCents(m, prov, ctx);
    assert Displays(prov, ctx) == Values(prov);
    SettledValues(prov, rem, ctx);
    var r := Settled(prov, rem, ctx);
    Dec.SumOfCents(Values(r));
    Dec.CentsEq(Dec.Sum(Values(r)), m.val);
  }

  /** Shares of whole hundredths adding up to the amount are displayed as
      themselves, and so do their displays. */
  lemma CentDisplays(m: Money, r: seq<Money>, ctx: Dec.Context)
    requires Dec.CentMultiple(m.val) && Dec.AllCents(Values(r)) && Dec.Eq(Dec.Sum(Values(r)), m.val)
    ensures forall i :: 0 <= i < |r| ==> Dec.Eq(ValueOf(r[i], ctx), r[i].val)
    ensures Dec.Eq(Dec.Sum(Displays(r, ctx)), m.val)
  {
    forall i | 0 <= i < |r| ensures Dec.Eq(ValueOf(r[i], ctx), r[i].val) {
      assert Values(r)[i] == r[i].val;
    }
    Dec.SumOfCents(Values(r));
    Dec.CentsEq(Dec.Sum(Values(r)), m.val);
    DisplaysOfCents(r, ctx);
    Dec.SumOfCents(Displays(r, ctx));
    Dec.CentsEq(Dec.Sum(Displays(r, ctx)), m.val);
  }

  /** Amounts of whole hundredths are displayed as themselves. */
  lemma DisplaysOfCents(ms: seq<Money>, ctx: Dec.Context)
    requires Dec.AllCents(Values(ms))
    ensures Dec.CentsTotal(Displays(ms, ctx)) == Dec.CentsTotal(Values(ms))
  {
    var zeros := seq(|ms|, _ => 0);
    forall i | 0 <= i < |ms|
      ensures Dec.Cents(Displays(ms, ctx)[i]) == Dec.Cents(Values(ms)[i]) + 1 * zeros[i]
    {
      assert Values(ms)[i] == ms[i].val;
      Dec.CentsEq(ValueOf(ms[i], ctx), ms[i].val);
    }
    CentsTotalShift(Values(ms), Displays(ms, ctx), 1, zeros);
    ZeroTotal(|ms|);
  }
}
