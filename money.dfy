/** The money value of bigmoney.js: an immutable decimal amount tagged with a
    currency code and an options bag, the wrappers around the decimal primitive
    that keep those tags, and the display text and template formatting. The
    library's global settings are passed explicitly. */
module BigMoney {

  import opened Outcomes
  import Dec = Decimals

  /** A currency code as the constructor leaves it: never empty, because every
      falsy candidate falls through to the base currency. */
  type Currency = s: string | |s| > 0 witness "USD"

  /** The per-instance options bag; the only entry the library reads is
      "currency". */
  type Options = map<string, string>

  datatype Money = Money(val: Dec.Decimal, currency: Currency, options: Options)

  /** `Money.settings`: the base (pivot) currency, the rate of every other
      currency against the base, and the default format template. */
  datatype Settings = Settings(base: Currency, rates: map<string, Dec.Decimal>, format: string)

  const DefaultSettings := Settings("USD", map[], "%decimal %currency")

  /** The argument forms of `Money(val, currency, options)` after the amount:
      nothing, a currency (where "" stands for any falsy value) with or without
      options, or a single options object in the currency position. */
  datatype Args =
    | ValueOnly
    | WithCurrency(code: string, bag: Option<Options>)
    | WithOptions(opts: Options)

  /** The options a construction keeps: the object given, else an empty bag. */
  function OptionsOf(args: Args): Options {
    match args
    case WithCurrency(_, Some(o)) => o
    case WithOptions(o) => o
    case _ => map[]
  }

  /** The currency argument once an options object in second position has been
      moved to the options; "" when nothing truthy was given. */
  function CodeOf(args: Args): string {
    if args.WithCurrency? then args.code else ""
  }

  /** `Money(val, currency, options)`. */
  function New(val: Dec.Decimal, args: Args, s: Settings): (m: Money)
    ensures m.val == val && m.options == OptionsOf(args)
    ensures CodeOf(args) != "" ==> m.currency == CodeOf(args)
    ensures CodeOf(args) == "" && "currency" in OptionsOf(args) && OptionsOf(args)["currency"] != "" ==>
      m.currency == OptionsOf(args)["currency"]
    ensures CodeOf(args) == "" && ("currency" !in OptionsOf(args) || OptionsOf(args)["currency"] == "") ==>
      m.currency == s.base
  {
    var opts := OptionsOf(args);
    var code := CodeOf(args);
    var currency: Currency :=
      if code != "" then code
      else if "currency" in opts && opts["currency"] != "" then opts["currency"]
      else s.base;
    Money(val, currency, opts)
  }

  /** The construction every wrapper performs, `Money(v, this.currency, this.options)`:
      whatever the settings, it yields `v` with the receiver's tags. */
  function Rewrap(m: Money, v: Dec.Decimal): (r: Money)
    ensures forall s :: New(v, WithCurrency(m.currency, Some(m.options)), s) == r
    ensures r.val == v && r.currency == m.currency && r.options == m.options
  {
    Money(v, m.currency, m.options)
  }

  /** An argument of a wrapped operation: a plain number, or another Money. */
  datatype Operand = Num(d: Dec.Decimal) | Of(m: Money)

  /** The number big.js reads from an argument: a Money object is converted
      through its `valueOf`, so it enters the arithmetic as its display value. */
  function ToBig(y: Operand, ctx: Dec.Context): Dec.Decimal {
    match y
    case Num(d) => d
    case Of(n) => ValueOf(n, ctx)
  }

  function Abs(m: Money): (r: Money)
    ensures r.currency == m.currency && r.options == m.options
    ensures r.val.exp == m.val.exp && r.val.coef >= 0
    ensures r.val.coef == m.val.coef || r.val.coef == -m.val.coef
  {
    Rewrap(m, Dec.Abs(m.val))
  }

  /** `cmp` returns the primitive's -1, 0 or 1, not a Money. */
  function Cmp(m: Money, y: Operand, ctx: Dec.Context): (r: int)
    ensures r in {-1, 0, 1}
  {
    Dec.Cmp(m.val, ToBig(y, ctx))
  }

  function Div(m: Money, y: Operand, ctx: Dec.Context): (r: Result<Money>)
    ensures r.Err? <==> ToBig(y, ctx).coef == 0
    ensures r.Ok? ==> r.value.currency == m.currency && r.value.options == m.options
  {
    match Dec.Div(m.val, ToBig(y, ctx), ctx.dp, ctx.rm)
    case Ok(v) => Ok(Rewrap(m, v))
    case Err(e) => Err(e)
  }

  predicate Eq(m: Money, y: Operand, ctx: Dec.Context) { Dec.Eq(m.val, ToBig(y, ctx)) }
  predicate Gt(m: Money, y: Operand, ctx: Dec.Context) { Dec.Gt(m.val, ToBig(y, ctx)) }
  predicate Gte(m: Money, y: Operand, ctx: Dec.Context) { Dec.Gte(m.val, ToBig(y, ctx)) }
  predicate Lt(m: Money, y: Operand, ctx: Dec.Context) { Dec.Lt(m.val, ToBig(y, ctx)) }
  predicate Lte(m: Money, y: Operand, ctx: Dec.Context) { Dec.Lte(m.val, ToBig(y, ctx)) }

  function Minus(m: Money, y: Operand, ctx: Dec.Context): (r: Money)
    ensures r.currency == m.currency && r.options == m.options
  {
    Rewrap(m, Dec.Sub(m.val, ToBig(y, ctx)))
  }

  function Mod(m: Money, y: Operand, ctx: Dec.Context): (r: Result<Money>)
    ensures r.Err? <==> ToBig(y, ctx).coef == 0
    ensures r.Ok? ==> r.value.currency == m.currency && r.value.options == m.options
  {
    match Dec.Mod(m.val, ToBig(y, ctx))
    case Ok(v) => Ok(Rewrap(m, v))
    case Err(e) => Err(e)
  }

  function Plus(m: Money, y: Operand, ctx: Dec.Context): (r: Money)
    ensures r.currency == m.currency && r.options == m.options
  {
    Rewrap(m, Dec.Add(m.val, ToBig(y, ctx)))
  }

  /** `pow` returns the primitive's number, not a Money. */
  function Pow(m: Money, n: int, ctx: Dec.Context): (r: Result<Dec.Decimal>)
    ensures n >= 0 ==> r.Ok?
    ensures n < 0 ==> (r.Err? <==> m.val.coef == 0)
  {
    Dec.Pow(m.val, n, ctx)
  }

  /** `round(dp, rm)`; a caller that omits them gets 0 places and the context's mode. */
  function Round(m: Money, dp: nat, rm: Dec.RoundingMode): (r: Money)
    ensures r.currency == m.currency && r.options == m.options
    ensures r.val.exp <= dp && (m.val.exp <= dp ==> r.val == m.val)
  {
    Rewrap(m, Dec.Round(m.val, dp, rm))
  }

  /** `sqrt`, over the primitive's square root given as `root`. */
  function Sqrt(m: Money, root: Dec.Decimal -> Result<Dec.Decimal>): (r: Result<Money>)
    ensures r.Err? <==> root(m.val).Err?
    ensures r.Ok? ==> r.value.currency == m.currency && r.value.options == m.options
  {
    match root(m.val)
    case Ok(v) => Ok(Rewrap(m, v))
    case Err(e) => Err(e)
  }

  function Times(m: Money, y: Operand, ctx: Dec.Context): (r: Money)
    ensures r.currency == m.currency && r.options == m.options
    ensures r.val.coef == 0 <==> m.val.coef == 0 || ToBig(y, ctx).coef == 0
  {
    Rewrap(m, Dec.Mul(m.val, ToBig(y, ctx)))
  }

  /** `plus` and `minus` are exact: at any scale that holds both operands, the
      result's coefficient is the sum or the difference of theirs, and the
      result keeps the receiver's currency and options. */
  lemma PlusMinusExact(m: Money, y: Operand, ctx: Dec.Context, k: nat)
    requires m.val.exp <= k && ToBig(y, ctx).exp <= k
    ensures var r := Plus(m, y, ctx);
      && r.currency == m.currency && r.options == m.options && r.val.exp <= k
      && Dec.Units(r.val, k) == Dec.Units(m.val, k) + Dec.Units(ToBig(y, ctx), k)
    ensures var r := Minus(m, y, ctx);
      && r.currency == m.currency && r.options == m.options && r.val.exp <= k
      && Dec.Units(r.val, k) == Dec.Units(m.val, k) - Dec.Units(ToBig(y, ctx), k)
  {
    Dec.UnitsAdd(m.val, ToBig(y, ctx), k);
    Dec.UnitsSub(m.val, ToBig(y, ctx), k);
  }

  /** Subtracting what was added gives the same amount back, in the same currency. */
  lemma PlusMinusInverse(m: Money, y: Operand, ctx: Dec.Context)
    ensures var r := Minus(Plus(m, y, ctx), y, ctx);
      Dec.Eq(r.val, m.val) && r.currency == m.currency && r.options == m.options
  {
    var x := ToBig(y, ctx);
    var s := Dec.Max(Dec.Max(m.val.exp, x.exp), 0);
    Dec.UnitsAdd(m.val, x, s);
    Dec.UnitsSub(Dec.Add(m.val, x), x, s);
    Dec.EqAtScale(Minus(Plus(m, y, ctx), y, ctx).val, m.val, s);
  }

  /** Multiplying by a nonzero number and dividing by it again gives the amount
      back when it has no more places than a division keeps. */
  lemma TimesDivInverse(m: Money, x: Dec.Decimal, ctx: Dec.Context)
    requires x.coef != 0 && m.val.exp <= ctx.dp
    ensures var r := Div(Times(m, Num(x), ctx), Num(x), ctx);
      r.Ok? && Dec.Eq(r.value.val, m.val) && r.value.currency == m.currency && r.value.options == m.options
  {
    Dec.DivMulExact(m.val, x, ctx.dp, ctx.rm);
  }

  /** `valueOf`: the amount rounded to two places with the context's mode; the
      stored amount is not touched. It is a whole number of cents, differs from
      the amount by less than a cent (at most half a cent in the half modes),
      and equals it exactly when the amount already is whole cents. */
  function ValueOf(m: Money, ctx: Dec.Context): (r: Dec.Decimal)
    ensures Dec.CentMultiple(r) && r.exp <= 2
    ensures Dec.CentMultiple(m.val) ==> Dec.Eq(r, m.val)
    ensures m.val.exp > 2 ==>
      && Dec.AbsInt(Dec.Units(r, m.val.exp) - m.val.coef) < Dec.Pow10(m.val.exp - 2)
      && (ctx.rm == Dec.HalfUp || ctx.rm == Dec.HalfEven ==>
            2 * Dec.AbsInt(Dec.Units(r, m.val.exp) - m.val.coef) <= Dec.Pow10(m.val.exp - 2))
  {
    Dec.RoundError(m.val, 2, ctx.rm);
    if m.val.exp <= 2 then
      EqRefl(m.val);
      Dec.Round(m.val, 2, ctx.rm)
    else
      Dec.Round(m.val, 2, ctx.rm)
  }

  /** The display value of a non-negative amount with more than two places,
      once its coefficient is split at the hundredths into `q` and `r`. */
  lemma ValueOfIs(m: Money, ctx: Dec.Context, q: int, r: int)
    requires m.val.exp > 2 && q >= 0 && 0 <= r < Dec.Pow10(m.val.exp - 2)
    requires m.val.coef == q * Dec.Pow10(m.val.exp - 2) + r
    ensures ValueOf(m, ctx) == Dec.Decimal(
      if Dec.RoundsAway(q, r, Dec.Pow10(m.val.exp - 2), ctx.rm) then q + 1 else q, 2)
  {
    Dec.RoundQuotientOf(m.val.coef, Dec.Pow10(m.val.exp - 2), q, r, ctx.rm);
  }

  /** The display value of a negated amount is the negated display value: every
      mode rounds the magnitude, so a tie rounds away from zero, or toward it, on
      both sides alike. */
  lemma ValueOfNeg(m: Money, ctx: Dec.Context)
    ensures ValueOf(Money(Dec.Neg(m.val), m.currency, m.options), ctx) == Dec.Neg(ValueOf(m, ctx))
  {
    Dec.RoundNeg(m.val, 2, ctx.rm);
  }

  lemma EqRefl(x: Dec.Decimal)
    ensures Dec.Eq(x, x)
  {
  }

  /** `toString`: the decimal text of the display value. */
  function ToString(m: Money, ctx: Dec.Context): (s: string)
    ensures |s| >= 1 && Dec.Unmarked(s)
  {
    Dec.RenderUnmarked(ValueOf(m, ctx));
    Dec.Render(ValueOf(m, ctx))
  }

  /** `format(template)`: the formatter applied to the display value's text,
      the currency and the template override. */
  function Format(m: Money, template: Option<string>, s: Settings, ctx: Dec.Context): string {
    Formatter(ToString(m, ctx), m.currency, template, s)
  }

  /** `Money.formatter`: the override template, or the settings' template when it
      is missing or empty, with the first "%decimal" and then the first
      "%currency" replaced. */
  function Formatter(decimal: string, currency: string, template: Option<string>, s: Settings): string {
    var t := if template.None? || template.value == "" then s.format else template.value;
    ReplaceFirst(ReplaceFirst(t, "%decimal", decimal), "%currency", currency)
  }

  /** `Money.isValidCurrency`: the rate table has a number for `c`. */
  predicate IsValidCurrency(c: string, s: Settings) {
    c in s.rates
  }

  predicate OccursAt(s: string, p: string, j: nat) {
    j + |p| <= |s| && s[j..j + |p|] == p
  }

  /** The position of the first occurrence of `p` in `s`, as `indexOf` finds it. */
  function FindFirst(s: string, p: string): (r: Option<nat>)
    ensures r.Some? ==> r.value + |p| <= |s|
    decreases |s|
  {
    if |p| > |s| then None
    else if s[..|p|] == p then Some(0)
    else
      match FindFirst(s[1..], p)
      case None => None
      case Some(i) => Some(i + 1)
  }

  /** `FindFirst` finds an occurrence, and none comes before it; when it finds
      nothing there is no occurrence at all. */
  lemma {:induction false} FindFirstIsFirst(s: string, p: string)
    ensures var r := FindFirst(s, p);
      && (r.Some? ==> OccursAt(s, p, r.value))
      && (r.Some? ==> forall j: nat :: j < r.value ==> !OccursAt(s, p, j))
      && (r.None? ==> forall j: nat :: !OccursAt(s, p, j))
    decreases |s|
  {
    if |p| > |s| {
      assert FindFirst(s, p) == None;
    } else if s[..|p|] == p {
      assert FindFirst(s, p) == Some(0);
      assert OccursAt(s, p, 0);
    } else {
      var rest := FindFirst(s[1..], p);
      FindFirstIsFirst(s[1..], p);
      assert !OccursAt(s, p, 0);
      forall j: nat | j > 0 ensures OccursAt(s, p, j) == OccursAt(s[1..], p, j - 1) {
        OccursShift(s, p, j - 1);
      }
      if rest.Some? {
        assert FindFirst(s, p) == Some(rest.value + 1);
      } else {
        assert FindFirst(s, p) == None;
      }
    }
  }

  lemma OccursShift(s: string, p: string, j: nat)
    requires |s| > 0
    ensures OccursAt(s, p, j + 1) == OccursAt(s[1..], p, j)
  {
    if j + 1 + |p| <= |s| {
      assert s[j + 1..j + 1 + |p|] == s[1..][j..j + |p|];
    }
  }

  /** `String.prototype.replace` with a string pattern: the first occurrence only. */
  function ReplaceFirst(s: string, p: string, rep: string): string {
    match FindFirst(s, p)
    case None => s
    case Some(i) => s[..i] + rep + s[i + |p|..]
  }

  /** When no occurrence of `p` starts inside `x`, the one right after `x` is
      the one replaced, whatever else `x` holds. */
  lemma ReplaceFirstAt(x: string, p: string, b: string, rep: string)
    requires forall j: nat :: j < |x| ==> !OccursAt(x + p + b, p, j)
    ensures ReplaceFirst(x + p + b, p, rep) == x + rep + b
  {
    var s := x + p + b;
    FindFirstIsFirst(s, p);
    assert OccursAt(s, p, |x|) by {
      assert s[|x|..|x| + |p|] == p;
    }
    assert FindFirst(s, p) == Some(|x|);
    assert s[..|x|] == x;
    assert s[|x| + |p|..] == b;
  }

  /** When nothing before an occurrence of `p` can start another one (no '%'
      before it, and `p` starts with '%'), that occurrence is the one replaced. */
  lemma ReplaceAfterPlainText(a: string, p: string, b: string, rep: string)
    requires |p| > 0 && p[0] == '%' && Dec.Unmarked(a)
    ensures ReplaceFirst(a + p + b, p, rep) == a + rep + b
  {
    var s := a + p + b;
    forall j: nat | j < |a|
      ensures !OccursAt(s, p, j)
    {
      if j + |p| <= |s| {
        assert s[j..j + |p|][0] == a[j];
      }
    }
    ReplaceFirstAt(a, p, b, rep);
  }

  /** A template with plain text before each placeholder is filled in place:
      the decimal text, then the currency, with everything after the first
      "%currency" (further placeholders included) left as it is. */
  lemma FormatterFillsTemplate(a: string, b: string, c: string, decimal: string, currency: string, s: Settings)
    requires Dec.Unmarked(a) && Dec.Unmarked(b) && Dec.Unmarked(decimal)
    ensures Formatter(decimal, currency, Some(a + "%decimal" + b + "%currency" + c), s)
         == a + decimal + b + currency + c
  {
    var t := a + "%decimal" + b + "%currency" + c;
    assert t == a + "%decimal" + (b + "%currency" + c);
    ReplaceAfterPlainText(a, "%decimal", b + "%currency" + c, decimal);
    var u := a + decimal + b;
    Dec.UnmarkedJoin(a, decimal);
    Dec.UnmarkedJoin(a + decimal, b);
    assert a + decimal + (b + "%currency" + c) == u + "%currency" + c;
    ReplaceAfterPlainText(u, "%currency", c, currency);
  }

  /** A template with the currency first, such as "%currency %decimal", is filled
      in place too: "%currency" cannot be mistaken for "%decimal", so the first
      "%decimal" is the one after it. */
  lemma FormatterCurrencyFirst(a: string, b: string, c: string, decimal: string, currency: string, s: Settings)
    requires Dec.Unmarked(a) && Dec.Unmarked(b)
    ensures Formatter(decimal, currency, Some(a + "%currency" + b + "%decimal" + c), s)
         == a + currency + b + decimal + c
  {
    var x := a + "%currency" + b;
    var t := x + "%decimal" + c;
    assert a + "%currency" + b + "%decimal" + c == t;
    assert t == x + ("%decimal" + c);
    forall j: nat | j < |x|
      ensures !OccursAt(t, "%decimal", j)
    {
      NoDecimalBefore(a, b, "%decimal" + c, j);
    }
    ReplaceFirstAt(x, "%decimal", c, decimal);
    assert x + decimal + c == a + "%currency" + (b + decimal + c);
    ReplaceAfterPlainText(a, "%currency", b + decimal + c, currency);
    assert a + currency + (b + decimal + c) == a + currency + b + decimal + c;
  }

  /** No "%decimal" starts in plain text, in "%currency" or in the plain text after it. */
  lemma NoDecimalBefore(a: string, b: string, rest: string, j: nat)
    requires Dec.Unmarked(a) && Dec.Unmarked(b) && j < |a| + 9 + |b|
    ensures !OccursAt(a + "%currency" + b + rest, "%decimal", j)
  {
    var s := a + "%currency" + b + rest;
    if j + 8 <= |s| {
      var w := s[j..j + 8];
      assert w[0] == s[j] && w[1] == s[j + 1];
      if j < |a| {
        assert s[j] == a[j];
      } else if j == |a| {
        assert s[j + 1] == 'c';
      } else if j < |a| + 9 {
        assert s[j] == "%currency"[j - |a|];
      } else {
        assert s[j] == b[j - |a| - 9];
      }
    }
  }

  /** The text of 134.85. */
  lemma RenderExample()
    ensures Dec.Render(Dec.Decimal(13485, 2)) == "134.85"
  {
    assert Dec.Strip(13485, -2) == (13485, -2);
    DigitsExample();
    Dec.RenderPoint(Dec.Decimal(13485, 2), 13485, -2, "134", "85");
  }

  lemma DigitsExample()
    ensures Dec.Digits(13485) == "134" + "85"
  {
    Dec.DigitsSnoc(1, 3, "1");
    Dec.DigitsSnoc(13, 4, "13");
    Dec.DigitsSnoc(134, 8, "134");
    Dec.DigitsSnoc(1348, 5, "1348");
  }

  /** Text without '%' holds no placeholder. */
  lemma NoPlaceholder(x: string, p: string)
    requires Dec.Unmarked(x) && |p| > 0 && p[0] == '%'
    ensures FindFirst(x, p) == None
  {
    FindFirstIsFirst(x, p);
    forall j: nat ensures !OccursAt(x, p, j) {
      if j + |p| <= |x| {
        assert x[j..j + |p|][0] == x[j];
      }
    }
  }

  /** The default template "%decimal %currency" gives the decimal text, a space
      and the currency. */
  lemma FormatterDefaultTemplate(decimal: string, currency: string, s: Settings)
    requires s.format == "%decimal %currency" && Dec.Unmarked(decimal)
    ensures Formatter(decimal, currency, None, s) == decimal + " " + currency
  {
    var u := decimal + " ";
    DefaultTemplateParts(decimal);
    ReplaceAfterPlainText("", "%decimal", " %currency", decimal);
    Dec.UnmarkedJoin(decimal, " ");
    ReplaceAfterPlainText(u, "%currency", "", currency);
    assert u + currency + "" == decimal + " " + currency;
  }

  lemma DefaultTemplateParts(decimal: string)
    ensures "%decimal %currency" == "" + "%decimal" + " %currency"
    ensures "" + decimal + " %currency" == decimal + " " + "%currency" + ""
  {
    assert " %currency" == " " + "%currency";
  }

  /** A template with plain text and then "%decimal" only, such as "$ %decimal",
      gives that text and then the decimal text: no "%currency" is left to fill. */
  lemma FormatterPrefixTemplate(a: string, decimal: string, currency: string, s: Settings)
    requires Dec.Unmarked(a) && Dec.Unmarked(decimal)
    ensures Formatter(decimal, currency, Some(a + "%decimal"), s) == a + decimal
  {
    assert a + "%decimal" == a + "%decimal" + "";
    ReplaceAfterPlainText(a, "%decimal", "", decimal);
    assert a + decimal + "" == a + decimal;
    Dec.UnmarkedJoin(a, decimal);
    NoPlaceholder(a + decimal, "%currency");
  }

  /** The template "$ %decimal" of examples.js:29 puts "$ " before the text. */
  lemma DollarTemplate(m: Money, s: Settings, ctx: Dec.Context)
    ensures Format(m, Some("$ %decimal"), s, ctx) == "$ " + ToString(m, ctx)
  {
    assert "$ %decimal" == "$ " + "%decimal";
    FormatterPrefixTemplate("$ ", ToString(m, ctx), m.currency, s);
  }

  /** The default template of `DefaultSettings` puts the currency after the text. */
  lemma DefaultTemplate(m: Money, ctx: Dec.Context)
    ensures Format(m, None, DefaultSettings, ctx) == ToString(m, ctx) + " " + m.currency
  {
    FormatterDefaultTemplate(ToString(m, ctx), m.currency, DefaultSettings);
  }
}
