/** Currency conversion of bigmoney.js (`Money.prototype.convert`): the rate
    table holds, for each currency, how many of its units one unit of the base
    currency buys; a conversion between two non-base currencies goes through
    the base in two hops. */
module Conversion {

  import opened Outcomes
  import Dec = Decimals
  import opened BigMoney

  /** The target of `convert(to)`: the base currency when `to` is missing or empty. */
  function Target(to: Option<string>, s: Settings): Currency {
    if to.None? || to.value == "" then s.base else to.value
  }

  /** How many hops are left: one for each side that is not the base currency. */
  function Hops(from: string, to: string, s: Settings): nat {
    (if from == s.base then 0 else 1) + (if to == s.base then 0 else 1)
  }

  /** An amount of `from` in base units: `val / rate`, or 0 when the rate is 0. */
  function ToBaseAmount(val: Dec.Decimal, rate: Dec.Decimal, ctx: Dec.Context): Dec.Decimal {
    if rate.coef == 0 then Dec.Zero else Dec.Div(val, rate, ctx.dp, ctx.rm).value
  }

  /** `m.convert(to)`. A result is tagged with the target currency and keeps the
      options; the only failure is a missing rate, and it names a currency that
      is not the base and has no rate. */
  function Convert(m: Money, to: Option<string>, s: Settings, ctx: Dec.Context): (r: Result<Money>)
    ensures r.Ok? ==> r.value.currency == Target(to, s) && r.value.options == m.options
    ensures r.Err? ==> r.error.UnknownRate? && r.error.currency != s.base && r.error.currency !in s.rates
    decreases Hops(m.currency, Target(to, s), s)
  {
    var target := Target(to, s);
    var from := m.currency;
    var tags := WithCurrency(target, Some(m.options));
    if from == target then Ok(New(m.val, tags, s))
    else if from == s.base then
      if target !in s.rates then Err(UnknownRate(target))
      else Ok(New(Dec.Mul(m.val, s.rates[target]), tags, s))
    else if target == s.base then
      if from !in s.rates then Err(UnknownRate(from))
      else Ok(New(ToBaseAmount(m.val, s.rates[from], ctx), tags, s))
    else
      var inBase := Convert(m, Some(s.base), s, ctx);
      if inBase.Err? then inBase else Convert(inBase.value, Some(target), s, ctx)
  }

  /** Converting to the currency a value already has gives the value back. */
  lemma ConvertIdentity(m: Money, s: Settings, ctx: Dec.Context)
    ensures Convert(m, Some(m.currency), s, ctx) == Ok(m)
  {
  }

  /** A conversion between two non-base currencies is, in one step, the division
      by the source rate (0 for a zero rate) followed by the multiplication by
      the target rate; the source rate is looked up first. */
  lemma ConvertTriangulates(m: Money, to: Option<string>, s: Settings, ctx: Dec.Context)
    requires m.currency != s.base && Target(to, s) != s.base && m.currency != Target(to, s)
    ensures Convert(m, to, s, ctx) ==
      if m.currency !in s.rates then Err(UnknownRate(m.currency))
      else if Target(to, s) !in s.rates then Err(UnknownRate(Target(to, s)))
      else Ok(Money(Dec.Mul(ToBaseAmount(m.val, s.rates[m.currency], ctx), s.rates[Target(to, s)]),
                    Target(to, s), m.options))
  {
    var inBase := Convert(m, Some(s.base), s, ctx);
    if m.currency in s.rates {
      assert inBase == Ok(Money(ToBaseAmount(m.val, s.rates[m.currency], ctx), s.base, m.options));
    }
  }

  /** Whenever the source and target differ, converting directly is the same as
      converting to the base first and then to the target. */
  lemma ConvertThroughBase(m: Money, to: Option<string>, s: Settings, ctx: Dec.Context)
    requires m.currency != Target(to, s)
    ensures Convert(m, to, s, ctx) ==
      var inBase := Convert(m, Some(s.base), s, ctx);
      if inBase.Err? then inBase else Convert(inBase.value, to, s, ctx)
  {
    if m.currency == s.base {
      assert Convert(m, Some(s.base), s, ctx) == Ok(m);
    } else if Target(to, s) == s.base {
      var inBase := Convert(m, Some(s.base), s, ctx);
      if inBase.Ok? {
        assert inBase.value.currency == s.base;
        assert Convert(inBase.value, to, s, ctx) == Ok(inBase.value);
      }
    } else {
      var inBase := Convert(m, Some(s.base), s, ctx);
      if inBase.Ok? {
        assert Target(Some(Target(to, s)), s) == Target(to, s);
        assert Convert(inBase.value, to, s, ctx) == Convert(inBase.value, Some(Target(to, s)), s, ctx);
      }
    }
  }

  /** A conversion fails exactly when the currencies differ and one of them other
      than the base has no rate, which is when that one is not a valid currency. */
  lemma ConvertFailsIffRateMissing(m: Money, to: Option<string>, s: Settings, ctx: Dec.Context)
    ensures Convert(m, to, s, ctx).Err? <==>
      m.currency != Target(to, s) &&
      ((m.currency != s.base && !IsValidCurrency(m.currency, s)) ||
       (Target(to, s) != s.base && !IsValidCurrency(Target(to, s), s)))
  {
    if m.currency != s.base && Target(to, s) != s.base && m.currency != Target(to, s) {
      ConvertTriangulates(m, to, s, ctx);
    }
  }

  /** From the base, a currency can be reached exactly when it is valid. */
  lemma ValidIffReachableFromBase(m: Money, c: Currency, s: Settings, ctx: Dec.Context)
    requires m.currency == s.base && c != s.base
    ensures Convert(m, Some(c), s, ctx).Ok? <==> IsValidCurrency(c, s)
  {
  }

  /** Out to a currency with a nonzero rate and back to the base gives the amount
      back exactly, when it has no more places than a division keeps. */
  lemma ConvertRoundTrip(m: Money, c: Currency, s: Settings, ctx: Dec.Context)
    requires m.currency == s.base && c != s.base && c in s.rates && s.rates[c].coef != 0
    requires m.val.exp <= ctx.dp
    ensures var out := Convert(m, Some(c), s, ctx);
      out.Ok? && out.value.currency == c &&
      var back := Convert(out.value, Some(s.base), s, ctx);
      back.Ok? && back.value.currency == s.base && back.value.options == m.options &&
      Dec.Eq(back.value.val, m.val)
  {
    Dec.DivMulExact(m.val, s.rates[c], ctx.dp, ctx.rm);
  }

  /** The settings of examples.js:4-13, with the float literal 1/1.3485 replaced
      by the shortest decimal that reads back as the same double. */
  const ExampleSettings := Settings("USD",
    map["USD" := Dec.Decimal(1, 0), "RUB" := Dec.Decimal(352448, 4),
        "EUR" := Dec.Decimal(7415647015202076, 16), "JPY" := Dec.Decimal(10202, 2)],
    "%decimal %currency")

  /** 100 EUR in dollars (examples.js:16-24): 134.85000000000000693129 at
      twenty places, displayed "134.85". */
  lemma EuroToDollarExample()
    ensures var r := Convert(Money(Dec.Decimal(100, 0), "EUR", map[]), Some("USD"), ExampleSettings, Dec.DefaultContext);
      r.Ok? && r.value == Money(Dec.Decimal(13485000000000000693129, 20), "USD", map[]) &&
      ToString(r.value, Dec.DefaultContext) == "134.85"
  {
    EuroInDollars();
    DollarText();
  }

  lemma EuroInDollars()
    ensures Convert(Money(Dec.Decimal(100, 0), "EUR", map[]), Some("USD"), ExampleSettings, Dec.DefaultContext)
      == Ok(Money(Dec.Decimal(13485000000000000693129, 20), "USD", map[]))
  {
    Dec.PowersOfTen();
    assert Dec.Div(Dec.Decimal(100, 0), Dec.Decimal(7415647015202076, 16), 20, Dec.HalfUp).value
      == Dec.Decimal(13485000000000000693129, 20) by {
      Dec.RoundQuotientOf(100000000000000000000000000000000000000, 7415647015202076,
                          13485000000000000693129, 264196, Dec.HalfUp);
    }
  }

  lemma DollarText()
    ensures ToString(Money(Dec.Decimal(13485000000000000693129, 20), "USD", map[]), Dec.DefaultContext) == "134.85"
  {
    Dec.PowersOfTen();
    ValueOfIs(Money(Dec.Decimal(13485000000000000693129, 20), "USD", map[]), Dec.DefaultContext, 13485, 693129);
    RenderExample();
  }

  /** examples.js:29-30: the dollars of `EuroToDollarExample` formatted with the
      default template read "134.85 USD", and with "$ %decimal" "$ 134.85". */
  lemma FormatExamples()
    ensures var usd := Usd;
      && Format(usd, None, ExampleSettings, Dec.DefaultContext) == "134.85 USD"
      && Format(usd, Some("$ %decimal"), ExampleSettings, Dec.DefaultContext) == "$ 134.85"
  {
    var usd := Money(Dec.Decimal(13485000000000000693129, 20), "USD", map[]);
    DollarText();
    FormatterDefaultTemplate(ToString(usd, Dec.DefaultContext), "USD", ExampleSettings);
    DollarTemplate(usd, ExampleSettings, Dec.DefaultContext);
    FormattedTexts();
  }

  lemma FormattedTexts()
    ensures "134.85" + " " + "USD" == "134.85 USD" && "$ " + "134.85" == "$ 134.85"
  {
  }

  /** The dollars of `EuroToDollarExample`. */
  const Usd := Money(Dec.Decimal(13485000000000000693129, 20), "USD", map[])

  /** examples.js:50-54: on those dollars, `plus(100)`, `minus(100)`, `times(2)`,
      `div(2)` and `mod(1)` have the values 234.85, 34.85, 269.7, 67.43 and 0.85. */
  lemma ArithmeticExamples()
    ensures ValueOf(Plus(Usd, Num(Dec.FromInt(100)), Dec.DefaultContext), Dec.DefaultContext) == Dec.Decimal(23485, 2)
    ensures ValueOf(Minus(Usd, Num(Dec.FromInt(100)), Dec.DefaultContext), Dec.DefaultContext) == Dec.Decimal(3485, 2)
    ensures ValueOf(Times(Usd, Num(Dec.FromInt(2)), Dec.DefaultContext), Dec.DefaultContext) == Dec.Decimal(26970, 2)
    ensures var r := Div(Usd, Num(Dec.FromInt(2)), Dec.DefaultContext);
      r.Ok? && ValueOf(r.value, Dec.DefaultContext) == Dec.Decimal(6743, 2)
    ensures var r := Mod(Usd, Num(Dec.FromInt(1)), Dec.DefaultContext);
      r.Ok? && ValueOf(r.value, Dec.DefaultContext) == Dec.Decimal(85, 2)
  {
    PlusExample();
    MinusExample();
    TimesExample();
    DivExample();
    ModExample();
  }

  lemma PlusExample()
    ensures ValueOf(Plus(Usd, Num(Dec.FromInt(100)), Dec.DefaultContext), Dec.DefaultContext) == Dec.Decimal(23485, 2)
  {
    Dec.PowersOfTen();
    var r := Plus(Usd, Num(Dec.FromInt(100)), Dec.DefaultContext);
    assert r == Money(Dec.Decimal(23485000000000000693129, 20), "USD", map[]);
    ValueOfIs(r, Dec.DefaultContext, 23485, 693129);
  }

  lemma MinusExample()
    ensures ValueOf(Minus(Usd, Num(Dec.FromInt(100)), Dec.DefaultContext), Dec.DefaultContext) == Dec.Decimal(3485, 2)
  {
    Dec.PowersOfTen();
    var r := Minus(Usd, Num(Dec.FromInt(100)), Dec.DefaultContext);
    assert r == Money(Dec.Decimal(3485000000000000693129, 20), "USD", map[]);
    ValueOfIs(r, Dec.DefaultContext, 3485, 693129);
  }

  lemma TimesExample()
    ensures ValueOf(Times(Usd, Num(Dec.FromInt(2)), Dec.DefaultContext), Dec.DefaultContext) == Dec.Decimal(26970, 2)
  {
    Dec.PowersOfTen();
    var r := Times(Usd, Num(Dec.FromInt(2)), Dec.DefaultContext);
    assert r == Money(Dec.Decimal(26970000000000001386258, 20), "USD", map[]);
    ValueOfIs(r, Dec.DefaultContext, 26970, 1386258);
  }

  lemma DivExample()
    ensures var r := Div(Usd, Num(Dec.FromInt(2)), Dec.DefaultContext);
      r.Ok? && ValueOf(r.value, Dec.DefaultContext) == Dec.Decimal(6743, 2)
  {
    Dec.PowersOfTen();
    assert Dec.Pow10(0) == 1;
    Dec.RoundQuotientOf(1348500000000000069312900000000000000000000, 200000000000000000000,
                        6742500000000000346564, 100000000000000000000, Dec.HalfUp);
    var r := Div(Usd, Num(Dec.FromInt(2)), Dec.DefaultContext);
    assert r == Ok(Money(Dec.Decimal(6742500000000000346565, 20), "USD", map[]));
    ValueOfIs(r.value, Dec.DefaultContext, 6742, 500000000000346565);
  }

  lemma ModValue()
    ensures Dec.Mod(Usd.val, Dec.FromInt(1)) == Ok(Dec.Decimal(85000000000000693129, 20))
  {
    var x, y := Dec.Units(Usd.val, 20), Dec.Units(Dec.FromInt(1), 20);
    assert Dec.Pow10(0) == 1;
    assert Dec.Pow10(20) == 100000000000000000000 by { Dec.PowersOfTen(); }
    assert x == 13485000000000000693129 && y == 100000000000000000000;
    Dec.DivModUnique(x, y, 134, 85000000000000693129);
    assert Dec.AbsInt(x) % Dec.AbsInt(y) == 85000000000000693129;
  }

  lemma ModExample()
    ensures var r := Mod(Usd, Num(Dec.FromInt(1)), Dec.DefaultContext);
      r.Ok? && ValueOf(r.value, Dec.DefaultContext) == Dec.Decimal(85, 2)
  {
    ModValue();
    Dec.PowersOfTen();
    var r := Mod(Usd, Num(Dec.FromInt(1)), Dec.DefaultContext);
    assert r == Ok(Money(Dec.Decimal(85000000000000693129, 20), "USD", map[]));
    ValueOfIs(r.value, Dec.DefaultContext, 85, 693129);
  }

  /** Out of the dollars of `EuroToDollarExample` into another currency: one
      multiplication by that rate. */
  lemma EuroThroughDollar(c: Currency)
    requires c != "USD" && c != "EUR" && c in ExampleSettings.rates
    ensures Convert(Money(Dec.Decimal(100, 0), "EUR", map[]), Some(c), ExampleSettings, Dec.DefaultContext)
      == Ok(Money(Dec.Mul(Dec.Decimal(13485000000000000693129, 20), ExampleSettings.rates[c]), c, map[]))
  {
    EuroToDollarExample();
    ConvertTriangulates(Money(Dec.Decimal(100, 0), "EUR", map[]), Some(c), ExampleSettings, Dec.DefaultContext);
  }

  /** 100 EUR in yen (examples.js:44): displayed "13757.4". */
  lemma EuroToYenExample()
    ensures var r := Convert(Money(Dec.Decimal(100, 0), "EUR", map[]), Some("JPY"), ExampleSettings, Dec.DefaultContext);
      r.Ok? && r.value.currency == "JPY" && ToString(r.value, Dec.DefaultContext) == "13757.4"
  {
    EuroThroughDollar("JPY");
    assert Dec.Mul(Dec.Decimal(13485000000000000693129, 20), Dec.Decimal(10202, 2))
      == Dec.Decimal(137573970000000007071302058, 22);
    YenString();
  }

  lemma YenString()
    ensures ToString(Money(Dec.Decimal(137573970000000007071302058, 22), "JPY", map[]), Dec.DefaultContext) == "13757.4"
  {
    Dec.PowersOfTen();
    ValueOfIs(Money(Dec.Decimal(137573970000000007071302058, 22), "JPY", map[]), Dec.DefaultContext,
              1375739, 70000000007071302058);
    YenText();
  }

  /** 100 EUR in roubles (examples.js:45): displayed "4752.76". */
  lemma EuroToRoubleExample()
    ensures var r := Convert(Money(Dec.Decimal(100, 0), "EUR", map[]), Some("RUB"), ExampleSettings, Dec.DefaultContext);
      r.Ok? && r.value.currency == "RUB" && ToString(r.value, Dec.DefaultContext) == "4752.76"
  {
    EuroThroughDollar("RUB");
    assert Dec.Mul(Dec.Decimal(13485000000000000693129, 20), Dec.Decimal(352448, 4))
      == Dec.Decimal(4752761280000000244291929792, 24);
    RoubleString();
  }

  lemma RoubleString()
    ensures ToString(Money(Dec.Decimal(4752761280000000244291929792, 24), "RUB", map[]), Dec.DefaultContext) == "4752.76"
  {
    Dec.PowersOfTen();
    ValueOfIs(Money(Dec.Decimal(4752761280000000244291929792, 24), "RUB", map[]), Dec.DefaultContext,
              475276, 1280000000244291929792);
    RoubleText();
  }

  lemma YenText()
    ensures Dec.Render(Dec.Decimal(1375740, 2)) == "13757.4"
  {
    assert Dec.Strip(1375740, -2) == (137574, -1);
    Dec.DigitsSnoc(1, 3, "1");
    Dec.DigitsSnoc(13, 7, "13");
    Dec.DigitsSnoc(137, 5, "137");
    Dec.DigitsSnoc(1375, 7, "1375");
    Dec.DigitsSnoc(13757, 4, "13757");
    Dec.RenderPoint(Dec.Decimal(1375740, 2), 137574, -1, "13757", "4");
  }

  lemma RoubleText()
    ensures Dec.Render(Dec.Decimal(475276, 2)) == "4752.76"
  {
    assert Dec.Strip(475276, -2) == (475276, -2);
    Dec.DigitsSnoc(4, 7, "4");
    Dec.DigitsSnoc(47, 5, "47");
    Dec.DigitsSnoc(475, 2, "475");
    Dec.DigitsSnoc(4752, 7, "4752");
    Dec.DigitsSnoc(47527, 6, "47527");
    assert "47527" + "6" == "4752" + "76";
    Dec.RenderPoint(Dec.Decimal(475276, 2), 475276, -2, "4752", "76");
  }
}
