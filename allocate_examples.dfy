/** Worked cases of `allocate`: the calls of examples.js:57-70, and the two
    inputs on which the displayed shares do not add up to the amount. */
module AllocationExamples {

  import opened Outcomes
  import Dec = Decimals
  import opened BigMoney
  import opened Allocation

  function Usd(coef: int, exp: nat): Money {
    Money(Dec.Decimal(coef, exp), "USD", map[])
  }

  lemma SumOfTwoCents(a: int, b: int)
    ensures Dec.Sum([Dec.Cent(a), Dec.Cent(b)]) == Dec.Cent(a + b)
  {
    var x, y := Dec.Cent(a), Dec.Cent(b);
    assert [x, y][..1] == [x];
    assert [x][..0] == [];
    assert Dec.Sum([x, y]) == Dec.Add(Dec.Sum([x]), y);
    assert Dec.Sum([x]) == Dec.Add(Dec.Zero, x);
    assert Dec.Units(Dec.Zero, 2) == 0;
    assert Dec.Add(Dec.Zero, x) == x;
  }

  lemma NotEqCents(a: int, b: int)
    requires a != b
    ensures !Dec.Eq(Dec.Cent(a), Dec.Cent(b))
  {
  }

  /** Split in two, both provisional shares are the one half share. */
  lemma HalvesProvisional(m: Money, ctx: Dec.Context)
    ensures Total(RatioList(Count(2))) == 2
    ensures Provisional(m, Count(2), ctx) == [Share(m, 1, 2, ctx), Share(m, 1, 2, ctx)]
  {
    assert RatioList(Count(2)) == [1, 1];
    assert [1, 1][..1] == [1] && [1][..0] == [];
    assert Total([1, 1]) == 2;
  }

  // ---- Money(0.01).allocate(2) ----

  lemma HalfCentShare()
    ensures Share(Usd(1, 2), 1, 2, Dec.DefaultContext) == Usd(500000000000000000, 20)
  {
    Dec.PowersOfTen();
    ShareIs(Usd(1, 2), 1, 2, Dec.DefaultContext, 500000000000000000, 0);
  }

  lemma HalfCentDisplays()
    ensures ValueOf(Usd(500000000000000000, 20), Dec.DefaultContext) == Dec.Cent(1)
    ensures ValueOf(Usd(-500000000000000000, 20), Dec.DefaultContext) == Dec.Cent(-1)
  {
    Dec.PowersOfTen();
    ValueOfIs(Usd(500000000000000000, 20), Dec.DefaultContext, 0, 500000000000000000);
    ValueOfNeg(Usd(500000000000000000, 20), Dec.DefaultContext);
  }

  lemma HalfCentRemainder()
    ensures RemainderAfter(Usd(1, 2), [Usd(500000000000000000, 20), Usd(500000000000000000, 20)], Dec.DefaultContext)
      == Usd(-1, 2)
  {
    var half := Usd(500000000000000000, 20);
    HalfCentDisplays();
    assert [half, half][..1] == [half];
    assert [half][..0] == [];
    assert RemainderAfter(Usd(1, 2), [half], Dec.DefaultContext) == Usd(0, 2);
  }

  lemma HalfCentSettled()
    ensures Settled([Usd(500000000000000000, 20), Usd(500000000000000000, 20)], Usd(-1, 2), Dec.DefaultContext)
      == [Usd(-500000000000000000, 20), Usd(500000000000000000, 20)]
  {
    Dec.PowersOfTen();
    assert Corrections(2, 1, 0) == 1 && Corrections(2, 1, 1) == 0;
  }

  lemma SplitCentValues()
    ensures Allocated(Usd(1, 2), Count(2), Dec.DefaultContext)
      == Ok([Usd(-500000000000000000, 20), Usd(500000000000000000, 20)])
  {
    var ctx := Dec.DefaultContext;
    HalfCentShare();
    HalvesProvisional(Usd(1, 2), ctx);
    AllocatedSettles(Usd(1, 2), Count(2), ctx);
    HalfCentRemainder();
    HalfCentSettled();
  }

  lemma HalfCentStrings()
    ensures ToString(Usd(-500000000000000000, 20), Dec.DefaultContext) == "-0.01"
    ensures ToString(Usd(500000000000000000, 20), Dec.DefaultContext) == "0.01"
  {
    HalfCentDisplays();
    CentTexts();
  }

  lemma CentTexts()
    ensures Dec.Render(Dec.Cent(1)) == "0.01" && Dec.Render(Dec.Cent(-1)) == "-0.01"
  {
    assert Dec.Strip(1, -2) == (1, -2);
    assert Dec.Zeros(1) == "0";
  }

  /** One hundredth in two: the correction takes the first half-cent share below
      zero, so the shares are -0.005 and 0.005, displayed "-0.01" and "0.01",
      and the displays add up to zero. */
  lemma SplitCentAsWritten()
    ensures var r := Allocated(Usd(1, 2), Count(2), Dec.DefaultContext);
      && r.Ok? && r.value == [Usd(-500000000000000000, 20), Usd(500000000000000000, 20)]
      && ToString(r.value[0], Dec.DefaultContext) == "-0.01"
      && ToString(r.value[1], Dec.DefaultContext) == "0.01"
      && !Dec.Eq(Dec.Sum(Displays(r.value, Dec.DefaultContext)), Dec.Decimal(1, 2))
  {
    var ctx := Dec.DefaultContext;
    SplitCentValues();
    HalfCentStrings();
    HalfCentDisplaySum();
  }

  lemma HalfCentDisplaySum()
    ensures var ds := Displays([Usd(-500000000000000000, 20), Usd(500000000000000000, 20)], Dec.DefaultContext);
      ds == [Dec.Cent(-1), Dec.Cent(1)] && !Dec.Eq(Dec.Sum(ds), Dec.Decimal(1, 2))
  {
    HalfCentDisplays();
    SumOfTwoCents(-1, 1);
    NotEqCents(0, 1);
  }

  /** The corrected allocation of the same call: 0.00 and 0.01. */
  lemma SplitCentCorrected()
    ensures CentAllocated(Usd(1, 2), Count(2), Dec.DefaultContext) == Ok([Usd(0, 2), Usd(1, 2)])
  {
    var ctx := Dec.DefaultContext;
    HalfCentShare();
    HalfCentDisplays();
    assert RatioList(Count(2)) == [1, 1];
    assert [1, 1][..1] == [1] && [1][..0] == [];
    assert Total([1, 1]) == 2;
    var prov := CentShares(Usd(1, 2), [1, 1], 2, ctx);
    assert prov == [Usd(1, 2), Usd(1, 2)];
    CentAllocatedSettles(Usd(1, 2), Count(2), ctx);
    CentRemainder();
    CentSettled();
  }

  lemma CentSettled()
    ensures Settled([Usd(1, 2), Usd(1, 2)], Usd(-1, 2), Dec.DefaultContext) == [Usd(0, 2), Usd(1, 2)]
  {
    assert Corrections(2, 1, 0) == 1 && Corrections(2, 1, 1) == 0;
  }

  lemma CentRemainder()
    ensures RemainderAfter(Usd(1, 2), [Usd(1, 2), Usd(1, 2)], Dec.DefaultContext) == Usd(-1, 2)
  {
    assert [Usd(1, 2), Usd(1, 2)][..1] == [Usd(1, 2)];
    assert [Usd(1, 2)][..0] == [];
    assert RemainderAfter(Usd(1, 2), [Usd(1, 2)], Dec.DefaultContext) == Usd(0, 2);
  }

  // ---- Money(0.03).allocate(2) with ties rounded to even ----

  const EvenContext := Dec.Context(20, Dec.HalfEven)

  lemma ThreeCentShare()
    ensures Share(Usd(3, 2), 1, 2, EvenContext) == Usd(1500000000000000000, 20)
  {
    Dec.PowersOfTen();
    ShareIs(Usd(3, 2), 1, 2, EvenContext, 1500000000000000000, 0);
  }

  lemma ThreeCentDisplays()
    ensures ValueOf(Usd(1500000000000000000, 20), EvenContext) == Dec.Cent(2)
    ensures ValueOf(Usd(500000000000000000, 20), EvenContext) == Dec.Cent(0)
  {
    Dec.PowersOfTen();
    ValueOfIs(Usd(1500000000000000000, 20), EvenContext, 1, 500000000000000000);
    ValueOfIs(Usd(500000000000000000, 20), EvenContext, 0, 500000000000000000);
  }

  lemma ThreeCentRemainder()
    ensures RemainderAfter(Usd(3, 2), [Usd(1500000000000000000, 20), Usd(1500000000000000000, 20)], EvenContext)
      == Usd(-1, 2)
  {
    var x := Usd(1500000000000000000, 20);
    ThreeCentDisplays();
    assert [x, x][..1] == [x];
    assert [x][..0] == [];
    assert RemainderAfter(Usd(3, 2), [x], EvenContext) == Usd(1, 2);
  }

  lemma ThreeCentSettled()
    ensures Settled([Usd(1500000000000000000, 20), Usd(1500000000000000000, 20)], Usd(-1, 2), EvenContext)
      == [Usd(500000000000000000, 20), Usd(1500000000000000000, 20)]
  {
    Dec.PowersOfTen();
    assert Corrections(2, 1, 0) == 1 && Corrections(2, 1, 1) == 0;
  }

  lemma ThreeCentValues()
    ensures Allocated(Usd(3, 2), Count(2), EvenContext)
      == Ok([Usd(500000000000000000, 20), Usd(1500000000000000000, 20)])
  {
    ThreeCentShare();
    HalvesProvisional(Usd(3, 2), EvenContext);
    AllocatedSettles(Usd(3, 2), Count(2), EvenContext);
    ThreeCentRemainder();
    ThreeCentSettled();
  }

  lemma ThreeCentSides()
    ensures KeepsSides([Usd(1500000000000000000, 20), Usd(1500000000000000000, 20)],
                       [Usd(500000000000000000, 20), Usd(1500000000000000000, 20)])
  {
  }

  lemma ThreeCentDisplaySum()
    ensures var ds := Displays([Usd(500000000000000000, 20), Usd(1500000000000000000, 20)], EvenContext);
      ds == [Dec.Cent(0), Dec.Cent(2)] && !Dec.Eq(Dec.Sum(ds), Dec.Decimal(3, 2))
  {
    ThreeCentDisplays();
    SumOfTwoCents(0, 2);
    NotEqCents(2, 3);
  }

  /** Three hundredths in two with ties to even: no share crosses zero, yet the
      shares 0.005 and 0.015 are displayed 0.00 and 0.02, a hundredth short. */
  lemma HalfEvenLosesCent()
    ensures var r := Allocated(Usd(3, 2), Count(2), EvenContext);
      && r.Ok? && KeepsSides(Provisional(Usd(3, 2), Count(2), EvenContext), r.value)
      && Displays(r.value, EvenContext) == [Dec.Cent(0), Dec.Cent(2)]
      && !Dec.Eq(Dec.Sum(Displays(r.value, EvenContext)), Dec.Decimal(3, 2))
  {
    ThreeCentValues();
    ThreeCentShare();
    HalvesProvisional(Usd(3, 2), EvenContext);
    ThreeCentSides();
    ThreeCentDisplaySum();
  }

  // ---- Money(100).allocate(3) (examples.js:57-60) ----

  const Third := Usd(3333333333333333333333, 20)

  lemma ThirdShare()
    ensures Share(Usd(100, 0), 1, 3, Dec.DefaultContext) == Third
  {
    Dec.PowersOfTen();
    ShareIs(Usd(100, 0), 1, 3, Dec.DefaultContext, 3333333333333333333333, 1);
  }

  lemma ThirdDisplays()
    ensures ValueOf(Third, Dec.DefaultContext) == Dec.Cent(3333)
    ensures ValueOf(Usd(3334333333333333333333, 20), Dec.DefaultContext) == Dec.Cent(3334)
  {
    Dec.PowersOfTen();
    ValueOfIs(Third, Dec.DefaultContext, 3333, 333333333333333333);
    ValueOfIs(Usd(3334333333333333333333, 20), Dec.DefaultContext, 3334, 333333333333333333);
  }

  lemma ThirdRemainder()
    ensures RemainderAfter(Usd(100, 0), [Third, Third, Third], Dec.DefaultContext) == Usd(1, 2)
  {
    var ctx := Dec.DefaultContext;
    ThirdDisplays();
    assert [Third, Third, Third][..2] == [Third, Third];
    assert [Third, Third][..1] == [Third];
    assert [Third][..0] == [];
    assert RemainderAfter(Usd(100, 0), [Third], ctx) == Usd(6667, 2);
    assert RemainderAfter(Usd(100, 0), [Third, Third], ctx) == Usd(3334, 2);
  }

  lemma ThirdSettled()
    ensures Settled([Third, Third, Third], Usd(1, 2), Dec.DefaultContext)
      == [Usd(3334333333333333333333, 20), Third, Third]
  {
    Dec.PowersOfTen();
    assert Corrections(3, 1, 0) == 1 && Corrections(3, 1, 1) == 0 && Corrections(3, 1, 2) == 0;
  }

  lemma ThirdsValues()
    ensures Allocated(Usd(100, 0), Count(3), Dec.DefaultContext)
      == Ok([Usd(3334333333333333333333, 20), Third, Third])
  {
    var ctx := Dec.DefaultContext;
    ThirdShare();
    assert RatioList(Count(3)) == [1, 1, 1];
    assert [1, 1, 1][..2] == [1, 1] && [1, 1][..1] == [1] && [1][..0] == [];
    assert Total([1, 1, 1]) == 3;
    assert Provisional(Usd(100, 0), Count(3), ctx) == [Third, Third, Third];
    AllocatedSettles(Usd(100, 0), Count(3), ctx);
    ThirdRemainder();
    ThirdSettled();
  }

  lemma ThirdTexts()
    ensures Dec.Render(Dec.Cent(3334)) == "33.34" && Dec.Render(Dec.Cent(3333)) == "33.33"
  {
    Dec.DigitsSnoc(3, 3, "3");
    Dec.DigitsSnoc(33, 3, "33");
    Dec.DigitsSnoc(333, 4, "333");
    Dec.DigitsSnoc(333, 3, "333");
    assert "333" + "4" == "33" + "34" && "333" + "3" == "33" + "33";
    Dec.RenderPoint(Dec.Cent(3334), 3334, -2, "33", "34");
    Dec.RenderPoint(Dec.Cent(3333), 3333, -2, "33", "33");
  }

  /** 100 in three: the first share gets the left-over hundredth. The shares
      read "33.34", "33.33", "33.33" and hold 33.3433..., 33.3333..., 33.3333...,
      so their exact sum is 100.00999999999999999999, not 100, and reads "100.01". The same three
      shares come from the ratios [1, 1, 1] (examples.js:62-65). */
  lemma AllocateThirds()
    ensures var r := Allocated(Usd(100, 0), Count(3), Dec.DefaultContext);
      && r.Ok? && |r.value| == 3
      && ToString(r.value[0], Dec.DefaultContext) == "33.34"
      && ToString(r.value[1], Dec.DefaultContext) == "33.33"
      && ToString(r.value[2], Dec.DefaultContext) == "33.33"
      && Dec.Sum(Values(r.value)) == Dec.Decimal(10000999999999999999999, 20)
      && !Dec.Eq(Dec.Sum(Values(r.value)), Dec.Decimal(100, 0))
      && ToString(Money(Dec.Sum(Values(r.value)), "USD", map[]), Dec.DefaultContext) == "100.01"
      && Allocated(Usd(100, 0), List([1, 1, 1]), Dec.DefaultContext) == r
  {
    ThirdsValues();
    ThirdStrings();
    ThirdsExactSum();
    ThirdsSumText();
    ThirdsFromRatios();
  }

  lemma ThirdStrings()
    ensures ToString(Usd(3334333333333333333333, 20), Dec.DefaultContext) == "33.34"
    ensures ToString(Third, Dec.DefaultContext) == "33.33"
  {
    ThirdDisplays();
    ThirdTexts();
  }

  lemma ThirdsFromRatios()
    ensures Allocated(Usd(100, 0), List([1, 1, 1]), Dec.DefaultContext)
      == Allocated(Usd(100, 0), Count(3), Dec.DefaultContext)
  {
    assert RatioList(Count(3)) == RatioList(List([1, 1, 1]));
  }

  lemma ThirdsExactSum()
    ensures Dec.Sum(Values([Usd(3334333333333333333333, 20), Third, Third])) == Dec.Decimal(10000999999999999999999, 20)
    ensures !Dec.Eq(Dec.Decimal(10000999999999999999999, 20), Dec.Decimal(100, 0))
  {
    Dec.PowersOfTen();
    var a, b := Dec.Decimal(3334333333333333333333, 20), Third.val;
    assert Values([Usd(3334333333333333333333, 20), Third, Third]) == [a, b, b];
    SumOfThree(a, b, b);
    assert Dec.Add(a, b) == Dec.Decimal(6667666666666666666666, 20);
  }

  /** The exact sum of the thirds reads "100.01". */
  lemma ThirdsSumText()
    ensures ToString(Usd(10000999999999999999999, 20), Dec.DefaultContext) == "100.01"
  {
    ThirdsSumDisplay();
    HundredCentText();
  }

  lemma ThirdsSumDisplay()
    ensures ValueOf(Usd(10000999999999999999999, 20), Dec.DefaultContext) == Dec.Cent(10001)
  {
    Dec.PowersOfTen();
    ValueOfIs(Usd(10000999999999999999999, 20), Dec.DefaultContext, 10000, 999999999999999999);
  }

  lemma HundredCentText()
    ensures Dec.Render(Dec.Cent(10001)) == "100.01"
  {
    Dec.DigitsSnoc(1, 0, "1");
    Dec.DigitsSnoc(10, 0, "10");
    Dec.DigitsSnoc(100, 0, "100");
    Dec.DigitsSnoc(1000, 1, "1000");
    assert "1000" + "1" == "100" + "01";
    assert Dec.Strip(10001, -2) == (10001, -2);
    Dec.RenderPoint(Dec.Cent(10001), 10001, -2, "100", "01");
  }

  lemma SumOfThree(a: Dec.Decimal, b: Dec.Decimal, c: Dec.Decimal)
    ensures Dec.Sum([a, b, c]) == Dec.Add(Dec.Add(a, b), c)
  {
    assert [a, b, c][..2] == [a, b];
    assert [a, b][..1] == [a];
    assert [a][..0] == [];
    assert Dec.Units(Dec.Zero, a.exp) == 0;
    assert Dec.Units(a, a.exp) == a.coef;
    assert Dec.Add(Dec.Zero, a) == a;
    assert Dec.Sum([a]) == a;
    assert Dec.Sum([a, b]) == Dec.Add(a, b);
  }

  /** The corrected allocation of 100 in three: 33.34, 33.33 and 33.33 exactly. */
  lemma ThirdsCorrected()
    ensures CentAllocated(Usd(100, 0), Count(3), Dec.DefaultContext)
      == Ok([Usd(3334, 2), Usd(3333, 2), Usd(3333, 2)])
  {
    var ctx := Dec.DefaultContext;
    ThirdCentShares();
    CentAllocatedSettles(Usd(100, 0), Count(3), ctx);
    ThirdCentRemainder();
    ThirdCentSettled();
  }

  lemma ThirdCentShares()
    ensures RatioList(Count(3)) == [1, 1, 1] && Total([1, 1, 1]) == 3
    ensures CentShares(Usd(100, 0), [1, 1, 1], 3, Dec.DefaultContext) == [Usd(3333, 2), Usd(3333, 2), Usd(3333, 2)]
  {
    ThirdShare();
    ThirdRounded();
    assert [1, 1, 1][..2] == [1, 1] && [1, 1][..1] == [1] && [1][..0] == [];
  }

  lemma ThirdRounded()
    ensures Round(Third, 2, Dec.HalfUp) == Usd(3333, 2)
  {
    Dec.PowersOfTen();
    Dec.RoundQuotientOf(3333333333333333333333, 1000000000000000000, 3333, 333333333333333333, Dec.HalfUp);
  }

  lemma ThirdCentRemainder()
    ensures RemainderAfter(Usd(100, 0), [Usd(3333, 2), Usd(3333, 2), Usd(3333, 2)], Dec.DefaultContext) == Usd(1, 2)
  {
    var ctx := Dec.DefaultContext;
    var c := Usd(3333, 2);
    assert [c, c, c][..2] == [c, c];
    assert [c, c][..1] == [c];
    assert [c][..0] == [];
    assert RemainderAfter(Usd(100, 0), [c], ctx) == Usd(6667, 2);
    assert RemainderAfter(Usd(100, 0), [c, c], ctx) == Usd(3334, 2);
  }

  lemma ThirdCentSettled()
    ensures Settled([Usd(3333, 2), Usd(3333, 2), Usd(3333, 2)], Usd(1, 2), Dec.DefaultContext)
      == [Usd(3334, 2), Usd(3333, 2), Usd(3333, 2)]
  {
    assert Corrections(3, 1, 0) == 1 && Corrections(3, 1, 1) == 0 && Corrections(3, 1, 2) == 0;
  }

  // ---- Money(100).allocate([1, 2, 1]) (examples.js:67-70) ----

  lemma QuarterShare()
    ensures Share(Usd(100, 0), 1, 4, Dec.DefaultContext) == Usd(2500000000000000000000, 20)
  {
    Dec.PowersOfTen();
    ShareIs(Usd(100, 0), 1, 4, Dec.DefaultContext, 2500000000000000000000, 0);
  }

  lemma HalfShare()
    ensures Share(Usd(100, 0), 2, 4, Dec.DefaultContext) == Usd(5000000000000000000000, 20)
  {
    Dec.PowersOfTen();
    ShareIs(Usd(100, 0), 2, 4, Dec.DefaultContext, 5000000000000000000000, 0);
  }

  lemma QuarterDisplays()
    ensures ValueOf(Usd(2500000000000000000000, 20), Dec.DefaultContext) == Dec.Cent(2500)
    ensures ValueOf(Usd(5000000000000000000000, 20), Dec.DefaultContext) == Dec.Cent(5000)
  {
    Dec.PowersOfTen();
    ValueOfIs(Usd(2500000000000000000000, 20), Dec.DefaultContext, 2500, 0);
    ValueOfIs(Usd(5000000000000000000000, 20), Dec.DefaultContext, 5000, 0);
  }

  lemma QuarterRemainder()
    ensures var q, h := Usd(2500000000000000000000, 20), Usd(5000000000000000000000, 20);
      RemainderAfter(Usd(100, 0), [q, h, q], Dec.DefaultContext) == Usd(0, 2)
  {
    var ctx := Dec.DefaultContext;
    var q, h := Usd(2500000000000000000000, 20), Usd(5000000000000000000000, 20);
    QuarterDisplays();
    assert [q, h, q][..2] == [q, h];
    assert [q, h][..1] == [q];
    assert [q][..0] == [];
    assert RemainderAfter(Usd(100, 0), [q], ctx) == Usd(7500, 2);
    assert RemainderAfter(Usd(100, 0), [q, h], ctx) == Usd(2500, 2);
  }

  lemma QuarterTexts()
    ensures Dec.Render(Dec.Cent(2500)) == "25" && Dec.Render(Dec.Cent(5000)) == "50"
  {
    assert Dec.Strip(2500, -2) == (25, 0) && Dec.Strip(5000, -2) == (5, 1);
    Dec.DigitsSnoc(2, 5, "2");
    Dec.RenderWhole(Dec.Cent(2500), 25, 0, "25");
    Dec.RenderWhole(Dec.Cent(5000), 5, 1, "5");
    assert Dec.Zeros(1) == "0";
  }

  /** 25%, 50%, 25% of 100: the shares are exact, nothing is left over, and
      they read "25", "50", "25". */
  lemma AllocateQuarters()
    ensures var r := Allocated(Usd(100, 0), List([1, 2, 1]), Dec.DefaultContext);
      && r.Ok? && |r.value| == 3
      && ToString(r.value[0], Dec.DefaultContext) == "25"
      && ToString(r.value[1], Dec.DefaultContext) == "50"
      && ToString(r.value[2], Dec.DefaultContext) == "25"
  {
    var ctx := Dec.DefaultContext;
    QuartersProvisional();
    AllocatedSettles(Usd(100, 0), List([1, 2, 1]), ctx);
    QuarterRemainder();
    QuarterSettled();
    QuarterStrings();
  }

  lemma QuartersProvisional()
    ensures Total(RatioList(List([1, 2, 1]))) == 4
    ensures Provisional(Usd(100, 0), List([1, 2, 1]), Dec.DefaultContext)
      == [Usd(2500000000000000000000, 20), Usd(5000000000000000000000, 20), Usd(2500000000000000000000, 20)]
  {
    assert [1, 2, 1][..2] == [1, 2] && [1, 2][..1] == [1] && [1][..0] == [];
    QuarterShares();
  }

  lemma QuarterShares()
    ensures Shares(Usd(100, 0), [1, 2, 1], 4, Dec.DefaultContext)
      == [Usd(2500000000000000000000, 20), Usd(5000000000000000000000, 20), Usd(2500000000000000000000, 20)]
  {
    var m, ctx := Usd(100, 0), Dec.DefaultContext;
    assert Shares(m, [1, 2, 1], 4, ctx) == [Share(m, 1, 4, ctx), Share(m, 2, 4, ctx), Share(m, 1, 4, ctx)];
    QuarterShare();
    HalfShare();
  }

  lemma QuarterSettled()
    ensures var q, h := Usd(2500000000000000000000, 20), Usd(5000000000000000000000, 20);
      Settled([q, h, q], Usd(0, 2), Dec.DefaultContext) == [q, h, q]
  {
  }

  lemma QuarterStrings()
    ensures ToString(Usd(2500000000000000000000, 20), Dec.DefaultContext) == "25"
    ensures ToString(Usd(5000000000000000000000, 20), Dec.DefaultContext) == "50"
  {
    QuarterDisplays();
    QuarterTexts();
  }
}
