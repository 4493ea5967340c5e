# bigmoney.js in Dafny

A model of the core of bigmoney.js, a small JavaScript library for amounts of money. An amount is a Money value: an exact decimal number from the big.js library, tagged with a currency code and an options bag. The model covers:

- the constructor, with its currency fallback (the given code, then `options.currency`, then the base currency);
- the arithmetic wrappers, which forward to big.js and rebuild a Money with the receiver's tags;
- `allocate`, which splits an amount by integer ratios and hands out the leftover one hundredth at a time, round-robin;
- `convert`, which converts between currencies through a single base currency;
- `valueOf` and `toString`, the display value rounded to two places;
- `format`, `Money.formatter` and `isValidCurrency`.

Files and modules:

- `outcomes.dfy` (`Outcomes`): `Option`, `Result` and the three errors the core can raise.
- `decimal.dfy` (`Decimals`): the parts of big.js the core relies on. A value is `Decimal(coef, exp)`, meaning coef · 10^-exp.
  - Addition, subtraction and multiplication are exact.
  - `div` rounds to `Big.DP` places with `Big.RM`; `round`, `mod`, `pow` and `cmp` are modelled too.
  - The text form follows big.js: plain notation between the exponents -7 and 21, exponential notation outside them.
  - `Context` holds `Big.DP` and `Big.RM`. The defaults are 20 places and half-up.
- `money.dfy` (`BigMoney`): the Money value, its constructor, the wrappers, `valueOf`, `toString`, the formatter and `isValidCurrency`. The library's global `Money.settings` is an explicit `Settings` parameter.
- `allocate.dfy` (`Allocation`): `ones` and `allocate`.
  - `Allocate` is a method built from `ShareOut` (the `forEach`) and `SettleRemainder` (the `while` loop).
  - Both are proved against the functions `Shares`, `RemainderAfter` and `Settled`.
  - The properties of `allocate` are lemmas about `Allocated`.
- `allocate_examples.dfy` (`AllocationExamples`): the allocations in examples.js, and the inputs whose displayed shares do not add up.
- `convert.dfy` (`Conversion`): `convert` and its properties, plus the conversions, arithmetic and formatting in examples.js under the rates given there.

Three facts about the code shape the model:

- **Shares enter the remainder as display values.** `remainder.minus(results[index])` passes a Money object to big.js, and big.js reads it through `valueOf`, so what is subtracted is the share rounded to two places. The `Operand` datatype models this: a Money argument enters the arithmetic as its display value.
- **The correction loop can run forever.** It stops exactly when the amount is a whole number of hundredths (`Allocation.SettlesIff`). Only then does the correction loop end.
- **The exact sum of the shares is not always the amount.** The doc comment of `allocate` (bigmoney.js:105) says it splits the amount "so that you won't loose cents". This model reads that as: the shares, added back together, give the amount. The code does not always do so. The displayed shares of `Money(100).allocate(3)` add up to 100, but the shares themselves add up to 100.00999999999999999999, which reads "100.01". In general the exact shares add up to the amount plus what display rounding drops from the provisional shares (`Allocation.AllocatedSum`). The model follows the code. "## Findings" gives the cases and a corrected allocation.

## Model

| member | source | states |
|---|---|---|
| BigMoney.New | bigmoney.js:25-38 | The amount is kept unrounded. The options are the bag given (a lone options object in second place counts), else an empty bag. The currency is the given code if it is truthy, else the bag's `currency` if truthy, else the base currency. |
| BigMoney.Rewrap | bigmoney.js:44-102 | The construction every wrapper performs, `Money(v, this.currency, this.options)`, yields `v` with exactly the receiver's currency and options, whatever the settings. |
| BigMoney.Abs | bigmoney.js:44-46 | `abs` keeps the receiver's currency, options and scale, and gives the coefficient without its sign. |
| BigMoney.Cmp | bigmoney.js:48-50 | `cmp` returns the primitive's -1, 0 or 1, not a Money. A Money argument is read as its display value. |
| Decimals.CmpAtScale | bigmoney.js:48-50 | The comparison `cmp` forwards is the sign of the difference of the two coefficients at any scale holding both, and swapping the operands negates it. |
| BigMoney.Eq | bigmoney.js:56-58 | `eq` returns the primitive's boolean, not a Money: whether `cmp` gives 0. |
| BigMoney.Gt | bigmoney.js:60-62 | `gt` returns the primitive's boolean: whether `cmp` gives 1. |
| BigMoney.Gte | bigmoney.js:64-66 | `gte` returns the primitive's boolean: whether `cmp` gives 0 or 1. |
| BigMoney.Lt | bigmoney.js:68-70 | `lt` returns the primitive's boolean: whether `cmp` gives -1. |
| BigMoney.Lte | bigmoney.js:72-74 | `lte` returns the primitive's boolean: whether `cmp` gives -1 or 0. |
| BigMoney.Plus | bigmoney.js:84-86 | `plus` keeps the receiver's currency and options. Its value is the exact sum, as `PlusMinusExact` states. |
| BigMoney.Minus | bigmoney.js:76-78 | `minus` keeps the receiver's currency and options. Its value is the exact difference, as `PlusMinusExact` states, and it undoes `plus` (`PlusMinusInverse`). |
| BigMoney.Times | bigmoney.js:100-102 | `times` keeps the receiver's currency and options. The product is zero exactly when a factor is. `TimesDivInverse` states that `div` undoes it. |
| BigMoney.Pow | bigmoney.js:88-90 | `pow` returns the primitive's number, not a Money. A non-negative power always succeeds; a negative one fails exactly on a zero amount. |
| BigMoney.Round | bigmoney.js:92-94 | `round` keeps the receiver's currency and options, leaves at most `dp` places, and leaves an amount of at most `dp` places unchanged. How far it moves the value is `Decimals.RoundError`. |
| Decimals.RoundError | bigmoney.js:92-94 | Rounding to `dp` places moves a value by less than one unit of the last kept place, at most half a unit in the half modes, and by nothing exactly when the dropped digits are zero. |
| BigMoney.PlusMinusExact | bigmoney.js:76-86 | `plus` and `minus` are exact. At any scale holding both operands, the result's coefficient is the sum or the difference of theirs. The result keeps the receiver's currency and options. |
| BigMoney.PlusMinusInverse | bigmoney.js:76-86 | `m.plus(y).minus(y)` equals `m` and has `m`'s currency and options. |
| BigMoney.Div | bigmoney.js:52-54 | `div` fails exactly when the divisor is zero. A Money divisor is read as its display value. A result has the receiver's currency and options. Its value is the quotient rounded to `Big.DP` places, as `Decimals.DivError` states. |
| Decimals.DivError | bigmoney.js:52-54 | The quotient `q` that `div` forwards from big.js satisfies \|q · b − a\| < 10^-dp · \|b\|, and at most half of that in the half modes. |
| BigMoney.Mod | bigmoney.js:80-82 | `mod` fails exactly when the divisor is zero. A result has the receiver's currency and options. |
| BigMoney.Sqrt | bigmoney.js:96-98 | `sqrt` fails exactly when the primitive's root fails. A result has the receiver's currency and options. |
| BigMoney.TimesDivInverse | bigmoney.js:100-102 | `m.times(x).div(x)` equals `m`, for `x` not zero and `m` with no more places than a division keeps. It keeps the tags. |
| BigMoney.ValueOf | bigmoney.js:186-188 | The display value is a whole number of hundredths with at most two places. It is less than a hundredth from the amount, and at most half a hundredth in the half modes. It equals the amount when the amount already is whole hundredths. |
| BigMoney.ValueOfNeg | bigmoney.js:186-188 | The display value of −x is minus the display value of x in every mode. A tie such as −0.005 is therefore rounded as 0.005 is, away from zero under half-up. |
| BigMoney.ValueOfIs | bigmoney.js:186-188 | For a non-negative amount with more than two places, split at the hundredths into `q` and a remainder `r`, the display value is `q` or `q + 1` hundredths, as the rounding mode decides for `r`. With `ValueOfNeg` this fixes the display value of a negative amount too. |
| BigMoney.ToString | bigmoney.js:195-197 | The text of the display value is non-empty and holds no '%', so it cannot create a placeholder in a template. |
| BigMoney.Format | bigmoney.js:204-206 | `format(template)` hands the display text, the currency and the template to the formatter. `DollarTemplate` and `DefaultTemplate` give its results. |
| BigMoney.Formatter | bigmoney.js:213-216 | The template falls back to `settings.format` when it is missing or empty. Then the first "%decimal" and the first "%currency" are replaced, as the `Formatter…` lemmas below state. |
| BigMoney.IsValidCurrency | bigmoney.js:208-210 | A currency is valid exactly when the rate table has a rate for it. `Conversion.ValidIffReachableFromBase` ties this to conversion. |
| BigMoney.FindFirstIsFirst | bigmoney.js:215 | The search `replace` uses finds an occurrence with no earlier one; when it finds none, the pattern does not occur at all. |
| BigMoney.ReplaceAfterPlainText | bigmoney.js:215 | A string-pattern `replace` changes the first occurrence only. After text free of '%', that occurrence is the placeholder. |
| BigMoney.ReplaceFirstAt | bigmoney.js:215 | When no occurrence of the pattern starts before position \|x\|, the occurrence at \|x\| is the one replaced, whatever else comes before it (a literal '%' included). |
| BigMoney.FormatterFillsTemplate | bigmoney.js:213-216 | For a template `a` "%decimal" `b` "%currency" `c` with no '%' in `a`, `b` or the decimal text, the formatter puts the decimal text in place of "%decimal" and the currency in place of "%currency". Everything after that is left as it is. |
| BigMoney.FormatterCurrencyFirst | bigmoney.js:213-216 | For a template `a` "%currency" `b` "%decimal" `c` with no '%' in `a` or `b`, such as "%currency %decimal", the formatter gives `a`, the currency, `b`, the decimal text and `c`. |
| BigMoney.FormatterDefaultTemplate | bigmoney.js:213-216 | Without a template, the settings' "%decimal %currency" gives the decimal text, a space and the currency. |
| BigMoney.FormatterPrefixTemplate | bigmoney.js:213-216 | A template of plain text followed by "%decimal" gives that text and then the decimal text. |
| BigMoney.DollarTemplate | bigmoney.js:204-206 | `format("$ %decimal")` is "$ " followed by `toString()`. |
| BigMoney.DefaultTemplate | bigmoney.js:204-206 | `format()` under the default settings is `toString()`, a space, and the currency. |
| Conversion.Convert | bigmoney.js:160-179 | A conversion is tagged with the target (the base when `to` is missing or empty) and keeps the options. The only failure is a missing rate, and it names a currency that is neither the base nor in the table. |
| Conversion.ConvertIdentity | bigmoney.js:163 | Converting to the value's own currency gives the value back. |
| Conversion.ConvertTriangulates | bigmoney.js:176-178 | Between two non-base currencies, a conversion divides by the source rate (a zero rate gives 0) and then multiplies by the target rate. The source rate is checked first. |
| Conversion.ConvertThroughBase | bigmoney.js:160-179 | Whenever source and target differ, a direct conversion equals converting to the base and then to the target. |
| Conversion.ConvertFailsIffRateMissing | bigmoney.js:160-179 | A conversion fails exactly when the currencies differ and a non-base side has no rate, that is, when that side is not a valid currency. |
| Conversion.ValidIffReachableFromBase | bigmoney.js:208-210 | From the base, a currency other than the base can be reached exactly when `isValidCurrency` holds for it. |
| Conversion.ConvertRoundTrip | bigmoney.js:164-175 | Out of the base at a nonzero rate and back gives the amount back exactly, when it has no more places than a division keeps. |
| Conversion.EuroToDollarExample | examples.js:16-24 | 100 EUR converts to 134.85000000000000693129 USD, whose text is "134.85". |
| Conversion.FormatExamples | examples.js:29-30 | Those dollars format as "134.85 USD" by default and as "$ 134.85" with "$ %decimal". |
| Conversion.ArithmeticExamples | examples.js:50-54 | On those dollars, `plus(100)`, `minus(100)`, `times(2)`, `div(2)` and `mod(1)` have the display values 234.85, 34.85, 269.7, 67.43 and 0.85. |
| Conversion.EuroToYenExample | examples.js:44 | 100 EUR in yen reads "13757.4". |
| Conversion.EuroToRoubleExample | examples.js:45 | 100 EUR in roubles reads "4752.76". |
| Allocation.Ones | bigmoney.js:114-121 | `ones(len)` is `len` ones, or no element when `len` is not positive. |
| Allocation.ShareOut | bigmoney.js:136-139 | The `forEach` produces one share `amount.times(ratio).div(total)` per ratio. The remainder is the amount less each share as `minus` reads it. |
| Allocation.ShareError | bigmoney.js:136-138 | A provisional share `amount.times(ratio).div(total)` is amount · ratio / total rounded to `Big.DP` places: share · total misses amount · ratio by less than 10^-dp · \|total\|, and at most half of that in the half modes. |
| Allocation.RemainderCents | bigmoney.js:136-139 | That remainder is a whole number of hundredths exactly when the amount is. Then it is the amount less the sum of the displayed shares. |
| Allocation.SettleRemainder | bigmoney.js:141-149 | The `while` loop over a remainder of `c` hundredths gives share `i` of `n` a total of sign(c) · (\|c\| div n, plus one if `i` < \|c\| mod n) hundredths. |
| Allocation.LoopGuard | bigmoney.js:141 | After `k` ≤ \|c\| steps, the loop's test `remainder.eq(0)` holds exactly when `k` = \|c\|. Before that, the remainder keeps the sign of `c`. |
| Allocation.CursorStep | bigmoney.js:142-146 | The cursor `current++`, reset to 0 at the end of the list, always equals the step count modulo the number of shares. |
| Allocation.SettlesIff | bigmoney.js:141-149 | The loop stops for some number of steps exactly when the starting remainder is a whole number of hundredths. |
| Allocation.SettlesAfterCents | bigmoney.js:141-149 | From `c` whole hundredths the loop stops after exactly \|c\| steps and not earlier. |
| Allocation.NeverSettles | bigmoney.js:141-149 | Otherwise the remainder is never zero, so `allocate` does not return. |
| Allocation.SettledSum | bigmoney.js:141-149 | For provisional shares of any number of places, the shares the loop leaves add up exactly to the provisional shares plus the remainder it started from: each step moves one hundredth from the remainder to a share. |
| Allocation.AllocatedSum | bigmoney.js:123-152 | For an amount of whole hundredths, the exact shares of `allocate` add up to the amount plus Σ(provisional share − its display value). They add up to the amount exactly when the provisional shares add up to their displays. |
| Allocation.CorrectionsFair | bigmoney.js:141-149 | The round-robin correction counts add up to the number of steps, do not grow along the list, and differ by at most one. |
| Allocation.Allocated | bigmoney.js:123-152 | The value of `m.allocate(ratios)`: `[this]` without ratios, `ones(n)` for a count, an error for an empty list or a zero total, otherwise the forEach's shares settled by the loop. `AllocationShape` states its shape. |
| Allocation.Allocate | bigmoney.js:123-152 | `allocate` returns `Allocated`. Without ratios that is `[this]`. With a count the ratios are `ones(n)`. Otherwise it is the forEach's shares, settled by the loop. |
| Allocation.AllocationShape | bigmoney.js:123-152 | Without ratios the result is the amount alone. It is an error exactly for an empty list (for a count, one not positive) or a zero total. Otherwise there is one share per ratio, each with the amount's currency and options. |
| Allocation.AllocationDisplaysAddUp | bigmoney.js:123-152 | The displayed shares add up to the amount when the amount is whole hundredths, ties are not rounded to even and no correction moves a share across zero. |
| Allocation.EqualRatiosWithinACent | bigmoney.js:123-152 | Under the same conditions, shares of equal ratios are displayed at most one hundredth apart. |
| Allocation.CentAllocationExact | bigmoney.js:136-139 | In the corrected allocation `CentAllocated`, the provisional shares are rounded to hundredths before the remainder is taken. For an amount of whole hundredths: it fails exactly where `allocate` does, with the same error and the same number of shares. Its shares are whole hundredths, each displayed as itself. Their exact values and their displays both add up to the amount, in every rounding mode. |
| AllocationExamples.AllocateThirds | examples.js:57-65 | `Money(100).allocate(3)` reads "33.34", "33.33", "33.33". The exact sum is 100.00999999999999999999, not 100, and reads "100.01". `allocate([1, 1, 1])` gives the same shares. |
| AllocationExamples.AllocateQuarters | examples.js:67-70 | `Money(100).allocate([1, 2, 1])` reads "25", "50", "25". |
| AllocationExamples.SplitCentAsWritten | bigmoney.js:136-149 | `Money(0.01).allocate(2)` gives -0.005 and 0.005. They read "-0.01" and "0.01", whose sum is not 0.01. |
| AllocationExamples.HalfEvenLosesCent | bigmoney.js:136-149 | With ties to even, `Money(0.03).allocate(2)` keeps both shares positive, yet they display as 0.00 and 0.02. |
| AllocationExamples.SplitCentCorrected | bigmoney.js:136-149 | The corrected allocation of 0.01 in two is 0.00 and 0.01. |
| AllocationExamples.ThirdsCorrected | bigmoney.js:136-149 | The corrected allocation of 100 in three is exactly 33.34, 33.33 and 33.33. |

## Left out

- Floating point. `valueOf` returns `parseFloat` of the rounded text, and `format` hands that number to `replace`, which prints it back in JavaScript's number notation. The model keeps the display value as a decimal and formats the big.js text. The two texts agree except for numbers with more digits than a double holds.
- Float rate literals. The rate `1/1.3485` of examples.js is a float division. It is modelled as the shortest decimal that reads back as that double, 0.7415647015202076.
- The special patterns of `String.prototype.replace` (`$&`, `$1`, and so on) in a replacement text. The decimal text contains none of them; a currency code that does is not modelled.
- Rates inherited from `Object.prototype`. The rate table is a map, so keys such as "toString" are not in it.
- The difference between `isValidCurrency`, which tests `typeof ... === 'number'`, and `convert`, which tests `rate === undefined`. The rate table of the model holds only numbers, so both come to `c in rates`.
- A `null` options argument, and `arguments.length` counting an explicit `undefined`. A falsy currency is modelled as "".
- The big.js parser: strings, parse errors, and the range limits of `Big.DP`, `Big.RM` and exponents. A number given to `Money` is a `Decimal`, and a Money given as the amount is not modelled.
- big.js `sqrt` is not part of this model. It is a function parameter of `BigMoney.Sqrt`.
- The export block, `noConflict`, and assignments to `Money.settings` or `Money.formatter` (the custom formatter of examples.js:34-41 included). The settings are a parameter; the formatter is the default one.
- Negative zero. big.js prints `-0` as "0", and the model has no signed zero.
- Ratios that are not integers.
- Allocation.Allocate: requires the call to terminate (`Terminates`). On any other amount the source loops forever, as `Allocation.NeverSettles` proves, and a Dafny method must return.
- Allocation.Allocate: the results list is a `seq` that the loop reassigns, not a JavaScript array updated in place.
- BigMoney.ToString: its contract states only that the text is non-empty and free of '%'. The text itself is stated for concrete values in the example lemmas (`Conversion.EuroToDollarExample` and the others).

## Findings

| source | as written | input that shows it | evidently intended | confidence | as-written member | corrected member |
|---|---|---|---|---|---|---|
| bigmoney.js:136-149 | The remainder is computed from the rounded shares, and a correction of -0.01 can push a share that rounds up below zero, where it rounds down again. | `Money(0.01).allocate(2)`: the shares are -0.005 and 0.005, displayed "-0.01" and "0.01", adding up to 0. | Two shares displayed 0.00 and 0.01, adding up to 0.01. | high (proved, not executed) | AllocationExamples.SplitCentAsWritten | Allocation.CentAllocationExact |
| bigmoney.js:136-149 | With `Big.RM` set to half-even, the display rounding of a share need not move by the hundredth a correction adds. | `Money(0.03).allocate(2)` with `Big.RM = 2`: the shares 0.005 and 0.015 are displayed 0.00 and 0.02. | Two shares displayed 0.01 and 0.02. | high (proved, not executed) | AllocationExamples.HalfEvenLosesCent | Allocation.CentAllocationExact |
| bigmoney.js:136-149 | The corrections are whole hundredths added to shares carrying twenty places, so the exact shares do not add up to the amount. | `Money(100).allocate(3)`: the exact sum is 100.00999999999999999999, which reads "100.01". `Allocation.AllocatedSum` gives the general sum: the amount plus Σ(provisional share − its display value). | Shares of 33.34, 33.33 and 33.33 adding up to 100 exactly. | high (proved, not executed) | AllocationExamples.AllocateThirds | AllocationExamples.ThirdsCorrected |
