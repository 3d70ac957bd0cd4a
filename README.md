# Odds conversion engine

A Dafny model of the GryfOSS odds library. The library converts betting odds between
three notations:

- **decimal odds**, such as `2.50`;
- **fractional odds**, such as `3/2`;
- **moneyline (American) odds**, such as `+150` or `-200`.

Decimal odds are held as a count of hundredths: `2.50` is 250.

The model covers these parts of the library:

- **`OddsFactory`** builds an immutable `Odds` record from a decimal price, from a
  fraction or from a moneyline. It quotes the fraction in one of two ways: through the
  odds ladder it was given, or, without one, through a continued-fraction
  approximation of the price.
- **`Odds`**, the record itself. It validates the price, normalises it to two fraction
  digits and derives the implied probability.
- **Three odds ladders**: the integer-keyed standard ladder, the string-keyed standard
  ladder and the ten-row custom ladder. Each does a first-match scan over a table of
  thresholds and falls back to a linear rule above the table.
- **`FractionalOdd`**, the legacy fraction object.

Modules follow the source files. Shared modules:

| Module | Models |
|---|---|
| `Results` | the error outcome of each validation |
| `Decimals` | exact decimals `Dec(units, scale)`, PHP rounding, decimal strings that are printed and read back |
| `BcMath` | the bcmath operations, which truncate at the requested scale |

Modules for the source files:

| Module | Source |
|---|---|
| `FactoryArithmetic` | the pure helpers of `src/OddsFactory.php` |
| `ContinuedFraction` | the convergents of `defaultDecimalToFractional`, over integers |
| `OddsFactory` | the factory class |
| `Odds` | `src/Odds.php` |
| `OddsLadder` | `src/OddsLadder.php` |
| `UtilsOddsLadder` | `src/Utils/OddsLadder.php` |
| `CustomOddsLadder` | `src/CustomOddsLadder.php` |
| `OddsLadderInterface` | the ladder interface, as a closed choice of the three ladders |
| `FractionalOdd` | `src/FractionalOdd.php` |

`OddsFactory.OddsFactory` is a class. Its only field is the immutable ladder.

Its `DefaultDecimalToFractional` keeps the source's loop as a `while` loop, with these
invariants: the state after k passes is `Iterate(vInt, k)`, and no earlier pass was
within tolerance. The method is proved equal to the function `DefaultFraction`.

Everything else is straight-line code over values, so it is modelled as functions and
lemmas. The ladder scans are the exception: they are methods with loops, proved
against `FirstAtLeast` and `FirstKeyAtLeast`.

Which notation each rule uses:

- The factory compares and computes with bcmath, which truncates. The model uses
  `BcMath`.
- `Odds` and the ladders read prices with `(float)` and `round`, which round half away
  from zero. The model uses `FloatCast` and `RoundHalfAway`, over exact decimals.

## Model

| member | source | states |
|---|---|---|
| Decimals.RoundHalfAway | src/Odds.php:103 | the result is within half a unit of n/d, and an exact half goes away from zero |
| Decimals.TruncDiv | src/OddsFactory.php:232 | the quotient is truncated toward zero, with bounds for each sign of the dividend |
| Decimals.IsNumeric | src/Odds.php:30 | a numeric string is never empty; it is numeric exactly when the whole string is one `[+-]digits[.digits]` number |
| Decimals.FloatCast | src/Odds.php:103 | the float cast of a numeric string is the number the string denotes, the same reading bcmath takes |
| Decimals.IntToStringShape | src/OddsFactory.php:239-242 | `intToString(c)` ends in a point and two digits, and starts with a minus sign exactly when c is negative |
| Decimals.ScanIntToString | src/OddsFactory.php:239-242 | `intToString(c)` is numeric and reads back as exactly c hundredths, by bcmath and by the float cast alike |
| Decimals.ScaledRoundOfIntToString | src/OddsLadder.php:104-116 | `stringToInt(intToString(k)) == k` for every k: rendering then scaling is the identity |
| BcMath.Comp | src/OddsFactory.php:145-149 | `bccomp` is -1, 0 or 1, and orders both operands by their truncation to k fraction digits |
| BcMath.Truncated | src/OddsFactory.php:60 | `bcdiv` gives the exact quotient truncated toward zero at the requested scale, for a divisor of either sign |
| BcMath.CompWithOne | src/OddsFactory.php:30 | `bccomp(x, '1.0', 2) < 0` holds exactly when x < 1 |
| FactoryArithmetic.MoneylineUnits | src/OddsFactory.php:143-162 | the moneyline is 0 exactly at 1.00 and positive exactly from 2.00 up; strictly between them it is at most -100.00 |
| FactoryArithmetic.BcRound | src/OddsFactory.php:248-262 | `bcRound(x, 2)` is x rounded to hundredths, halves away from zero, for either sign |
| FactoryArithmetic.HalfAwayAfterScale3 | src/OddsFactory.php:251-260 | truncating at scale 3, moving half a unit away from zero and truncating again rounds half away from zero |
| FactoryArithmetic.StringToInt | src/OddsFactory.php:226-233 | the bcmath `stringToInt` of a non-negative number is its hundredths rounded half up |
| FactoryArithmetic.NormalizeDecimal | src/OddsFactory.php:216-220 | the normalised string of a non-negative number is numeric and reads as its hundredths rounded half up, with two fraction digits |
| FactoryArithmetic.NormalizeIdempotent | src/OddsFactory.php:216-220 | a normalised decimal is numeric, and normalising it again changes nothing |
| FactoryArithmetic.FormatMoneyline | src/OddsFactory.php:186-211 | the output starts with `+` exactly when the value is positive at two fraction digits (the full output for every value is `FormatMoneylineRule`) |
| FactoryArithmetic.FormatMoneylineRule | src/OddsFactory.php:186-211 | for every value: `+` when positive at two fraction digits; then the integer part alone when the value is whole at two fraction digits, otherwise the value rounded half away from zero with two fraction digits |
| FactoryArithmetic.FormatMoneylineDropsThirdDigit | src/OddsFactory.php:194-198 | 150.001 is whole at two fraction digits and prints as +150 |
| FactoryArithmetic.FormatMoneylineRoundsUpToWhole | src/OddsFactory.php:194-210 | 150.999 is not whole at two fraction digits, so it prints as +151.00 although it rounds to a whole number |
| FactoryArithmetic.FormatMoneylineText | src/OddsFactory.php:186-211 | a two-digit value formats as its sign, its digits and, unless whole, exactly two fraction digits |
| FactoryArithmetic.FormatMoneylineWhole | src/OddsFactory.php:194-198 | a whole number formats as its digits, with `+` when positive |
| FactoryArithmetic.MoneylineTextReads | src/OddsFactory.php:186-211 | a formatted moneyline is numeric, reads back as the value it came from and formats to itself |
| FactoryArithmetic.CompHundredths | src/OddsFactory.php:145-149 | the two `bccomp` tests on a two-digit price pick out exactly 1.00 and the prices from 2.00 up |
| FactoryArithmetic.MoneylineLongOdds | src/OddsFactory.php:149-160 | from 2.00 up, the bcmath steps give exactly +100·(d − 1) |
| FactoryArithmetic.MoneylineShortOdds | src/OddsFactory.php:153-160 | strictly between 1.00 and 2.00, the bcmath steps give −100/(d − 1) rounded half away from zero |
| FactoryArithmetic.DecimalToMoneyline | src/OddsFactory.php:143-162 | for every two-digit price from 1.00 up, the printed moneyline is the one `MoneylineUnits` states, printed by `MoneylineText` |
| FactoryArithmetic.EvensBranchPrints | src/OddsFactory.php:145-147 | the first `bccomp` test picks out exactly 1.00, which prints 0 |
| FactoryArithmetic.LongBranchPrints | src/OddsFactory.php:149-151 | the second `bccomp` test picks out the prices from 2.00 up, which print +100·(d − 1) |
| FactoryArithmetic.ShortBranchPrints | src/OddsFactory.php:153-161 | strictly between 1.00 and 2.00, d − 1 is nonzero and the quote printed is −10^6/(k − 100) hundredths rounded |
| FactoryArithmetic.MoneylineUnitsMonotone | src/OddsFactory.php:143-162 | above 1.00 a higher price never gives a lower moneyline |
| FactoryArithmetic.MoneylineDropsAfterEvens | src/OddsFactory.php:145-157 | the order breaks at 1.00: 1.00 quotes 0 and 1.01 quotes −10000.00 |
| FactoryArithmetic.DecimalToMoneylineMonotone | src/OddsFactory.php:143-162 | above 1.00 the printed moneylines are numeric and never decrease as the price rises |
| FactoryArithmetic.ShortUnits | src/OddsFactory.php:153-157 | strictly between 1.00 and 2.00, the moneyline is −10^6/(k − 100) rounded |
| FactoryArithmetic.MoneylineToDecimalRule | src/OddsFactory.php:167-181 | a moneyline that is positive at scale 0 gives 1 + m/100; one that is negative gives 1 + 100/abs(m); one whose integer part is 0 gives 1.00; each result is rounded |
| FactoryArithmetic.MoneylineToDecimal | src/OddsFactory.php:167-181 | every moneyline gives a price with two fraction digits of at least 1.00 |
| FactoryArithmetic.OnePlusAtLeastOne | src/OddsFactory.php:171-180 | one plus a non-negative quotient, rounded, is at least 1.00 |
| FactoryArithmetic.MoneylineToDecimalAbove | src/OddsFactory.php:169-171 | a moneyline m with a positive integer part gives 1 + m/100, rounded to hundredths |
| FactoryArithmetic.MoneylineToDecimalBelow | src/OddsFactory.php:172-174 | a moneyline m with a negative integer part gives 1 + 100/abs(m), rounded to hundredths |
| FactoryArithmetic.MoneylineToDecimalZero | src/OddsFactory.php:175-177 | a moneyline whose integer part is 0 gives 1.00 |
| FactoryArithmetic.OnePlusRounded | src/OddsFactory.php:171-180 | one plus a quotient kept to four digits, rounded to two digits, is one plus the exact quotient rounded |
| FactoryArithmetic.RoundTwiceRecovers | src/OddsFactory.php:156-174 | for j in 1..99, rounding 10^6/j and then 10^6 over that result gives back j |
| FactoryArithmetic.RoundTripLong | src/OddsFactory.php:149-171 | from 2.00 up, the printed moneyline reads back as the price it came from |
| FactoryArithmetic.RoundTripShort | src/OddsFactory.php:153-174 | strictly between 1.00 and 2.00, the printed moneyline reads back as the price it came from |
| FactoryArithmetic.ReadBackNegative | src/OddsFactory.php:172-180 | a printed moneyline of −100.00 or below reads back as 1 + 100/abs(m) |
| FactoryArithmetic.MoneylineRoundTrip | src/OddsFactory.php:143-181 | `moneylineToDecimal(decimalToMoneyline(d)) == d` for every two-digit price d from 1.00 up |
| FactoryArithmetic.FormatMoneylineIdempotent | src/OddsFactory.php:186-211 | formatting a moneyline the factory printed gives it back unchanged |
| FactoryArithmetic.DecimalToMoneylineShort | src/OddsFactory.php:153-161 | 1.90 gives -111.11 |
| FactoryArithmetic.DecimalToMoneylineLong | src/OddsFactory.php:149-161 | 2.50 gives +150 |
| FactoryArithmetic.MoneylineTextNegative | src/OddsFactory.php:200-210 | -111.11 prints with its two fraction digits and no plus sign |
| FactoryArithmetic.MoneylineTextWhole | src/OddsFactory.php:194-198 | 150 prints as +150, with no fraction part |
| FactoryArithmetic.MoneylineTextFraction | src/OddsFactory.php:200-210 | 150.50 prints as +150.50 |
| FactoryArithmetic.FormatMoneylineFraction | src/OddsFactory.php:186-211 | `formatMoneyline("150.50")` is +150.50 |
| FactoryArithmetic.FormatMoneylineInteger | src/OddsFactory.php:186-198 | `formatMoneyline("150")` is +150 |
| FactoryArithmetic.MoneylineToDecimalPositive | src/OddsFactory.php:169-171 | +150 gives 2.50 |
| FactoryArithmetic.MoneylineToDecimalNegative | src/OddsFactory.php:172-174 | -200 gives 1.50 |
| FactoryArithmetic.MoneylineToDecimalBelowOne | src/OddsFactory.php:169-177 | 0.50 compares as 0 at scale 0 and gives 1.00 |
| ContinuedFraction.Step | src/OddsFactory.php:126-134 | one pass strictly shrinks the remainder's numerator, and the old numerator becomes the new denominator |
| ContinuedFraction.Iterate | src/OddsFactory.php:125-135 | after any number of passes the remainder p/q is non-negative, with q > 0 |
| ContinuedFraction.SearchFrom | src/OddsFactory.php:125-135 | this is the first pass after `from` whose convergent is within tolerance, so the do-while loop stops |
| ContinuedFraction.StepKeepsInvariant | src/OddsFactory.php:126-134 | one pass keeps b = p/q the exact remainder of v, with the convergent determinant ±1 |
| ContinuedFraction.IterateInvariant | src/OddsFactory.php:119-135 | the invariant holds from the initial values through every pass |
| ContinuedFraction.DenominatorPositive | src/OddsFactory.php:132 | after the first pass the denominator is at least 1, so `n / d` is defined |
| ContinuedFraction.ExhaustedIsExact | src/OddsFactory.php:134-135 | once the remainder is 0, the convergent equals v exactly and the loop exits |
| ContinuedFraction.FirstWithinUnique | src/OddsFactory.php:135 | the loop can stop at only one pass |
| ContinuedFraction.ApproximationIsFirstWithin | src/OddsFactory.php:125-137 | the returned n/d comes from the first pass within tolerance, has d ≥ 1, satisfies abs(v − n/d) ≤ v/10000 and is in lowest terms |
| ContinuedFraction.ApproximationAt | src/OddsFactory.php:125-137 | the pass the loop stops at determines the result |
| ContinuedFraction.Approximation | src/OddsFactory.php:119-137 | the state at the first pass within tolerance (no contract of its own; `ApproximationIsFirstWithin` states its properties) |
| ContinuedFraction.DeterminantCoprime | src/OddsFactory.php:128-133 | a convergent with determinant ±1 has no common factor |
| ContinuedFraction.ApproximatesOnePointThirtyThree | src/OddsFactory.php:104-137 | 1.33 stops at the third pass with 33/100 |
| ContinuedFraction.ApproximatesTwoPointThirtyThree | src/OddsFactory.php:104-137 | 2.33 stops at the third pass with 133/100 |
| ContinuedFraction.ApproximatesOnePointFive | src/OddsFactory.php:104-137 | 1.50 stops at the second pass with 1/2 |
| ContinuedFraction.ApproximatesEvens | src/OddsFactory.php:104-137 | 2.00 stops at the first pass with 1/1 |
| OddsFactory.OddsFactory.constructor | src/OddsFactory.php:17-21 | the factory keeps the ladder it was given, or none |
| OddsFactory.OddsFactory.FromDecimal | src/OddsFactory.php:28-39 | fails with an invalid-decimal error exactly when the input is non-numeric or below 1.0; otherwise the record holds the normalised price, its fractional quote, its moneyline and its probability |
| OddsFactory.OddsFactory.FromFractional | src/OddsFactory.php:48-67 | rejects a negative numerator first, then a denominator below 1; otherwise the price is n/d + 1 rounded to hundredths, the fraction is `n/d` unreduced, and the record agrees with the legacy FractionalOdd |
| OddsFactory.OddsFactory.FromMoneyline | src/OddsFactory.php:74-85 | fails exactly on non-numeric input; otherwise the price is `moneylineToDecimal(m)`, at least 1.00, and the moneyline stored is the formatted input |
| OddsFactory.OddsFactory.DecimalToFractional | src/OddsFactory.php:90-99 | uses the injected ladder when there is one, and the continued fraction otherwise |
| OddsFactory.OddsFactory.DefaultDecimalToFractional | src/OddsFactory.php:104-138 | the loop returns `DefaultFraction` of the price: "0/1" at 1.00, otherwise the first convergent within tolerance |
| OddsFactory.DefaultFraction | src/OddsFactory.php:104-138 | the quote without a ladder (no contract of its own; `DefaultFractionApproximates` and `DefaultFractionEvens` state its properties) |
| OddsFactory.Fraction | src/OddsFactory.php:90-99 | the injected ladder's quote when there is one, `DefaultFraction` otherwise (no contract of its own; `DecimalToFractional` is proved equal to it) |
| OddsFactory.Record | src/OddsFactory.php:38 | the record the factory builds from k hundredths (no contract of its own; `NewFromHundredths` proves `Odds.New` gives exactly it) |
| OddsFactory.DefaultFractionAt | src/OddsFactory.php:125-137 | the quote is the printed convergent of the pass at which the loop first falls within tolerance |
| OddsFactory.IterateNext | src/OddsFactory.php:125-135 | from a state with a remainder left, the next state is one more pass |
| OddsFactory.ReadsBack | src/OddsFactory.php:216-242 | a normalised price reads back as the same hundredths by bcmath, by the float cast and by `stringToInt` |
| OddsFactory.NewFromHundredths | src/Odds.php:27-38 | a record built from a price printed from k ≥ 100 hundredths is always accepted, and stores that price unchanged |
| OddsFactory.OnePlusFraction | src/OddsFactory.php:60-61 | bcmath's n/d + 1 at four digits, rounded to two, is 1 plus n/d rounded half up |
| OddsFactory.FractionalAgreesWithLegacy | src/OddsFactory.php:60-63 | the factory's price and fraction string for n/d are the legacy FractionalOdd's `toDecimal` and `value` |
| OddsFactory.DecimalMoneylineRoundTrip | src/OddsFactory.php:74-85 | building from a price's own moneyline recovers the price and keeps the moneyline string unchanged |
| OddsFactory.DefaultFractionApproximates | src/OddsFactory.php:104-137 | without a ladder, a price above 1.00 is quoted as n/d in lowest terms, with d ≥ 1 and within v/10000 of v |
| OddsFactory.DefaultFractionEvens | src/OddsFactory.php:106-110 | without a ladder 1.00 reads 0/1 and 2.00 reads 1/1 |
| OddsFactory.DefaultApproximations | src/OddsFactory.php:104-137 | 1.50 is approximated by 1/2, 1.33 by 33/100 and 2.33 by 133/100 |
| OddsFactory.FractionExamples | src/OddsFactory.php:60-64 | 1/2 gives 1.50, −200; 100/1 gives 101.00, +10000 |
| Odds.ProbabilityHundredths | src/Odds.php:76-86 | the probability is non-negative, and at most 100.00 for a price of at least 1 |
| Odds.CalculateProbability | src/Odds.php:76-86 | the probability string is numeric, worth the rounded percentage 100/x, and between 0.00 and 100.00 for a price of at least 1 |
| Odds.NormalizeDecimal | src/Odds.php:91-113 | the normalised string is numeric, has exactly two fraction digits worth the rounded hundredths, and rounds to the same hundredths |
| Odds.New | src/Odds.php:27-38 | fails with an invalid-decimal error exactly when the input is non-numeric or below 1.0; stores the rounded price, both quotes verbatim, and the probability of the rounded price |
| Odds.ScaledRoundAtLeastHundred | src/Odds.php:30-34 | a price of at least 1 rounds to at least 100 hundredths |
| Odds.ProbabilityAtMostHundred | src/Odds.php:82-85 | 100/x rounds to at most 100.00 when x ≥ 1 |
| Odds.HundredthsProbability | src/Odds.php:37 | the probability of a normalised price of k hundredths is 10^6/k rounded |
| Odds.NewIdempotent | src/Odds.php:30-37 | building again from the stored price gives the same record |
| Odds.ProbabilityBounds | src/Odds.php:76-86 | the probability is at most 100.00, equals it exactly at 1.00, and is positive exactly up to 20000.00 |
| Odds.ProbabilityExamples | src/Odds.php:76-86 | 1.01 gives 99.01, 1.50 gives 66.67, 2.00 gives 50.00 |
| Odds.NormalisationExamples | src/Odds.php:91-113 | 2.004 gives 2.00, 2.005 gives 2.01, 2 gives 2.00 |
| Odds.RejectsNonNumeric | src/Odds.php:30-32 | "abc" is refused |
| Odds.RejectsZero | src/Odds.php:30-32 | "0" is refused |
| Odds.RejectsNegative | src/Odds.php:30-32 | "-1.5" is refused |
| OddsLadder.FirstAtLeast | src/OddsLadder.php:23-27 | gives the first row whose threshold is at least k: every earlier row lies below k; the index is the table's length when no row reaches k |
| OddsLadder.FallbackConversion | src/OddsLadder.php:92-98 | from 1.00 up, the fallback is the whole units of profit over 1 |
| OddsLadder.Quote | src/OddsLadder.php:18-31 | the first-match quote over a table (no contract of its own; `DecimalToFractional` is proved equal to it) |
| OddsLadder.GetLadder | src/OddsLadder.php:37-87 | the 46-row table (no contract of its own; `GetLadderShape` states its shape) |
| OddsLadder.DecimalToFractional | src/OddsLadder.php:18-31 | the scan returns the fraction of the first row whose threshold reaches the rounded price, with every earlier row below it, or the fallback when every row is below it |
| OddsLadder.FirstAtLeastIs | src/OddsLadder.php:23-27 | a row that every earlier row stays below, and that reaches k, is the one chosen |
| OddsLadder.FirstAtLeastMonotone | src/OddsLadder.php:23-27 | a larger price never selects an earlier row |
| OddsLadder.StepsUpIncreasing | src/OddsLadder.php:39-86 | thresholds rising row by row rise across the whole table |
| OddsLadder.AtThreshold | src/OddsLadder.php:23-27 | on an increasing table, a price exactly at a threshold takes that row |
| OddsLadder.BelowFirstRow | src/OddsLadder.php:23-27 | prices at or below the first threshold take the first row |
| OddsLadder.FallbackExactlyAboveLast | src/OddsLadder.php:23-30 | the scan falls back exactly when the price is above the last threshold |
| OddsLadder.GetLadderShape | src/OddsLadder.php:37-87 | the table has 46 strictly increasing thresholds from 1.02 to 10.00 |
| OddsLadder.StandardBoundaries | src/OddsLadder.php:37-87 | anything at or below 1.02 is 1/50, and a price at a threshold is quoted that row's fraction |
| OddsLadder.StandardFallback | src/OddsLadder.php:23-30 | up to 10.00 the fallback is never reached; above it, it always is |
| OddsLadder.StandardBetween | src/OddsLadder.php:23-27 | 2.01 takes the next higher threshold: 11/10 |
| OddsLadder.StandardBetweenEvens | src/OddsLadder.php:23-27 | 1.95 takes 1/1 |
| OddsLadder.FallbackExamples | src/OddsLadder.php:92-98 | 7.00 gives 6/1, 11.50 gives 10/1, 15.25 gives 14/1, 50.00 gives 49/1, 100.00 gives 99/1 |
| OddsLadder.RenderThenScale | src/OddsLadder.php:104-116 | `stringToInt(intToString(k)) == k` |
| UtilsOddsLadder.FirstKeyAtLeast | src/Utils/OddsLadder.php:25-30 | gives the first row whose key, converted, is at least k, with every earlier key below k; the index is the table's length when none reaches k |
| UtilsOddsLadder.Quote | src/Utils/OddsLadder.php:20-34 | the first-match quote over string keys (no contract of its own; `DecimalToFractional` is proved equal to it) |
| UtilsOddsLadder.GetLadder | src/Utils/OddsLadder.php:40-90 | the 46-row string-keyed table (no contract of its own; `LaddersMirror` states what it holds) |
| UtilsOddsLadder.DecimalToFractional | src/Utils/OddsLadder.php:20-34 | the scan, which converts each key as it goes, returns the first-match quote or the fallback |
| UtilsOddsLadder.FirstKeyAtLeastIs | src/Utils/OddsLadder.php:25-30 | a row that every earlier converted key stays below, and whose key reaches k, is the one chosen |
| UtilsOddsLadder.LaddersMirror | src/Utils/OddsLadder.php:40-90 | the 46 keys are exactly the integer thresholds of the standard ladder written with two fraction digits, each with the same fraction |
| UtilsOddsLadder.MirrorsConcat | src/Utils/OddsLadder.php:40-90 | tables that mirror group by group mirror as a whole |
| UtilsOddsLadder.MirroredScansAgree | src/Utils/OddsLadder.php:25-30 | on mirrored tables the two scans stop at the same row and quote alike |
| UtilsOddsLadder.StandardLaddersAgree | src/Utils/OddsLadder.php:20-34 | the string-keyed and integer-keyed standard ladders quote every price alike |
| UtilsOddsLadder.RoundedBeforeLookup | src/Utils/OddsLadder.php:107-110 | 1.015, 1.105 and 1.101 round to 1.02, 1.11 and 1.10 before the scan |
| UtilsOddsLadder.RoundedLookupLow | src/OddsLadder.php:40 | in the integer-keyed table, 102 hundredths reads 1/50 |
| UtilsOddsLadder.RoundedLookupTen | src/OddsLadder.php:48 | in the integer-keyed table, 110 hundredths reads 1/10 |
| UtilsOddsLadder.RoundedLookupNine | src/OddsLadder.php:49 | in the integer-keyed table, 111 hundredths reads 1/9 |
| UtilsOddsLadder.ReadsOnePoint | src/Utils/OddsLadder.php:109 | a string `1.ddd` is read by the float cast as 1 + ddd/1000 |
| UtilsOddsLadder.RoundsUpToOnePointZeroTwo | src/Utils/OddsLadder.php:107-110 | "1.015" rounds to 102 hundredths |
| UtilsOddsLadder.RoundsUpToOnePointOneOne | src/Utils/OddsLadder.php:107-110 | "1.105" rounds to 111 hundredths |
| UtilsOddsLadder.RoundsDownToOnePointOne | src/Utils/OddsLadder.php:107-110 | "1.101" rounds to 110 hundredths |
| UtilsOddsLadder.RoundedQuoteLow | src/Utils/OddsLadder.php:20-34 | the string-keyed ladder quotes any price that rounds to 102 hundredths, such as "1.015", as 1/50 |
| UtilsOddsLadder.RoundedQuoteNine | src/Utils/OddsLadder.php:20-34 | it quotes any price that rounds to 111 hundredths, such as "1.105", as 1/9 |
| UtilsOddsLadder.RoundedQuoteTen | src/Utils/OddsLadder.php:20-34 | it quotes any price that rounds to 110 hundredths, such as "1.101", as 1/10 |
| CustomOddsLadder.GetLadderShape | src/CustomOddsLadder.php:15-29 | the table has exactly ten strictly increasing thresholds, 1.20 through 6.00 |
| CustomOddsLadder.GetLadder | src/CustomOddsLadder.php:15-29 | the ten-row custom table (no contract of its own; `GetLadderShape` states its shape) |
| CustomOddsLadder.DecimalToFractional | src/CustomOddsLadder.php:10-15 | the inherited scan runs over the custom table |
| CustomOddsLadder.CustomBelowFirst | src/CustomOddsLadder.php:18 | every price up to 1.20 reads 1/5 |
| CustomOddsLadder.CustomBetween | src/CustomOddsLadder.php:21-22 | 1.90 takes the next entry: 1/1 |
| CustomOddsLadder.CustomBetweenThreeHalves | src/CustomOddsLadder.php:22-23 | 2.40 takes the next entry: 3/2 |
| CustomOddsLadder.CustomFallback | src/CustomOddsLadder.php:10-29 | up to 6.00 a row always matches; above it the inherited fallback applies |
| OddsLadderInterface.DecimalToFractional | src/OddsLadderInterface.php:10-16 | each ladder answers with its own quote, and the string-keyed ladder answers as the standard one does |
| OddsLadderInterface.Quote | src/OddsLadderInterface.php:15 | each ladder's own quote (no contract of its own; `DecimalToFractional` is proved equal to it) |
| FractionalOdd.New | src/FractionalOdd.php:27-40 | rejects a negative numerator first, then a denominator below 1, then a bar other than `/` or `-`; accepts exactly the valid odds |
| FractionalOdd.FractionalOdd.ToDecimal | src/FractionalOdd.php:50-55 | the price is 1 plus n/d rounded to two digits, and is at least 1.00 |
| FractionalOdd.FractionalOdd.ToFractional | src/FractionalOdd.php:57-60 | the result prints as the odd itself |
| FractionalOdd.FractionalOdd.ToMoneyline | src/FractionalOdd.php:62-73 | as written: from a ratio of 2 up it is at least +200; from 0 to 2 it is negative; it is zero exactly for a zero numerator |
| FractionalOdd.FractionalOdd.ToMoneylineCorrected | src/FractionalOdd.php:62-73 | with the threshold at a ratio of 1: from even money up it is at least +100, below it at most −100, and zero exactly for a zero numerator |
| FractionalOdd.ToDecimalExamples | src/FractionalOdd.php:50-55 | 2/1 gives 3.00 and 1/2 gives 1.50 |
| FractionalOdd.ToMoneylineExamples | src/FractionalOdd.php:62-73 | 0/1 gives 0, 1/2 gives −200, 2/1 gives +200 |
| FractionalOdd.ValueExamples | src/FractionalOdd.php:42-45 | "2/1" and "2-1" |
| FractionalOdd.ToMoneylineThreeHalves | src/FractionalOdd.php:64-70 | 3/2 is accepted, yet gives −66.67, a moneyline of magnitude below 100 |
| FractionalOdd.ToMoneylineCorrectedBounds | src/FractionalOdd.php:62-73 | corrected, every nonzero fraction gives a magnitude of at least 100, positive exactly from even money up; 3/2 gives +150.00 |
| FractionalOdd.ValueInjective | src/FractionalOdd.php:42-45 | the printed value determines numerator, bar and denominator |
| FractionalOdd.FractionalOdd.Value | src/FractionalOdd.php:42-45 | numerator, bar and denominator printed in a row (no contract of its own; `ValueInjective` and `ValueExamples` state its properties) |

## Left out

- Floating point. `(float)`, `round` and the float-typed loop of
  `defaultDecimalToFractional` are modelled as exact rational arithmetic. Rounding is
  half away from zero. Results that binary floating point would round differently
  are not captured.
- `is_numeric`. It is restricted to `[+-]digits[.digits]`, with at least one digit.
  Whitespace, exponents and other forms PHP accepts are not modelled.
- bcmath's digit-string internals. bcmath numbers are exact decimals truncated at
  the requested scale.
- Exceptions. They are an error value naming the validation that failed: decimal,
  numerator, denominator, fraction bar or moneyline. Exception classes and messages are not
  modelled.
- PHP integer overflow. Integers are unbounded.
- The padding branches of `formatMoneyline` (src/OddsFactory.php:204-208). They never
  fire, because `bcRound` always returns two fraction digits.
- `bcRound`'s precision argument. The factory only ever passes 2, so it is fixed at 2.
- OddsLadderInterface.DecimalToFractional: the interface is a closed choice of the
  three ladders in the library. A caller-supplied ladder class is not modelled,
  because the model has no open extension point.
- OddsFactory.OddsFactory.DefaultDecimalToFractional: the tolerance parameter is fixed
  at its default of 1, the only value the factory passes.
- OddsFactory.OddsFactory.DefaultDecimalToFractional: requires a numeric price of at
  least 1.00, which every caller in the factory guarantees. The source does not check
  this itself.
- OddsFactory.OddsFactory.DecimalToFractional: without a ladder, it requires the same
  numeric price of at least 1.00, for the same reason.
- OddsFactory.DefaultApproximations: these examples are stated on the convergent
  (`Approximation`) rather than on the printed string. The printed form follows from
  `DefaultFractionApproximates`.
- `getDecimal`, `getFractional`, `getMoneyline` and `getProbability` are the
  selectors of the immutable `Odds` datatype.
- FractionalOdd.New: takes the fraction bar explicitly. PHP's default of `/` has no
  counterpart.
- FractionalOdd.FractionalOdd.ToDecimal: returns the price in hundredths rather than a
  `DecimalOdd` object.
- FractionalOdd.FractionalOdd.ToMoneyline: returns the moneyline in hundredths rather
  than a `MoneylineOdd` object.
- src/DecimalOdd.php and src/MoneylineOdd.php are not part of this model. They are
  float-typed duplicates of the factory rules on a base class that is not available.
- src/OddInterface.php is not part of this model. It holds signatures only.
- Odds.CalculateProbability: requires a positive price. It is only applied to a
  normalised price of at least 1.00.
- FactoryArithmetic.DecimalToMoneyline: requires a price of at least 1.00. The factory
  only calls it on normalised prices that have passed validation.
- FactoryArithmetic.DecimalToMoneylineMonotone: the moneyline rises with the price only
  above 1.00. At 1.00 the quote is 0 and at 1.01 it is −10000.00, so the order breaks
  there (`MoneylineDropsAfterEvens`).

## Findings

| source | as written | input that shows it | evidently intended | confidence | as-written member | corrected member |
|---|---|---|---|---|---|---|
| src/FractionalOdd.php:66 | the positive branch of `toMoneyline` starts at `n/d >= 2` | 3/2 (decimal price 2.50) gives −66.67, a moneyline of magnitude below 100 that no price has; the factory quotes 2.50 as +150 | `n/d >= 1`, the even-money threshold the factory uses at src/OddsFactory.php:149 | not executed | FractionalOdd.ToMoneylineThreeHalves | FractionalOdd.FractionalOdd.ToMoneylineCorrected |
