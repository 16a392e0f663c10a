# Arithmetic, calendar and class-cache models for four CPython library modules

The pure-Python fallbacks in `cpython/Lib` carry four pieces of delicate logic. This project models
them in Dafny and proves what they are relied on for.

* **Decimal arithmetic** (`_pydecimal.py`). `Rounding`, `Decimals`, `FixedPoints` and `ExactRounding`
  say what the final rounding of every operation does: a context with shared flags, eight rounding
  modes, subnormal results, overflow and clamping, and what it means to round a real number correctly.
  `Sticky` holds the one argument behind the shortcuts of `Addition`, `Division` and `SquareRoot`:
  rounding cannot tell two values apart that lie between the same neighbouring multiples of five units
  below the last kept digit. `NearestRoot` and `IntegerRoots` cover the integer roots. `PowerExact`
  covers exact powers, on top of `PowerMeaning`, which says what a power is, `StrippedDecimals`,
  `PrimePowers` and `RootTheory`, which hold the number theory, and `PowerLimits`, which says what a
  power must look like. `DecimalText` covers printing and the grammar of what is read,
  `DecimalPrinted` what is printed, and `DecimalRoundTrip` reading it back.
* **Big integers** (`_pylong.py`). `Bits`, `BigDivision`, `BigDigits` and `BigParse` cover recursive
  division, splitting into digits and joining, long division, signed division and the conversion of a
  decimal string with remembered powers of five. The two tuning limits of the program are parameters.
* **Calendar and local time** (`_pydatetime.py`). `Calendar`, `IsoWeek`, `LocalTime`, `Durations`,
  `PythonText`, `IsoText`, `IsoForms`, `IsoPrinted` and `IsoRoundTrip` cover ordinals, the ISO week calendar
  (ISO 8601:2004, section 4.1.4), the resolution of repeated and skipped local times (PEP 495),
  durations, and printing and parsing: `IsoText` holds the printer and the readers, `IsoForms` what
  each reader accepts and means, `IsoPrinted` what is printed, `IsoRoundTrip` that it is read back.
* **The ABC subclass cache** (`_py_abc.py`). `Paths` and `ClassGraph` say what the uncached answer is:
  reachability over ancestors, registered classes and subclasses. `AbcCache` holds the mutable state,
  with positive caches, versioned negative caches and a global counter, all changed in the middle of a
  recursion (PEP 3119, section "Overloading isinstance() and issubclass()").

Functions and lemmas model what the program computes from values; classes and methods with loops model
what it changes step by step. `Powers` and `DigitStrings` hold the arithmetic of powers and digits.

## How to read the results

Exact results are real numbers scaled by powers of ten (`ExactRounding.Scale`). `CorrectlyRounded`
says that a result is what rounding the exact value at the last place the context allows gives, and
that Overflow, Inexact, Subnormal and Underflow are raised exactly when their cause is there. A power
is described without real exponents: `PowerMeaning.IsPower(v, x, y)` says that v to the n is x to the
m, or its inverse, whenever y is m/n.

The state of the subclass cache is an object of class `AbcCache.World`. `GraphSound` and `CachesSound`
hold after the constructor and are kept by every method, so they hold after any run of class
statements, registrations, checks and cache clears; that is what makes every answer equal to the
uncached one in every reachable state.

## Where code and documentation differ

* `get_cache_token` promises a token that changes with every call to `register()` (`_py_abc.py:4-11`).
  The code leaves the counter alone when the class is already a subclass or the registration is
  refused (`_py_abc.py:61-69`). `AbcCache.World.Register` says exactly when the counter moves, and
  `AbcCache.World.RegisterItself` is a call that leaves it alone.
* The subclass relation of abstract base classes reads as if it were transitive. It is not once an
  ordinary class is registered; `ClassGraph.TransitivityFails` gives the classes and
  `ClassGraph.SubTransitiveIff` the exact condition.
* Text that `datetime.fromisoformat` cannot read is to raise `ValueError` (`_pydatetime.py:1868-1870`,
  `cpython/Lib/test/datetimetester.py:3269-3303`). Text of exactly nine characters with a dash at
  index 4 and no `W` at index 5, and no other text, reaches an assertion instead
  (`_pydatetime.py:338`): `IsoText.FromIsoFormat` states the condition for all texts and
  `IsoText.OneDigitDay` gives one. `date.fromisoformat` checks the length first
  (`_pydatetime.py:998`), and `IsoText.DateFromIsoFormat` never gets there.
* Any single character may replace the `T` (`cpython/Doc/library/datetime.rst:1007`). A digit may not
  when the date is an extended week date with its weekday: the weekday is then taken for part of the
  time. `IsoForms.ReadForm` proves that this is the only exception, with the condition
  `IsoForms.Separates`, and `IsoForms.DigitSeparator` gives an input.
* Ordinal dates are documented as not supported (`cpython/Doc/library/datetime.rst:529-530`). Their
  basic form is seven digits, and `date.fromisoformat` reads seven digits as year, month and a one-digit
  day: `IsoForms.ReadOrdinal` says exactly when they are refused, `IsoForms.OrdinalMisread` gives a text
  that is not, and `IsoForms.DateGrammar` and `IsoForms.WeekGrammar` all the texts that are accepted.

## Model

| member | source | states |
|---|---|---|
| `Rounding.RoundRealHonours` | cpython/Lib/_pydecimal.py:1773-1838 | rounding a real in a mode gives an integer that satisfies that mode's law, and only that one: nearest with its tie rule, towards or away from zero, up, down, or the 05-up rule |
| `Rounding.DecideAgrees` | cpython/Lib/_pydecimal.py:1773-1838 | the rounding methods, which look only at the digit string, decide exactly as rounding the quotient by a power of ten does, for every mode and cut |
| `Decimals.Context.RaiseError` | cpython/Lib/_pydecimal.py:4038-4056 | a condition sets the flag its signal maps to, keeps the others, and yields its default result |
| `Decimals.Context.ShallowCopy` | cpython/Lib/_pydecimal.py:4022-4028 | the copy has equal settings and shares the flags of the original |
| `Decimals.Context.SetRounding` | cpython/Lib/_pydecimal.py:4089-4108 | returns the mode it replaces and changes nothing else |
| `Decimals.RoundDigits` | cpython/Lib/_pydecimal.py:1717-1729 | the digits kept and their correction are the coefficient rounded at the quantum, and the report of a change is right |
| `Decimals.FixDigits` | cpython/Lib/_pydecimal.py:1716-1749 | the rounding branch leaves the reference result and raises exactly the reference signals |
| `Decimals.Fix` | cpython/Lib/_pydecimal.py:1671-1761 | final rounding with overflow, subnormals, clamping and NaN payloads: result and flags are those of the reference functions, for every value and context |
| `ExactRounding.OverflowHonoursMode` | cpython/Lib/_pydecimal.py:375-388 | a value out of range becomes the infinity of its sign exactly if the law of the mode takes a magnitude just below 10**prec units of Etop up to it, and otherwise the largest finite number of its sign |
| `FixedPoints.LargestFits` | cpython/Lib/_pydecimal.py:375-388 | no finite value the context can hold is larger than that number |
| `FixedPoints.FixFits` | cpython/Lib/_pydecimal.py:1671-1761 | every finite result has at most prec digits, exponent at least Etiny, adjusted exponent at most Emax, and with clamp exponent at most Etop |
| `FixedPoints.FixFixedPoint` | cpython/Lib/_pydecimal.py:1671-1761 | fixing changes a value exactly when it does not meet the context; fixing a second time changes nothing, and signals at most Subnormal |
| `FixedPoints.FixExponent` | cpython/Lib/_pydecimal.py:1709-1761 | the exponent is raised exactly when there are too many digits or it is below Etiny, and then to Etiny or to full precision; it is lowered exactly when clamped, to Etop; otherwise it is kept |
| `FixedPoints.FixOnly` | cpython/Lib/_pydecimal.py:1709-1761 | with sign, magnitude and range that leaves one possible result |
| `FixedPoints.RoundedAndClamped` | cpython/Lib/_pydecimal.py:1734-1759 | Rounded is raised exactly on overflow or when the exponent is raised; Clamped exactly when the result is zero or its exponent is lowered |
| `FixedPoints.FixZero` | cpython/Lib/_pydecimal.py:1689-1700 | a zero keeps its sign and takes the nearest exponent in range, with Clamped exactly if that is another one |
| `FixedPoints.FixNaNDigits` | cpython/Lib/_pydecimal.py:1659-1669 | a NaN keeps sign and kind, and of a payload that is too long the last digits |
| `FixedPoints.FittingIsKept` | cpython/Lib/_pydecimal.py:1755-1761 | a value that meets the context is returned unchanged, without a rounding signal |
| `ExactRounding.MagnitudeLeads` | cpython/Lib/_pydecimal.py:2917-2923 | a nonzero coefficient's leading digit stands at the adjusted exponent |
| `ExactRounding.FixRoundedAt` | cpython/Lib/_pydecimal.py:1671-1761 | fixing d is rounding its value, as a real number, at the last place the context allows, with Overflow, Inexact, Subnormal and Underflow raised exactly when that rounding overflows, changes the value, or is tiny, and Rounded whenever Inexact is; an overflow gives infinity or the largest finite number as rounding a magnitude just out of range does |
| `ExactRounding.FixCorrect` | cpython/Lib/_pydecimal.py:1671-1761 | fixing a nonzero decimal is correct rounding of its exact value |
| `Sticky.StickyFix` | cpython/Lib/_pydecimal.py:1671-1761 | the sticky interval: an integer stand-in with more than prec digits, strictly between two neighbouring multiples of five, is fixed as every real in that interval is correctly rounded, signals included |
| `Sticky.StickyTwins` | cpython/Lib/_pydecimal.py:1671-1761 | two decimals in one such interval are fixed to the identical result with identical signals |
| `Addition.Normalize` | cpython/Lib/_pydecimal.py:5654-5680 | brings two working values to one exponent; the lower one becomes a single unit exactly when it is below the cut-off |
| `Addition.NormalizeSound` | cpython/Lib/_pydecimal.py:5654-5680 | the sum of the normalized operands is fixed exactly like the exact sum, cancellation below a power of ten included |
| `Addition.Combine` | cpython/Lib/_pydecimal.py:1220-1249 | adds or subtracts the magnitudes with the sign of the larger |
| `Addition.CheckNaNs` | cpython/Lib/_pydecimal.py:755-785 | the NaN an operation on two values returns: first signaling, then quiet, left before right, and the flag for a signaling one |
| `Addition.AddFinite` | cpython/Lib/_pydecimal.py:1192-1251 | adding finite values gives the exact sum, fixed, with exactly its signals |
| `Addition.AddNonzero` | cpython/Lib/_pydecimal.py:1216-1251 | so it does for nonzero operands at any distance of exponents, through the normalized pair |
| `Addition.AddToZero` | cpython/Lib/_pydecimal.py:1205-1214 | so it does for a zero operand, rescaled at most prec + 1 places |
| `Addition.Add` | cpython/Lib/_pydecimal.py:1167-1251 | the whole operation: the fixed sum of two finite values at the lower exponent, a zero sum with the sign of both operands or, when they differ, negative only when rounding to minus infinity; and NaNs and infinities in each case |
| `Addition.SumUnique` | cpython/Lib/_pydecimal.py:1192-1251 | only one decimal has that value, exponent and sign |
| `Addition.ExactSumIsSum` | cpython/Lib/_pydecimal.py:1192-1251 | the exact sum is that decimal |
| `Addition.CancellingSum` | cpython/Lib/_pydecimal.py:1194-1225 | operands that cancel leave a zero of the lower exponent, negative exactly if both are, or if the signs differ and the mode is towards minus infinity |
| `Addition.ExactSumValue` | cpython/Lib/_pydecimal.py:1167-1251 | the exact sum is the sum of the two values as reals |
| `Addition.SumCorrectlyRounded` | cpython/Lib/_pydecimal.py:1167-1251 | addition is correctly rounded: the fixed sum is the correct rounding of the real sum, in all eight modes |
| `Division.Divide` | cpython/Lib/_pydecimal.py:1334-1391 | division is correctly rounded: the result is the correct rounding of the real quotient; an exact one is as near to the ideal exponent as its digits allow; each special operand gives its result and flags |
| `Division.DivideCoefs` | cpython/Lib/_pydecimal.py:1366-1388 | the quotient of the coefficients, nudged off a last digit 0 or 5 when inexact, or stripped towards the ideal exponent when exact |
| `Division.QuotientDigits` | cpython/Lib/_pydecimal.py:1371-1378 | the floor quotient has at least prec + 1 digits |
| `Division.NudgedQuotient` | cpython/Lib/_pydecimal.py:1379-1382 | the nudged quotient is fixed as the real quotient is correctly rounded |
| `SquareRoot.FloorSqrt` | cpython/Lib/_pydecimal.py:2793-2800 | Newton's loop from above ends at the floor of the square root |
| `SquareRoot.Prepare` | cpython/Lib/_pydecimal.py:2767-2791 | the coefficient, shifted to prec + 1 base-100 digits or cut to them, with a report of whether the cut was exact |
| `SquareRoot.RootOfShifted` | cpython/Lib/_pydecimal.py:2803-2810 | when a padded coefficient is a perfect square its root ends in as many zeros as were padded pairs, so the exact root can be shifted back |
| `SquareRoot.Sqrt` | cpython/Lib/_pydecimal.py:2727-2822 | square root is rounded half-even in a copy of the context that shares its flags: the value handed to the final rounding is the root itself at the ideal exponent, or stands for everything between two neighbouring units the root lies between; special operands give the stated results |
| `SquareRoot.RootRoundedReal` | cpython/Lib/_pydecimal.py:2753-2822 | consequently the result is the correct rounding of any nonnegative real whose square is the operand |
| `NearestRoot.SqrtNearest` | cpython/Lib/_pydecimal.py:5707-5720 | from every positive start the iteration ends, at the unique k with k*k - k < n <= k*k + k; otherwise ValueError |
| `NearestRoot.NearestUnique` | cpython/Lib/_pydecimal.py:5707-5713 | only one integer is closest |
| `IntegerRoots.Tangent` | cpython/Lib/_pydecimal.py:2263-2270 | t**n is at least a**(n-1) * (n*t - (n-1)*a): the reason the iteration never passes the root |
| `IntegerRoots.FloorRoot` | cpython/Lib/_pydecimal.py:2263-2270 | the iteration from 2**ceil(nbits/n) ends at the floor of the n-th root |
| `IntegerRoots.ExactRoot` | cpython/Lib/_pydecimal.py:2263-2273 | a root is returned exactly when the number is an n-th power, so rejecting means it is none |
| `IntegerRoots.FewBitsNoPower` | cpython/Lib/_pydecimal.py:2255-2257 | a number above 1 with at most n bits is no n-th power |
| `PrimePowers.PowerOfTwoTest` | cpython/Lib/_pydecimal.py:2157-2161 | c & -c == c exactly for the powers of two, whose exponent is one less than the bit length |
| `PrimePowers.PowerOfFive` | cpython/Lib/_pydecimal.py:2202-2211 | the test by dividing 5**e by c accepts exactly the powers of five, of any size, and finds the exponent |
| `PrimePowers.Log10LbBelow` | cpython/Lib/_pydecimal.py:6016-6023 | 10**lb <= c**100: the bound is a lower bound for every positive c |
| `PrimePowers.Log10LbPositive` | cpython/Lib/_pydecimal.py:2280-2281 | the bound is positive for c > 1, so the program never divides by zero |
| `StrippedDecimals.LshiftCorrect` | cpython/Lib/_pydecimal.py:5686-5705 | n * 10**e when that is an integer, and None exactly when it is not |
| `StrippedDecimals.StripZeros` | cpython/Lib/_pydecimal.py:2119-2130 | trailing zeros move from the coefficient to the exponent |
| `StrippedDecimals.IntegerIff` | cpython/Lib/_pydecimal.py:2902-2909 | a value is an integer exactly when its stripped exponent is not negative, and then int() gives it |
| `RootTheory.RationalRoot` | cpython/Lib/_pydecimal.py:2085-2088 | a whole number with a rational q-th root has a whole one |
| `RootTheory.RootExists` | cpython/Lib/_pydecimal.py:2085-2088 | if v**n is c**m with m/n in lowest terms, c is an n-th power |
| `RootTheory.ExponentDivides` | cpython/Lib/_pydecimal.py:2085-2088 | and if f*n is e*m then n divides e |
| `RootTheory.PrimePowerDivisor` | cpython/Lib/_pydecimal.py:2088-2090 | what divides a power of ten and does not end in zero is a power of two or of five |
| `PowerLimits.UnitImpossible` | cpython/Lib/_pydecimal.py:2132-2141 | a power of ten raised to y that leaves a fractional exponent is no decimal |
| `PowerLimits.NoInverse` | cpython/Lib/_pydecimal.py:2088-2090 | for a negative exponent the coefficient must be a power of two or of five |
| `PowerLimits.InvertedForced` | cpython/Lib/_pydecimal.py:2163-2200 | then both exact shifts the program makes exist, and give the coefficient of any such power |
| `PowerLimits.BeyondEmax` | cpython/Lib/_pydecimal.py:2175-2188 | beyond emax the power of the other factor has more than p digits |
| `PowerLimits.TooFineForExponent` | cpython/Lib/_pydecimal.py:2240-2241 | the first cheap test rejects only exponents with no exact power |
| `PowerLimits.TooFineForBits` | cpython/Lib/_pydecimal.py:2242-2244 | so does the second |
| `PowerLimits.NoRoot` | cpython/Lib/_pydecimal.py:2253-2273 | without an n-th root of the coefficient, or with an exponent n does not divide, there is no exact power |
| `PowerLimits.TooLarge` | cpython/Lib/_pydecimal.py:2275-2285 | a power above 10**p has more than p digits however it is written |
| `PowerExact.EmaxFive` | cpython/Lib/_pydecimal.py:2175-2188 | 93/65 is steep enough for powers of five |
| `PowerExact.EmaxTwo` | cpython/Lib/_pydecimal.py:2213-2216 | 10/3 is steep enough for powers of two |
| `PowerExact.UnitPower` | cpython/Lib/_pydecimal.py:2132-2150 | powers of a power of ten: the power, within p digits, as near as possible to the ideal exponent, or None when there is none |
| `PowerExact.Inverted` | cpython/Lib/_pydecimal.py:2192-2234 | the shared part for powers of two and five; the result has no trailing zeros |
| `PowerExact.NegativePower` | cpython/Lib/_pydecimal.py:2152-2234 | negative exponents: the power within p digits, or None when there is none |
| `PowerExact.Reduced` | cpython/Lib/_pydecimal.py:2245-2251 | removing the common factors two and five keeps the ratio and leaves lowest terms |
| `PowerExact.OutOfReach` | cpython/Lib/_pydecimal.py:2278-2281 | the early test on the exponent rejects only powers above 10**p |
| `PowerExact.Raise` | cpython/Lib/_pydecimal.py:2275-2296 | the last part: gives up exactly when the coefficient exceeds 10**p, and never pads by a negative number of zeros |
| `PowerExact.RootAndPower` | cpython/Lib/_pydecimal.py:2253-2296 | fractional exponents through an exact root |
| `PowerExact.PositivePower` | cpython/Lib/_pydecimal.py:2236-2296 | positive exponents: the power within p digits, as near as possible to the ideal exponent for an integer, or None when there is none |
| `PowerExact.PowerExact` | cpython/Lib/_pydecimal.py:2061-2296 | the whole method: a returned v satisfies v**n = x**m, or v**n * x**m = 1 for a negative exponent, whenever the exponent is m/n; None is returned if and only if no decimal of at most p digits does; the exponent is as near as possible to the ideal one for a positive integer y, and otherwise the coefficient ends in no zero |
| `DecimalText.FromText` | cpython/Lib/_pydecimal.py:559-593 | text that spells a number, an infinity or a NaN in the grammar of the parser sets that value and raises nothing; all other text raises InvalidOperation and gives a NaN |
| `DecimalText.ReadGrammar` | cpython/Lib/_pydecimal.py:6131-6148 | without outer blanks and underscores, text is read exactly if it is an optional sign followed by a number, by inf or infinity, or by nan, perhaps after an s and before payload digits, all in any case of letters, and it then has the one value those parts mean |
| `PythonText.StripMeans` | cpython/Lib/_pydecimal.py:560 | stripping takes away the blanks at both ends, all of them and nothing else |
| `PythonText.WithoutMeans` | cpython/Lib/_pydecimal.py:560 | removing underscores removes every one and keeps the other characters in order |
| `DecimalText.NumberGrammar` | cpython/Lib/_pydecimal.py:6131-6148 | its unsigned finite part: left-to-right reading accepts exactly the numeric strings, digits with an optional point and exponent and at least one digit, each with the value of its parts |
| `DecimalPrinted.StrMeans` | cpython/Lib/_pydecimal.py:1036-1091 | the printed text of a finite decimal is the one with its sign, its digits without superfluous zeros, the point where the printed exponent puts it, and that exponent: none from 0 down to six places right of the point, that of the leading digit in scientific form, and in engineering form the multiple of three that leaves one to three digits before the point |
| `DecimalPrinted.StrSpecial` | cpython/Lib/_pydecimal.py:1047-1055 | infinities and NaNs are printed by name, with the payload unless it is zero |
| `DecimalRoundTrip.RoundTrip` | cpython/Lib/_pydecimal.py:1036-1091 | reading the scientific form of any decimal, infinities and NaNs with payload included, gives back the identical decimal |
| `DecimalRoundTrip.EngineeringKeepsValue` | cpython/Lib/_pydecimal.py:1041-1091 | reading the engineering form gives the same sign and value, with an exponent at most two lower |
| `DecimalRoundTrip.EngineeringExponent` | cpython/Lib/_pydecimal.py:1057-1074 | the exponent the engineering form prints is a multiple of three, with one to three digits before the point |
| `BigDivision.Div2n1n` | cpython/Lib/_pylong.py:166-193 | recursive division gives quotient and remainder for every bit count, through padding and both recursion branches, for any limit of at least 1 |
| `BigDivision.DivHalves` | cpython/Lib/_pylong.py:186-193 | the two half-size steps |
| `BigDivision.Div3n2n` | cpython/Lib/_pylong.py:196-206 | three digits by two, and the correction loop runs at most twice |
| `BigDivision.EstimateWithinTwo` | cpython/Lib/_pylong.py:196-206 | the quotient estimate is at most two too large |
| `BigDigits.SplitInto` | cpython/Lib/_pylong.py:224-233 | writes exactly the digits of x, least significant first, into its part of the array and leaves the rest |
| `BigDigits.Int2Digits` | cpython/Lib/_pylong.py:209-237 | digits below 2**n with a nonzero top digit, in place, whose value is the number |
| `BigDigits.CanonicalUnique` | cpython/Lib/_pylong.py:209-217 | no other digit sequence of that form has this value |
| `BigDigits.Digits2Int` | cpython/Lib/_pylong.py:240-252 | the inverse: the value of any digit sequence |
| `BigDigits.Resplit` | cpython/Lib/_pylong.py:209-252 | splitting what was joined gives the digits back |
| `BigDigits.DivmodPos` | cpython/Lib/_pylong.py:255-269 | grade-school division over those digits: quotient and remainder, the remainder below b after every digit |
| `BigDigits.IntDivmod` | cpython/Lib/_pylong.py:272-285 | floor division for every combination of signs, the remainder taking the sign of the divisor, and ZeroDivisionError for zero |
| `BigDigits.FloorUnique` | cpython/Lib/_pylong.py:272-285 | only one quotient and remainder satisfy that |
| `BigParse.PowerMemo.W5Pow` | cpython/Lib/_pylong.py:105-124 | a remembered power of five, the memo staying true through all three branches |
| `BigParse.PowerMemo.Inner` | cpython/Lib/_pylong.py:126-131 | the value of a slice of the digits |
| `BigParse.TenPower` | cpython/Lib/_pylong.py:88-103 | multiplying by 10**k is multiplying by 5**k and shifting by k |
| `BigParse.StrToInt` | cpython/Lib/_pylong.py:88-132 | the whole conversion gives the decimal value of every nonempty digit string, for any limit of at least 1 |
| `Calendar.Ord2Ymd` | cpython/Lib/_pydatetime.py:95-155 | for every integer ordinal a valid date with that ordinal |
| `Calendar.MonthEstimate` | cpython/Lib/_pydatetime.py:141-150 | the estimate (n + 50) >> 5 is the month or one too large |
| `Calendar.MonthLengths` | cpython/Lib/_pydatetime.py:37-65 | the month tables: thirty-one and thirty days take turns and begin again in August, February has what is left of the year, and day 1 is 1 January of year 1 |
| `Calendar.OrdinalsInOrder` | cpython/Lib/_pydatetime.py:70-76 | ordinals are strictly increasing in (year, month, day), so no two dates share one and date order is ordinal order |
| `Calendar.DateOfOrdinalOfDate` | cpython/Lib/_pydatetime.py:70-155 | ordinal and back gives every valid date again |
| `IsoWeek.YearsOf53Weeks` | cpython/Lib/_pydatetime.py:469-487 | the test for week 53 accepts exactly the years whose week-1 Mondays are 371 days apart |
| `IsoWeek.NameUnique` | cpython/Lib/_pydatetime.py:1188-1214 | a day has only one ISO name |
| `IsoWeek.IsoCalendar` | cpython/Lib/_pydatetime.py:1188-1214 | the year, week and weekday name the day |
| `IsoWeek.IsoWeekToGregorian` | cpython/Lib/_pydatetime.py:469-498 | the day with that ISO name, or ValueError exactly when the year, week or weekday is out of range |
| `IsoWeek.DateToIsoAndBack` | cpython/Lib/_pydatetime.py:469-498 | from a date to its ISO name and back, for every date of the years 1 to 9999 |
| `IsoWeek.IsoToDateAndBack` | cpython/Lib/_pydatetime.py:469-498 | from a valid ISO name to the date and back |
| `LocalTime.FromTimestamp` | cpython/Lib/_pydatetime.py:1773-1793 | the fields shown, and fold exactly for the second reading of a repeated time |
| `LocalTime.Mktime` | cpython/Lib/_pydatetime.py:1896-1928 | the resolved instant for every field value and fold, with one transition of at most a day |
| `LocalTime.ResolveUnique` | cpython/Lib/_pydatetime.py:1896-1928 | a time shown once resolves to the instant that shows it, whatever the fold |
| `LocalTime.ResolveAmbiguous` | cpython/Lib/_pydatetime.py:1896-1928 | fold 0 and 1 pick the earlier and the later instant of a repeated time |
| `LocalTime.ResolveGap` | cpython/Lib/_pydatetime.py:1896-1928 | a skipped time has no instant; fold 0 and 1 use the offset before and after the transition |
| `LocalTime.RoundTrip` | cpython/Lib/_pydatetime.py:1773-1928 | the instant of the fields and fold shown at u is u |
| `LocalTime.ThereAndBack` | cpython/Lib/_pydatetime.py:1773-1928 | so the two methods in a row return every timestamp |
| `LocalTime.BackAndThere` | cpython/Lib/_pydatetime.py:1773-1928 | and the other way round every shown time comes back, with its fold where it is repeated |
| `Durations.New` | cpython/Lib/_pydatetime.py:605-704 | integer parts are carried into one valid duration with their exact total, or OverflowError exactly when no valid duration has that total |
| `Durations.OrderIsTotalOrder` | cpython/Lib/_pydatetime.py:879-881 | comparing durations part by part compares the time they stand for |
| `Durations.InRangeIff` | cpython/Lib/_pydatetime.py:692-697 | the totals valid durations have |
| `Durations.Add` | cpython/Lib/_pydatetime.py:753-760 | the sum of the totals, or OverflowError |
| `Durations.Negate` | cpython/Lib/_pydatetime.py:778-783 | the negated total; it fails exactly above 999999999 days |
| `Durations.DivideAndRound` | cpython/Lib/_pydatetime.py:563-580 | the nearest integer to a/b, the even one of two, for either sign of b |
| `Durations.NearestEvenUnique` | cpython/Lib/_pydatetime.py:563-568 | only one integer is that |
| `Durations.DivideByInt` | cpython/Lib/_pydatetime.py:825-829 | division by an integer to the nearest microsecond; ZeroDivisionError exactly for zero, and for a valid duration OverflowError exactly when dividing by -1 what is longer than 999999999 days |
| `IsoText.ParseHhMmSsFf` | cpython/Lib/_pydatetime.py:374-419 | the loop computes the reading `IsoForms.ClockGrammar` describes, ValueError included |
| `IsoForms.ClockGrammar` | cpython/Lib/_pydatetime.py:374-419 | a clock time is read exactly if it is hours, perhaps minutes, perhaps seconds, each two characters that int() takes, separated by colons or by nothing throughout, and after seconds perhaps a point or comma and digits; and it gives just those values |
| `IsoForms.FractionValue` | cpython/Lib/_pydatetime.py:400-419 | a fraction of any length gives whole microseconds: fewer than six digits are scaled up, more are cut |
| `IsoForms.ClockFormReads` | cpython/Lib/_pydatetime.py:374-419 | every clock time written in two-digit parts, with or without colons, with a fraction of any length, reads as its value |
| `IsoText.ParseIsoTime` | cpython/Lib/_pydatetime.py:422-466 | computes the reading `IsoForms.ZoneGrammar` describes |
| `IsoForms.ZoneGrammar` | cpython/Lib/_pydatetime.py:422-466 | a time is read exactly if it is a clock time alone, or a clock time followed by Z at the end, or by a sign and a clock time of less than a day; the sign that counts is the first minus, or else the first plus |
| `IsoForms.ZoneReads` | cpython/Lib/_pydatetime.py:422-466 | a clock time followed by nothing, Z or an offset reads as that time with that zone, and fails exactly if the clock time does or the offset is a day or more |
| `IsoText.FindSeparator` | cpython/Lib/_pydatetime.py:278-332 | the position where the date ends: for each documented form of a date the text may start with, the split falls right behind it exactly if what follows is allowed there; and the search fails in exactly one family |
| `IsoText.SeparatorEndsDate` | cpython/Lib/_pydatetime.py:278-332 | the same, form by form, as a statement about the search |
| `IsoText.ParseDate` | cpython/Lib/_pydatetime.py:335-371 | a text in calendar form gives its fields, one in week form the day with that ISO name, or ValueError when a field is no number, the dashes are inconsistent or there is no such day; a wrong length reaches the assertion |
| `IsoForms.DateGrammar` | cpython/Lib/_pydatetime.py:335-371 | which texts without a W are read as a date, and as which: year, month and day with two dashes in ten characters, or without dashes, where the day may be one character and anything after the eighth is ignored |
| `IsoForms.WeekGrammar` | cpython/Lib/_pydatetime.py:335-371 | the same for ISO year, week and weekday |
| `IsoForms.ReadOrdinal` | cpython/Lib/_pydatetime.py:993-1005 | seven digits, an ordinal date in ISO 8601, are read as year, month and one-digit day, and refused exactly when that is no date |
| `IsoForms.OrdinalMisread` | cpython/Lib/_pydatetime.py:362-371 | one such text |
| `PythonText.PyIntGrammar` | cpython/Lib/_pydatetime.py:339 | what these readers rely on of int(): an optional sign and digits with single underscores between them, among blanks, and nothing else |
| `IsoText.ReadsAsOne` | cpython/Lib/_pydatetime.py:335-371 | no text reads as two dates |
| `IsoForms.WrittenDateReads` | cpython/Lib/_pydatetime.py:335-371 | every date written in one of the six documented forms reads as the date it means, or fails exactly where it means none |
| `IsoText.FromIsoFormat` | cpython/Lib/_pydatetime.py:1852-1881 | reads a whole timestamp or reports the error; the assertion is reached exactly by nine characters with a dash at index 4 and no W at index 5 |
| `IsoText.OneDigitDay` | cpython/Lib/_pydatetime.py:335-339 | one such text |
| `IsoText.DateFromIsoFormat` | cpython/Lib/_pydatetime.py:993-1005 | for a date alone the length is checked first, and no text reaches the assertion |
| `IsoForms.ReadForm` | cpython/Lib/_pydatetime.py:1852-1881 | a date in any documented form, a separating character, a clock time in any documented form and a zone read as date, time and offset; when there is such a timestamp this holds exactly if the separator is no digit behind an extended week date with weekday |
| `IsoForms.DigitSeparator` | cpython/Lib/_pydatetime.py:292-305 | there it fails: the weekday and the digit are read as the hour |
| `IsoForms.ReadDateForm` | cpython/Lib/_pydatetime.py:1852-1881 | a date alone, in any documented form, is midnight of that day |
| `IsoPrinted.IsoFormatMeans` | cpython/Lib/_pydatetime.py:2040-2065 | the printed text is the one with the date in ten characters, the separator, the time in 2, 5, 8, 12 or 15 characters as asked, or in 8 or 15 as it has microseconds, and an offset of 0, 6, 9 or 16 characters, with each character in its place |
| `IsoPrinted.FormatTimeShape` | cpython/Lib/_pydatetime.py:168-186 | the time part by itself |
| `IsoPrinted.FormatOffsetShape` | cpython/Lib/_pydatetime.py:189-205 | the offset part by itself |
| `IsoRoundTrip.ReadPrintedTime` | cpython/Lib/_pydatetime.py:168-186 | reading a printed time gives its fields, cut to the precision printed |
| `IsoRoundTrip.ReadPrintedZoned` | cpython/Lib/_pydatetime.py:189-205 | reading a printed offset gives it to the microsecond, with its sign |
| `IsoRoundTrip.ReadPrinted` | cpython/Lib/_pydatetime.py:1852-1881 | reading what was printed gives date, time and offset back, cut to the precision printed |
| `IsoRoundTrip.AutoKeepsAll` | cpython/Lib/_pydatetime.py:168-186 | reading a time printed in the automatic precision gives it back whole |
| `IsoRoundTrip.PrintAndRead` | cpython/Lib/_pydatetime.py:2040-2065 | printing and reading in a row, for every valid timestamp, separator and precision |
| `Paths.OneMoreAcyclic` | cpython/Lib/_py_abc.py:54-70 | one more edge keeps a graph free of cycles exactly if its target did not reach its source |
| `Paths.DeadEndReach` | cpython/Lib/_py_abc.py:35-52 | a node without outgoing edges changes no path between the others |
| `ClassGraph.BelowStep` | cpython/Lib/_py_abc.py:131-144 | one step of the check, ancestors, registered classes, subclasses, decides the relation |
| `ClassGraph.SubReflexive` | cpython/Lib/_py_abc.py:131-144 | every class is a subclass of itself |
| `ClassGraph.SubTransitiveIff` | cpython/Lib/_py_abc.py:131-144 | when b is a subclass of c, every subclass of b is one of c exactly if the classes registered below b are |
| `ClassGraph.SubTransitive` | cpython/Lib/_py_abc.py:131-144 | the relation is transitive when only abstract base classes are registered |
| `ClassGraph.TransitivityFails` | cpython/Lib/_py_abc.py:54-70 | with a registered ordinary class it is not: two registrations, neither refused, after which 3 is a subclass of 1 and 1 of 2 but not 3 of 2 |
| `ClassGraph.RegisterKeepsAcyclic` | cpython/Lib/_py_abc.py:61-70 | registering s with c when c is not a subclass of s keeps the graph free of cycles; without that test, among abstract base classes, it closes one; and no subclass is ever lost |
| `ClassGraph.RegisteredSub` | cpython/Lib/_py_abc.py:54-70 | registering s with c makes exactly these new answers: every subclass of s becomes one of every class from which c can be reached |
| `ClassGraph.CreatedKeeps` | cpython/Lib/_py_abc.py:35-52 | a new class closes no cycle and changes no answer about the classes that were there; it is a subclass of itself and of exactly what one of its bases is a subclass of, and nothing else is a subclass of it |
| `AbcCache.World.constructor` | cpython/Lib/_py_abc.py:27-33 | the empty world |
| `AbcCache.World.NewClass` | cpython/Lib/_py_abc.py:35-52 | a class statement extends the graph; a new abstract base class starts with empty tables of the current version; the new class is a subclass of itself and of exactly what its bases are subclasses of; the invariant is kept |
| `AbcCache.World.SubclassCheck` | cpython/Lib/_py_abc.py:108-147 | whatever the caches hold, the check answers as uncached reachability does, ends, keeps every cache entry true, and remembers the answer |
| `AbcCache.World.CacheLookup` | cpython/Lib/_py_abc.py:113-120 | a cached answer is right, and an outdated negative cache is thrown away |
| `AbcCache.World.Search` | cpython/Lib/_py_abc.py:131-144 | past the caches: ancestors, registered classes, subclasses |
| `AbcCache.World.AnyBelow` | cpython/Lib/_py_abc.py:135-144 | the two loops with their recursive calls |
| `AbcCache.World.InstanceCheck` | cpython/Lib/_py_abc.py:92-106 | isinstance answers for the claimed or the actual class, through the same caches |
| `AbcCache.World.Register` | cpython/Lib/_py_abc.py:54-70 | registers, reports a subclass already there, refuses a cycle, or rejects what is no class, each exactly in its case; the counter moves exactly when the registry does; no answer turns from yes to no, and those that turn to yes are named |
| `AbcCache.World.RegisterItself` | cpython/Lib/_py_abc.py:54-70 | registering a class with itself succeeds and leaves graph and counter alone |
| `AbcCache.World.CachesClear` | cpython/Lib/_py_abc.py:87-90 | clearing the caches of one class keeps the invariant, so no answer changes |

## Left out

- Traps, ignored flags, thread-local contexts and the `Context` wrapper methods: no signal is trapped and every flag is recorded.
- The `FloatOperation` signal, conversions to and from floats, `__format__`, logical, shift and rotate operations, comparisons and `fma`.
- `exp`, `ln`, `log10` and the inexact part of `__pow__`: their error bounds need real analysis that is not developed here.
- `__pow__` around the exact power: special operands, the result's sign and the extra signals for a fractional exponent.
- Text beyond ASCII: digits, letters and white space outside ASCII, and the interpreter's limit on the length of digit strings.
- Addition.Add: subclass handling and operands of other types (`NotImplemented`).
- `int_to_decimal`, `int_to_decimal_string` and the `decimal`-based conversions of `_pylong.py`.
- BigDigits.Digits2Int: the digits are a sequence of values; the recursion joins slices by index as the program does, and shares no storage.
- `strftime`, `strptime`, pickling, hashing and the platform calls behind local time: the offset of local time is a parameter with one transition; a second transition within `2 * Reach() + MAX_FOLD_SECONDS` seconds of the instant is not modelled.
- LocalTime.FromTimestamp: fractions of a second, the limits on years, and the early return on Windows.
- IsoText.FromIsoFormat: `fold` is not part of the text, and UTC and a zero offset are one value; a `tzinfo` other than a fixed offset is not modelled.
- Durations.New: float arguments.
- `datetime` and `date` arithmetic beyond ordinals.
- `__abstractmethods__`, `__subclasshook__` overrides, reassignment of `__bases__`, weak references that disappear and `_abc_registry_clear`: each can make a cached answer out of date, and the model assumes there are none.
- AbcCache.World.NewClass: ancestors are a set; the order of the MRO and the errors it can raise are not part of the model.
