# Fraction calculator: the exact-fraction type

This project models `Fraction`, the exact-rational value type of a small
macOS fraction calculator, and proves what it promises. A fraction is a pair of
integers built only through the designated initialiser. That initialiser moves
the sign onto the numerator, then searches downward from the denominator for
the largest number dividing both parts and divides it out. So every stored pair
has a positive denominator and is in lowest terms. The four arithmetic
operations, their static forms and their integer-operand overloads all build
their result through that initialiser. `readFromString` turns `"a"` or `"a/b"`
into a fraction, and `description` produces the display text.

Layout:

- `divisibility.dfy` (module `Divisibility`): divisibility, Euclid's gcd, its
  greatest-common-divisor property, Bezout's identity and Euclid's lemma. These
  are the reference facts the reduction is proved against.
- `text.dfy` (module `Text`): stand-ins for the Foundation calls the parser
  uses. `Split` models `components(separatedBy:)`, `ParseInt` models
  `Int(String)` (an optional sign followed by decimal digits), and
  `IntToString` models the interpolation of an `Int` into a string.
- `fraction.dfy` (module `Fractions`): the `Fraction` datatype with its
  invariant `Valid()` and its exact value `Value()` (a ghost `real`), and the
  designated initialiser twice over. `Normalize` states it with Euclid's gcd;
  `Create` runs the source's downward search loop with its `break` and is
  proved equal to `Normalize`. The module also holds the arithmetic, the static
  forms, `ParseFraction` with the method `ReadFromString` proved equal to it,
  and the display text.
- `fraction_laws.dfy` (module `FractionLaws`): lemmas relating these members:
  canonical form, arithmetic laws, the parser's accept/reject rules and the
  display round trip.

Modelling decisions:

- The stored fields are immutable `let`s, so a fraction is a datatype value.
  Members that take a fraction require `Valid()`, because the designated
  initialiser establishes that for every object the source can create.
- Arithmetic functions call `Normalize`, the functional form of the
  initialiser, because a Dafny function cannot call the loop method `Create`.
  `Create` is proved to compute exactly `Normalize`.
- The source's `%` and `/` truncate toward zero, while Dafny's are Euclidean.
  In the reduction loop the divisor is positive and, when the division happens,
  it divides exactly. The zero test and the quotients therefore agree, so the
  loop uses Dafny's operators. The display text's `num % den` is written out as
  `TruncatedRemainder`.
- The initialiser's `assert(den != 0)` is a `requires` of `Normalize` and
  `Create`. For `readFromString`, where `"a/0"` reaches that assertion, the
  result type `ReadResult` reports it as `ZeroDenominator` instead of a
  fraction. Unparsable text gives `NotAFraction` (the source's `nil`).
- The source reads at most two `/`-separated pieces. A third piece and
  anything after it are ignored, and `ReadIgnoresTail` states this quirk.
- For `description`, the two integer branches are modelled as written. The
  third branch is modelled twice; see Findings.

## Model

| member | source | states |
|---|---|---|
| `Fractions.Normalize` | FractionCalculator/FractionCalculator/Fraction.swift:74-110 | for a nonzero denominator, the result has a positive denominator, is in lowest terms (Euclid gcd of the parts is 1), and has the input's value: equal cross products and equal rational `Value()` |
| `Fractions.Create` | FractionCalculator/FractionCalculator/Fraction.swift:74-110 | the sign flip and the downward `for` search with `break` compute exactly `Normalize`; the loop invariant is that no candidate above the current one divides both parts |
| `Fractions.SearchFindsGcd` | FractionCalculator/FractionCalculator/Fraction.swift:95-104 | the first common divisor met going down from the denominator is Euclid's gcd of the two parts |
| `Divisibility.GcdIsGreatest` | FractionCalculator/FractionCalculator/Fraction.swift:95-104 | every positive common divisor is at most the gcd, which is what the downward search relies on |
| `Fractions.ReduceByGcd` | FractionCalculator/FractionCalculator/Fraction.swift:95-107 | for a positive denominator, the gcd divides both parts, and the quotients are in lowest terms with the same ratio |
| `Fractions.ZeroHasUnitDenominator` | FractionCalculator/FractionCalculator/Fraction.swift:42-47 | a constructed fraction with numerator 0 has denominator 1, so 0/d is stored as 0/1 |
| `FractionLaws.ZeroNumerator` | FractionCalculator/FractionCalculator/Fraction.swift:95-107 | constructing 0 over any nonzero denominator gives `init()`'s 0/1 |
| `FractionLaws.NormalizeSignSymmetric` | FractionCalculator/FractionCalculator/Fraction.swift:85-94 | n/d and -n/-d construct the same fraction |
| `FractionLaws.NormalizeKeepsValid` | FractionCalculator/FractionCalculator/Fraction.swift:74-110 | constructing from an already constructed fraction's parts gives it back |
| `FractionLaws.CanonicalForm` | FractionCalculator/FractionCalculator/Fraction.swift:74-110 | two constructed fractions with equal cross products are the same pair |
| `FractionLaws.NormalizeEqualIff` | FractionCalculator/FractionCalculator/Fraction.swift:74-110 | two inputs construct the same fraction if and only if they stand for the same rational |
| `FractionLaws.ValueDeterminesFraction` | FractionCalculator/FractionCalculator/Fraction.swift:74-110 | a constructed fraction is determined by its rational value |
| `Fractions.CrossFromValue` | FractionCalculator/FractionCalculator/Fraction.swift:79-107 | two pairs with nonzero denominators have equal rational values exactly when their cross products agree |
| `Fractions.FromInt` | FractionCalculator/FractionCalculator/Fraction.swift:123-125 | `init(num:)` yields exactly num/1, which is valid |
| `Fractions.Zero` | FractionCalculator/FractionCalculator/Fraction.swift:57-63 | `init()` yields the same fraction as `init(num: 0)`, that is 0/1 |
| `Fractions.Fraction.Add` | FractionCalculator/FractionCalculator/Fraction.swift:136-139 | the result is valid and its value is the exact sum |
| `Fractions.Fraction.Subtract` | FractionCalculator/FractionCalculator/Fraction.swift:148-151 | the result is valid and its value is the exact difference self − f |
| `Fractions.Fraction.Multiply` | FractionCalculator/FractionCalculator/Fraction.swift:160-162 | the result is valid and its value is the exact product |
| `Fractions.Fraction.Divide` | FractionCalculator/FractionCalculator/Fraction.swift:171-173 | for a divisor with nonzero numerator (else the new denominator is 0), the result is valid and its value is the exact quotient |
| `Fractions.AddTo` | FractionCalculator/FractionCalculator/Fraction.swift:183-186 | the static form, with its own expression, equals the instance `add` |
| `Fractions.SubtractFrom` | FractionCalculator/FractionCalculator/Fraction.swift:196-198 | `subtract(f1, from: f2)` is valid and has value f2 − f1 (operand order reversed) |
| `Fractions.MultiplyBy` | FractionCalculator/FractionCalculator/Fraction.swift:208-210 | the static form is valid and has value f1 × f2 |
| `Fractions.DivideBy` | FractionCalculator/FractionCalculator/Fraction.swift:220-222 | the static form, for a divisor with nonzero numerator, is valid and has value f1 ÷ f2 |
| `Fractions.Fraction.AddInt` | FractionCalculator/FractionCalculator/Fraction.swift:232-235 | equals `add` with x/1, and its value is self + x |
| `Fractions.Fraction.SubtractInt` | FractionCalculator/FractionCalculator/Fraction.swift:244-247 | equals `subtract` with x/1, and its value is self − x |
| `Fractions.Fraction.MultiplyInt` | FractionCalculator/FractionCalculator/Fraction.swift:256-258 | equals `multiply` with x/1, and its value is self × x |
| `Fractions.Fraction.DivideInt` | FractionCalculator/FractionCalculator/Fraction.swift:267-269 | for x ≠ 0, equals `divide` with x/1, and its value is self ÷ x |
| `FractionLaws.AddCommutes` | FractionCalculator/FractionCalculator/Fraction.swift:136-139 | a + b and b + a are the same fraction |
| `FractionLaws.MultiplyCommutes` | FractionCalculator/FractionCalculator/Fraction.swift:160-162 | a × b and b × a are the same fraction |
| `FractionLaws.AddAssociates` | FractionCalculator/FractionCalculator/Fraction.swift:136-139 | (a + b) + c and a + (b + c) are the same fraction |
| `FractionLaws.MultiplyDistributesOverAdd` | FractionCalculator/FractionCalculator/Fraction.swift:136-162 | a × (b + c) and a × b + a × c are the same fraction |
| `FractionLaws.SubtractSelfIsZero` | FractionCalculator/FractionCalculator/Fraction.swift:148-151 | a − a is 0/1 |
| `FractionLaws.DivideSelfIsOne` | FractionCalculator/FractionCalculator/Fraction.swift:171-173 | a ÷ a is 1/1 for a nonzero a |
| `FractionLaws.AddZeroIsIdentity` | FractionCalculator/FractionCalculator/Fraction.swift:136-139 | a + 0 is a |
| `Fractions.ParseFraction` | FractionCalculator/FractionCalculator/Fraction.swift:282-318 | whatever it reads is a valid fraction, and a zero denominator can only come from a second piece |
| `Fractions.ReadFromString` | FractionCalculator/FractionCalculator/Fraction.swift:282-318 | the step-by-step method, with defaults 0 and 1 overwritten piece by piece, computes exactly `ParseFraction` |
| `FractionLaws.ReadOnePiece` | FractionCalculator/FractionCalculator/Fraction.swift:293-301 | text without a slash reads as a/1 when it is an integer, and is rejected otherwise |
| `FractionLaws.ReadTwoPieces` | FractionCalculator/FractionCalculator/Fraction.swift:293-317 | for "u/v": rejected if and only if u or v is not an integer; a zero denominator if and only if u is an integer and v is 0; otherwise the reduced u/v |
| `FractionLaws.ReadIgnoresTail` | FractionCalculator/FractionCalculator/Fraction.swift:289-313 | "u/v/rest" reads exactly as "u/v" |
| `FractionLaws.ReadIntegerText` | FractionCalculator/FractionCalculator/Fraction.swift:282-318 | the decimal text of a reads as a/1 |
| `FractionLaws.ReadFractionText` | FractionCalculator/FractionCalculator/Fraction.swift:282-318 | the text "a/b" reads as a/b reduced when b ≠ 0, and as a zero denominator when b = 0 |
| `Fractions.Fraction.Description` | FractionCalculator/FractionCalculator/Fraction.swift:42-50 | a whole number (and 0) displays as just its numerator's decimal text; any other fraction displays as its lowest-terms numerator, `/` and its positive denominator, so a slash appears exactly when the fraction is not a whole number |
| `Fractions.Fraction.DescriptionAsWritten` | FractionCalculator/FractionCalculator/Fraction.swift:42-50 | for a non-integer, the text as the source writes it starts with "(" |
| `Fractions.TruncatedRemainder` | FractionCalculator/FractionCalculator/Fraction.swift:48 | Swift's truncating `%`: the remainder is smaller in magnitude than the divisor, has the sign of the dividend (non-negative for a non-negative dividend, non-positive for a negative one), and differs from the dividend by a multiple of the divisor |
| `FractionLaws.DescriptionRoundTrip` | FractionCalculator/FractionCalculator/Fraction.swift:42-50 | with the corrected last branch, reading back the display text of any constructed fraction gives the same fraction |
| `FractionLaws.DescriptionAsWrittenNeverReadsBack` | FractionCalculator/FractionCalculator/Fraction.swift:48 | with the last branch as written, the display text of any non-integer is rejected by `readFromString` |
| `FractionLaws.ThreeQuartersDescription` | FractionCalculator/FractionCalculator/Fraction.swift:48 | for 3/4, the text as written is "(4, 3)/4", which is rejected; the corrected text is "3/4", which reads back as 3/4 |
| `Text.Split` | FractionCalculator/FractionCalculator/Fraction.swift:289 | the pieces are never empty as a list, contain no separator, and join back to the input |
| `Text.SplitJoin` | FractionCalculator/FractionCalculator/Fraction.swift:289 | splitting undoes joining for separator-free pieces |
| `Text.ParseInt` | FractionCalculator/FractionCalculator/Fraction.swift:296-311 | `Int(String)` accepts only an optional sign followed by one or more decimal digits; a digit string and `+` followed by digits read as their decimal value, and `-` followed by digits as the negated value; its partner is `IntToStringRoundTrip` |
| `Text.IntToString` | FractionCalculator/FractionCalculator/Fraction.swift:44-46 | the decimal text of an `Int` is canonical: an optional `-` (present exactly for a negative number) followed by digits with no leading zero (0 is "0"), with no `/` |
| `Text.IntToStringRoundTrip` | FractionCalculator/FractionCalculator/Fraction.swift:44-46 | `Int(String)` applied to an integer's decimal text gives the integer back |

## Left out

- `decimal` (`Fraction.swift:29-35`): floating-point division. It is not modelled.
- The free-function operators `+ - * /` (`Fraction.swift:325-379`): each is a one-line delegation to the instance method with the same operands, so they would only be aliases of `Add`, `Subtract`, `Multiply`, `Divide` and their `Int` forms.
- Swift `Int` overflow: the model uses unbounded integers. Products such as `den * f.den` that would trap in Swift succeed here.
- `Text.ParseInt`: models `Int(String)` as an optional sign followed by one or more decimal digits. It does not reject text whose value overflows `Int`.
- `Text.Split`: models `components(separatedBy:)` for a one-character separator only. Foundation's own implementation is not modelled.
- `Create`: the `assert(den != 0)` is a precondition. What a build with assertions disabled would do with a zero denominator is not modelled.
- The expression evaluator `Parser<Fraction>.evaluate`, called from `AppDelegate.swift:54`, is not part of this model, because its source file is not available.
- `AppDelegate.swift`: the window, the button handlers that append characters to the display, and the display update. This is user-interface code with no fraction logic.

## Findings

| source | as written | input that shows it | evidently intended | confidence | as-written member | corrected member |
|---|---|---|---|---|---|---|
| FractionCalculator/FractionCalculator/Fraction.swift:48 | For a non-integer, `description` interpolates the pair `(den, num % den)` and appends `/den`. In the Swift 4 of the time, a two-value interpolation forms a tuple. | 3/4 displays as "(4, 3)/4", which `readFromString` rejects | the lowest-terms text "3/4", which `readFromString` reads back as 3/4 (the num/den form that `DescriptionRoundTrip` proves reads back for every fraction) | medium: the intended text is not stated in the source; not executed | `FractionLaws.DescriptionAsWrittenNeverReadsBack` | `FractionLaws.DescriptionRoundTrip` |
