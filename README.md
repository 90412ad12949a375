# Complex calculator — a verified model

This project models the logic of a browser calculator for complex numbers
(`main.js`). It covers five parts:

- **The value type** `Complex`. Each part is an exact real or NaN. The type has `add`,
  `subtract`, `multiply` and `divide`. `divide` throws when the denominator c² + d² is 0.
- **`toString`**, which turns a value into its display text.
- **`parseComplexString`**, which reads the display text back. It trims the text, matches
  it against `^(-?\d*\.?\d*)([+\-]\d*\.?\d*)?(i)?$`, special-cases `i` and `-i`, and decodes
  the captured groups.
- **`calculate`**, which applies the pending operator.
- **The click handler**. It is a machine over five variables: the typed input, the first
  operand, the pending operator, "waiting for the second operand" and "last input was
  `=`". It reacts to clear, operator, equals and key buttons.

The files:

- `wrappers.dfy` holds `Option`, which stands for JavaScript's `null`.
- `numerals.dfy` holds the component type `Number = Fin(real) | NaN`. It also holds the two
  runtime conversions the calculator relies on: a plain-decimal printer (`NumberText`, for
  `Number.prototype.toString`) and a numeral reader (`ParseFloat`, for `parseFloat`).
- `complex.dfy` holds the value type, its arithmetic and `ToString`.
- `parsing.dfy` holds `Trim`, a deterministic scanner standing in for the regular
  expression, the group decoder and `ParseComplexString`.
- `keypad.dfy` holds `Calculate`, the click handler as step functions over a `State`
  value, and the class `Calculator`. The class keeps the five variables as fields and has
  one method per button action. Each method is proved to produce exactly the state and
  display text of its step function, and to keep the state invariant `Consistent`.

The regular expression is modelled by a scanner. It reads an optional `-` and the longest
`\d*\.?\d*`, then optionally a sign and the longest `\d*\.?\d*`, then an optional `i`. The
lemmas prove three things about it against a declarative `Matches` predicate:

- it is sound;
- it is complete;
- it reports the match a backtracking engine reports, namely the one with the longest
  first group.

Components are exact reals. Where the source compares a floating-point value with 0
(main.js:27, 41, 44), the model compares the real value with 0.

The model follows the code wherever a prose description of the calculator could suggest
otherwise:

- With `i` and a signed part, the real part is `parseFloat` of the first group
  (main.js:84). An empty first group therefore gives NaN, not 0, so "+3i" reads as NaN + 3i.
- The parser trims its input itself (main.js:61), using exactly ECMAScript's set of white
  space and line terminators.
- The click handler is modelled with its own five variables (main.js:102-106) rather than
  as an abstract set of named states.

## Model

| member | source | states |
|---|---|---|
| ComplexNumbers.AddSubtractInverse | main.js:8-15 | subtracting a finite value after adding it gives back the original value |
| ComplexNumbers.MultiplyDivideInverse | main.js:18-34 | for finite a and a finite b that is not 0, dividing a·b by b succeeds and gives back a |
| ComplexNumbers.DivideMultiplyInverse | main.js:18-34 | for finite a and a finite b that is not 0, the quotient a/b exists and multiplied by b gives back a |
| ComplexNumbers.DivisionByZeroIff | main.js:25-30 | `divide` throws exactly when the divisor is 0 + 0i; a NaN part does not make it throw |
| ComplexNumbers.DivideInvalid | main.js:25-33 | a divisor with a NaN part makes the denominator NaN, so both parts of the quotient are NaN |
| ComplexNumbers.ToStringErrorIff | main.js:37-40 | the text is "Error" exactly when a part is NaN |
| ComplexNumbers.ToStringChars | main.js:41-54 | the text of a finite value is made only of digits, `.`, `+`, `-` and `i` |
| ComplexNumbers.ToStringImaginaryUnit | main.js:41-54 | the text of a finite value has no `i` when the imaginary part is 0, and otherwise exactly one `i`, as its last character |
| ComplexNumbers.ToStringNoPlusMinus | main.js:49-54 | no text ever holds `+` directly followed by `-`, because a negative imaginary part is written with `-` alone |
| Numerals.NumberRoundTrip | main.js:42 | parseFloat reads back every number the printer writes exactly (at most 20 fractional digits) and that JavaScript writes in plain notation (0, or magnitude from 10⁻⁶ up to but excluding 10²¹) |
| Numerals.WholeText | main.js:42 | a whole number prints as its decimal digits, with no point and no leading zero |
| Numerals.TenthsText | main.js:42 | a number with one nonzero decimal place prints as its whole digits, `.` and that digit |
| Numerals.NumberTextChars | main.js:42 | a printed number is made of digits and `.`, with `-` allowed only as its first character |
| Parsing.TrimSlice | main.js:61 | `trim` keeps a contiguous slice of the input and drops only ECMAScript white space before and after it; the slice neither starts nor ends with white space |
| Parsing.TrimUnchanged | main.js:61 | text that neither starts nor ends with white space is left as it is |
| Parsing.ParseBlank | main.js:61-62 | input made only of white space (the empty input included) reads as 0 |
| Parsing.ScanSound | main.js:64-65 | every split the scanner reports is a match of the pattern |
| Parsing.ScanComplete | main.js:64-70 | the scanner finds a split whenever the pattern matches |
| Parsing.ScanLongest | main.js:64-65 | the scanner's split has the longest first group of all matches, and it is the only match with a first group that long |
| Parsing.ParseNoMatch | main.js:67-70 | non-blank input that the pattern does not match reads as NaN in both parts |
| Parsing.ParseForeignChar | main.js:64-70 | input holding, after trimming, any character other than a digit, `.`, a sign or `i` reads as NaN in both parts |
| Parsing.MatchChars | main.js:64 | text the pattern matches is made of digits, `.`, signs and `i` |
| Parsing.MatchNoPlusSign | main.js:64 | in text the pattern matches, no `+` is directly followed by a sign |
| Parsing.ParsePlusSign | main.js:64-70 | input with a `+` directly followed by a sign reads as NaN in both parts |
| Parsing.MatchPointsApart | main.js:64 | in text the pattern matches, every two `.` have a sign between them |
| Parsing.ParseTwoPoints | main.js:64-70 | input with two `.` and no sign between them reads as NaN in both parts |
| Parsing.ParseMatch | main.js:72-99 | input the pattern matches, other than `i` and `-i`, reads as the decoded value of any given match of it, unless that match leaves the first group empty before a second group starting with `-`; in every case it reads as the decoded value of the match the scanner reports |
| Parsing.ParseUnit | main.js:79-80 | `i` reads as 0 + 1i and `-i` as 0 - 1i |
| Parsing.ParseWholePair | main.js:83-87 | digits, a sign, digits and `i` read as the first number plus the signed second number times i |
| Parsing.ParseWholeUnit | main.js:83-87 | digits, a sign and `i` read as that number with an imaginary part of +1 or -1 |
| Parsing.ParseMissingReal | main.js:83-87 | `+`, optional digits and `i` has an empty first group, so the real part is NaN and the imaginary part is the digits (1 when there are none) |
| Parsing.ParseWholeImaginary | main.js:88-90 | digits followed by `i` read as a pure imaginary value |
| Parsing.ParseWhole | main.js:94-96 | digits alone read as a real value with imaginary part 0 |
| Parsing.ParseDropsSigned | main.js:94-96 | without `i`, a signed second part is matched but dropped: digits, a sign and digits read as the first number alone |
| Parsing.RealRoundTrip | main.js:94-96 | the printed text of a printable real (exact in 20 fractional digits, in plain-notation range) reads back as that real |
| Parsing.ImaginaryRoundTrip | main.js:88-90 | a printed number followed by `i` reads back as that pure imaginary value |
| Parsing.PairRoundTrip | main.js:83-87 | the display text of a value with both parts nonzero and printable reads back as that value |
| Parsing.ToStringRoundTrip | main.js:37-99 | reading back the display text of any finite value whose parts print exactly gives that value |
| Parsing.ErrorRoundTrip | main.js:64-70 | the display text of a value with a NaN part reads back as NaN in both parts |
| ComplexNumbers.ExampleShowWhole | main.js:41-43 | (5, 0) shows as "5" |
| ComplexNumbers.ExampleShowImaginary | main.js:44-48 | (0, 3) shows as "3i" |
| ComplexNumbers.ShowWholePair | main.js:49-54 | a positive whole real part and a whole imaginary part other than 0 and ±1 show as the real digits, the imaginary sign, its magnitude's digits and `i` |
| ComplexNumbers.ExampleShowPair | main.js:49-54 | (2, 3) shows as "2+3i" |
| ComplexNumbers.ShowTenthsPair | main.js:49-54 | a whole real part and an imaginary part with one nonzero decimal place show as the real digits, the imaginary sign, the imaginary magnitude's whole digits, `.`, its decimal digit and `i` |
| ComplexNumbers.ExampleShowDifference | main.js:49-54 | (1, -2.5) shows as "1-2.5i" |
| ComplexNumbers.ExampleSum | main.js:7-9 | (1, 2) + (3, -4) is (4, -2), which shows as "4-2i" |
| Parsing.ExampleWhole | main.js:59 | "5" reads as 5 |
| Parsing.ExampleImaginary | main.js:59 | "3i" reads as 3i |
| Parsing.ExampleLetters | main.js:67-69 | "abc" reads as NaN in both parts |
| Parsing.ExampleParenthesis | main.js:67-69 | "(2)" reads as NaN in both parts |
| Parsing.ExamplePlusMinus | main.js:67-69 | "+-i" reads as NaN in both parts |
| Parsing.ExampleTwoPoints | main.js:67-69 | "1.2.3i" reads as NaN in both parts |
| Keypad.CalculateInvalidOperand | main.js:118-120 | a NaN part in either operand makes the result NaN, whatever the operator |
| Keypad.CalculateUnknownOperator | main.js:140-141 | an operator other than the four arithmetic ones, `null` included, makes the result NaN |
| Keypad.CalculateDivision | main.js:129-136 | for finite operands, dividing by 0 is caught and gives NaN, and any other divisor gives `divide`'s quotient |
| Keypad.QuotientFinite | main.js:31-33 | the quotient of finite values by a divisor that is not 0 is finite |
| Keypad.CalculateFiniteIff | main.js:116-143 | the result is a number exactly when both operands are, the operator is one of the four, and it is not a division by 0 |
| Keypad.CalculateUndo | main.js:122-132 | `-` after `+`, and `/` after `*` by a divisor that is not 0, give back the first operand |
| Keypad.LastSegment | main.js:217-218 | the last piece of `split(/[\+\-]/)`: a suffix of the input with no sign in it, preceded in the input by a sign unless it is all of the input |
| Keypad.InitialConsistent | main.js:102-106 | the initial variables satisfy the state invariant |
| Keypad.StepConsistent | main.js:145-233 | every click keeps the state invariant: an operator is pending only with a first operand; the second operand is awaited only with an operator pending; right after `=` no operator is pending and the input is the result's text |
| Keypad.ClearForgets | main.js:151-159 | clear resets all five variables, whatever the state before, and the display shows "0" |
| Keypad.OperatorAfterEquals | main.js:166-173 | an operator right after `=` calls `calculate` with the `null` operator, so the first operand becomes NaN and the display shows "Error" |
| Keypad.KeyStartsEntry | main.js:198-208 | a key right after an operator or `=` starts the input afresh, and right after `=` it also forgets the operand and the operator |
| Keypad.UnitKey | main.js:210-214 | the `i` key leaves the display alone exactly when the input already has an `i`, and then it leaves the state as the entry started; otherwise the input gains an `i` at the end; either way the input then holds exactly one `i` |
| Keypad.StepUnits | main.js:145-233 | every button keeps the input to at most one `i`, provided no key other than `i` itself types an `i` |
| Keypad.DotKey | main.js:215-223 | the `.` key leaves the display alone exactly when the last signed part of the input already holds a `.`, and then it leaves the state as the entry started; otherwise the input gains a `.` at the end; either way that part then holds a `.` |
| Keypad.EqualsReadsBack | main.js:186-191 | the text `=` leaves as the input reads back as its result, whenever the result is finite and its parts print exactly |
| Keypad.Calculator.constructor | main.js:102-106 | the fields start as the initial state, which is consistent |
| Keypad.Calculator.Clear | main.js:151-159 | the fields become the state of the clear step, and the display text is "0" |
| Keypad.Calculator.PressOperator | main.js:161-179 | the fields and the display text become those of the operator step; the invariant is kept |
| Keypad.Calculator.PressEquals | main.js:181-196 | the fields and the display text become those of the equals step; the invariant is kept |
| Keypad.Calculator.PressKey | main.js:198-231 | the fields and the display text become those of the key step, with the `i` and `.` rules; the invariant is kept |
| Keypad.Calculator.Click | main.js:145-233 | one click dispatches on the button's action: the fields and the display text become those of `Step`; the invariant is kept |

## Left out

- The page: `document.querySelector`, the listener wiring and `updateDisplay`'s write are not modelled. Each step instead returns the text it would put on the display, or `None` when it leaves the display alone.
- The "Error: Div by zero" text written inside `calculate` (main.js:134) is not modelled. Both callers overwrite it at once with the result's text, "Error", and the model reports only that text.
- `console.error` (main.js:68) is logging only and is not modelled.
- IEEE-754 arithmetic is not modelled: rounding, infinities, negative zero and overflow in c² + d². Components are exact reals. A NaN part absorbs every operation.
- Numerals.Over: gives NaN for a zero divisor. That case never arises, since `divide` throws first.
- Numerals.NumberText: covers plain decimal notation only. It writes at most 20 fractional digits, truncating longer expansions, and does not pick the shortest text that reads back as the same double. It has no exponent notation: for magnitudes of 10²¹ and above, and for nonzero magnitudes below 10⁻⁶, it writes digits where JavaScript writes `1e+21` or `1e-7`, which the calculator's pattern rejects. `Printable` therefore asks for both: at most 20 fractional digits, and 0 or a magnitude in the plain-notation range. Numerals.NumberRoundTrip, Parsing.RealRoundTrip, Parsing.ImaginaryRoundTrip, Parsing.PairRoundTrip, Parsing.ToStringRoundTrip and Keypad.EqualsReadsBack say nothing about values with a part outside that range.
- Numerals.ParseFloat: reads only an optional sign followed by digits, `.` and digits, ignoring whatever follows. That covers every text the pattern hands it, and the wider grammar of `parseFloat` (exponents, `Infinity`) is not modelled.
- The regular-expression engine is replaced by the scanner in `parsing.dfy`. The scanner is proved to agree with the pattern.
- Keypad.Calculate: requires an operator other than `=`. The `case '='` branch (main.js:138-139) returns the boolean `true`, which is not a complex value. It is reachable only if a button sends `=` as an operator value. For the same reason `Calculator.PressOperator`, `Calculator.Click` and `StepConsistent` exclude an operator button whose value is `=`.
- Keypad.StepUnits: requires that a key other than `i` does not itself type an `i`. A key's value is any string in the model, while the page's keys are single characters.
- Parsing.ParseMissingReal: states the "+3i" example for every digit string rather than for the literal. Likewise Parsing.ParseDropsSigned states the "2+3" example generically. Proofs about particular literals that contain a sign are too costly for the solver.
- A scenario-level run of several clicks (for instance 2, +, 3, = giving 5) is not stated as one lemma. The steps are covered one at a time by the step lemmas and the parsing lemmas.
