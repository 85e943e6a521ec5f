# BigInteger, modelled in Dafny

`gh::BigInteger` is an arbitrary-precision signed decimal integer. It stores
a `Sign` flag and a vector of decimal digits, least significant first. This
project models that value type as an immutable Dafny datatype,
`BigInts.BigInt(sign, digits)`, where the digits are a `seq<int>` of values
0..9 (the source stores `'0' + d` characters). `BigInts.Value` interprets a
value as a mathematical integer. Every member function of the class is a pure
function that returns the new value.

The project is organised as follows:

- `digits.dfy` (`Digits`): the digit vector, `get_digit`, `change_digit`,
  `push_digit`, `normalize`, and the place-value facts about magnitudes.
- `schoolbook.dfy` (`Schoolbook`): the three digit loops of `+=`, `-=` and
  `*=(int)`, written as the source indexes them. Each loop is proved equal to
  a structural column-arithmetic definition whose contract states the
  magnitude it computes.
- `bigint.dfy` (`BigInts`): the datatype, the `int` and text constructors with
  the `-`/`_` parser, and `to_string`, with round trips between text and
  values.
- `compare.dfy` (`Compare`): `equal`, `less_than`, and the six relational
  operators.
- `arith.dfy` (`Arith`): the arithmetic operators.
  - `*=(int)` is `MulInt`, with its single-digit path `MulSmall`.
  - `*=(BigInteger)` is `MulBig`, with its loop `MulLoop`.
  - `+=` and `-=` are `AddAssign` and `SubAssign`.
  - The binary operators `+`, `-`, `*` copy the left operand and apply the
    compound one.
- `laws.dfy` (`Laws`): every normalized sum and difference is pinned to a
  reference written from the integer result (`Laws.Signed`). It also holds
  commutativity and associativity, and the laws about self-assignment.
- `example.dfy` (`ExampleText`, `Example`): `"100_200_100"` and
  `"300_200_100"`, their sum, difference and product, and how these render.
- `findings.dfy` (`Findings`): defects in the source, each shown on a concrete
  input next to the evidently intended definition.

### Self-assignment

The source's `+=` and `-=` test object identity (`this == &rhs`). The model
makes that an explicit `aliased` flag:

- `a += a` doubles through `*= 2`;
- `a -= a` sets the positive empty zero;
- the binary operators copy first, so they never take these branches.

### Calls that never return

Some calls recurse without end. One example is
`BigInteger(-3) * BigInteger(-4)`:

- The loop of `*=(BigInteger)` (line 486) adds the partial product
  `-3 * 4 = -12` to `sum`, which starts as the positive zero.
- `+=` with differing signs (line 398) computes `rhs * -1`.
- `*=(int)` sends the factor -1 to `*= BigInteger(-1)` (line 514).
- That product's loop at line 486 again adds `-12` to a positive zero
  `sum`, and the cycle 486 → 398 → 514 → 486 repeats.

The trigger is a negative operand reaching `rhs * -1` on a path where the
negation recurses. The preconditions exclude exactly those inputs:

- a positive value `+=` a negative one;
- a positive value `-=` a negative one;
- `*=(BigInteger)` with a negative left operand and any nonzero digit on the
  right;
- `*=(int)` of a negative value by a factor below 0 or above 10.
  This call goes through `*= BigInteger(num)` (line 514) with a negative left
  operand.

### Negative zero and leading zeros

Both occur, as in the source:

- Negative zero (sign negative, empty vector) comes from several places:
  `0 * negative` (line 493 sets the sign after an empty product), `-a - (-a)`,
  `-5 + 5`, and parsing `"-"`. `to_string` renders it as `"-"`, because
  line 591 writes the sign before the digits and line 600 substitutes `"0"`
  only for an empty string.
- Parsed text keeps leading zeros (lines 313-316): `"007"` stores three
  digits.

A leading zero misleads the length-based comparison of `less_than`
(lines 641-643). That comparison decides the swap of `-=` (line 442).
The value contracts are therefore scoped as follows:

- `-=`, and `+=` with differing signs, are stated for normalized operands,
  meaning no most-significant zero digit. `+=` with differing signs hands
  off to `-=`.
- `+=` with equal signs (lines 402-422) is stated for every digit vector,
  and so is the aliased `+=` (`*= 2`).
- `a -= a` and `a - a` are stated for every digit vector.
- `*=` is stated for every digit vector.

### Facts about the code that are easy to misread

- Negative zero renders as `"-"`, not `"0"` (lines 590-600).
- In `*=(int)` with a factor of 10, the carry out of every column is at most
  9 (lines 525-531). A digit of at most 9 times 10, plus a carry of at most 9,
  is at most 99. `Schoolbook.ScaleDigits` requires and re-establishes
  `carry <= 9`, so the single final `push_digit` (line 531) always pushes one
  digit.

## Model

| member | source | states |
|---|---|---|
| Digits.ChangeDigit | BigInteger.hpp:569-577 | overwrites exactly position `pos` and leaves every other position and the length alone; the position is in range at every call site, so the throw is unreachable |
| Digits.PushDigit | BigInteger.hpp:565-567 | the new digit becomes the top position above the unchanged old vector |
| Digits.MagPush | BigInteger.hpp:565-567 | pushing digit `v` adds `v * 10^len` to the magnitude |
| Digits.MagChange | BigInteger.hpp:569-577 | changing position `pos` changes the magnitude by the digit difference times `10^pos` |
| Digits.GetDigitPlaceValue | BigInteger.hpp:579-586 | `get_digit` is 0 at a negative position and otherwise the decimal place `pos` of the magnitude, which is 0 past the end |
| Digits.Normalize | BigInteger.hpp:603-613 | the result has no top zero, is a prefix of the input, and only zero digits were removed |
| Digits.NormalizePreservesMag | BigInteger.hpp:603-613 | normalizing keeps the magnitude |
| Digits.NormalizeIdempotent | BigInteger.hpp:603-613 | normalizing twice is normalizing once |
| Digits.MagInjective | BigInteger.hpp:74-77 | two normalized digit vectors with one magnitude are the same vector |
| Schoolbook.AddDigits | BigInteger.hpp:407-420 | column addition yields digits 0..9 whose magnitude is the sum of the operands' magnitudes plus the carry in |
| Schoolbook.AddLoopMatches | BigInteger.hpp:402-420 | the add loop, with its overwrite-below-`l_size` and push-above split, computes column addition |
| Schoolbook.AddDigitsNormalized | BigInteger.hpp:402-420 | adding two vectors without top zeros leaves no top zero |
| Schoolbook.SubDigits | BigInteger.hpp:455-464 | column subtraction keeps the length, and for a right operand no longer than the left its magnitude is the difference minus the borrow, plus `10^len` times the borrow out |
| Schoolbook.SubLoopMatches | BigInteger.hpp:452-464 | the borrow loop over `*this`'s positions computes column subtraction |
| Schoolbook.SubNoFinalBorrow | BigInteger.hpp:452-466 | when the left magnitude is at least the right one, no borrow is left over and the magnitude is the exact difference |
| Schoolbook.ScaleDigits | BigInteger.hpp:520-531 | multiplying by 0..10 keeps every carry at 9 or below and yields the magnitude times the factor plus the carry in |
| Schoolbook.ScaleLoopMatches | BigInteger.hpp:520-531 | the scalar loop with its single final push computes column scaling |
| Schoolbook.ScaleDigitsNormalized | BigInteger.hpp:520-531 | scaling a vector without top zeros by 1..10 leaves no top zero |
| BigInts.IntDigits | BigInteger.hpp:303-308 | the `while (num)` loop yields the digits of `num` least significant first, with no top zero, and is empty exactly for 0 |
| BigInts.FromInt | BigInteger.hpp:297-309 | `BigInteger(n)` for `n` above `INT_MIN` denotes `n`, is normalized with positive zero, is negative exactly when `n < 0`, and is the empty positive zero for 0 |
| BigInts.FromIntRendersDecimal | BigInteger.hpp:297-309 | `to_string(BigInteger(n))` is the usual decimal notation of `n` |
| BigInts.Parse | BigInteger.hpp:364-383 | a leading `-` sets the negative sign and is consumed, every `_` is dropped, and the rest is kept in order |
| BigInts.RemoveUnderscores | BigInteger.hpp:374-380 | dropping separators leaves no `_`, keeps only characters of the input, and changes nothing in text without `_` |
| BigInts.TextToDigits | BigInteger.hpp:311-317 | position `i` holds the digit of the `i`-th character from the end of the text |
| BigInts.FromText | BigInteger.hpp:311-325 | the text constructors give well-formed digits and the negative sign exactly for a leading `-` |
| BigInts.ParsedValue | BigInteger.hpp:311-325 | a parsed value denotes the signed positional value of its digit characters |
| BigInts.SeparatorsIgnored | BigInteger.hpp:374-380 | text parses to the same value with or without its `_` separators |
| BigInts.DigitsToText | BigInteger.hpp:593-598 | rendering writes the digits from the top position down |
| BigInts.ToString | BigInteger.hpp:588-601 | a negative value is `-` then its digits, a positive nonempty one its digits, and the positive empty zero `"0"` |
| BigInts.ParseThenRender | BigInteger.hpp:588-601 | rendering parsed text gives the text without separators, or `"0"` when nothing is left |
| BigInts.ParseRenderRoundTrip | BigInteger.hpp:311-325 | text of digits with an optional leading `-` and no separators renders back exactly |
| BigInts.RenderParseRoundTrip | BigInteger.hpp:588-601 | every well-formed value other than the positive empty zero parses back from its rendering |
| Compare.Equal | BigInteger.hpp:615-630 | `equal` holds exactly for the same sign and the same digit sequence |
| Compare.TopCompareMag | BigInteger.hpp:643-650 | the top-down digit scan agrees with the order of the magnitudes of equal-length vectors |
| Compare.LessThanIrreflexive | BigInteger.hpp:632-653 | no value is less than itself |
| Compare.Trichotomy | BigInteger.hpp:615-653 | for any two values exactly one of `a < b`, `a == b`, `b < a` holds |
| Compare.LessThanMags | BigInteger.hpp:632-653 | under one sign and for normalized vectors, `less_than` orders magnitudes ascending when positive and descending when negative |
| Compare.LessThanMatchesValue | BigInteger.hpp:632-653 | whenever both values are normalized with positive zero, `less_than` is integer `<` |
| Compare.CanonicalUnique | BigInteger.hpp:615-653 | whenever two values are normalized with positive zero and denote one integer, they are equal |
| Compare.Eq | BigInteger.hpp:539-541 | `==` is structural equality, and integer equality on normalized values with positive zero |
| Compare.Ne | BigInteger.hpp:543-545 | `!=` is the negation of structural equality |
| Compare.Lt | BigInteger.hpp:547-549 | `<` is integer `<` on normalized values with positive zero |
| Compare.Le | BigInteger.hpp:551-553 | `<=` is integer `<=` on normalized values with positive zero |
| Compare.Gt | BigInteger.hpp:555-557 | `>` is integer `>` on normalized values with positive zero |
| Compare.Ge | BigInteger.hpp:559-561 | `>=` as written holds exactly when the operands are equal |
| Compare.GeMissesGreater | BigInteger.hpp:559-561 | `1 >= 0` is false under the written operator |
| Compare.GeIntended | BigInteger.hpp:559-561 | `== or lhs > rhs` is integer `>=` on normalized values with positive zero |
| Arith.MulSmall | BigInteger.hpp:516-537 | for a factor in 2..10 the sign is kept and the magnitude is multiplied by the factor, and normalization is preserved |
| Arith.MulInt | BigInteger.hpp:504-537 | `*=(int)` multiplies the value by `num`, gives the positive empty zero for 0, keeps the sign for a positive factor, marks the result negative for a negative factor (also when the value is zero, giving a negative zero), and preserves normalization |
| Arith.MulLoop | BigInteger.hpp:485-488 | after the loop from position `i` the sum grows by the shifted operand times the remaining digits' magnitude, and stays positive |
| Arith.MulBig | BigInteger.hpp:476-496 | `*=(BigInteger)` multiplies the magnitudes and the values, and is negative exactly when the signs differ |
| Arith.Negate | BigInteger.hpp:398 | `rhs * -1` on a positive value keeps the digits and sets the negative sign |
| Arith.AddSameSign | BigInteger.hpp:402-422 | the same-sign path of `+=` keeps the sign, adds the magnitudes, and preserves normalization, for any digit vectors |
| Arith.AddAssign | BigInteger.hpp:391-423 | under equal signs (the aliased doubling included) `+=` keeps the left sign and yields the sum for any digit vectors; on normalized operands it yields the normalized sum, and a zero sum keeps the left sign |
| Arith.SubInPlace | BigInteger.hpp:452-466 | the borrow path keeps the sign, normalizes, empties a vector subtracted from itself, and on normalized operands yields the magnitude difference |
| Arith.SubNoSwapFits | BigInteger.hpp:442-450 | without a swap the right operand is no longer and no larger in magnitude |
| Arith.SubAssign | BigInteger.hpp:431-468 | `a -= a` is the positive empty zero and `a - a` on a copy is the empty vector with `a`'s sign, for any digit vector; on normalized operands `-=` yields the normalized difference, and a zero result has the left sign |
| Arith.Add | BigInteger.hpp:385-389 | `+` on a copy gives the sum under equal signs for any digit vectors, and for normalized operands under any signs |
| Arith.Sub | BigInteger.hpp:425-429 | `-` on a copy gives the difference of normalized operands, and `a - a` is the empty vector with `a`'s sign |
| Arith.Mul | BigInteger.hpp:470-474 | `*` gives the product |
| Arith.MulScalar | BigInteger.hpp:498-502 | `* num` gives the value times `num` |
| Laws.Signed | BigInteger.hpp:297-309 | the reference value for an integer has no top zero and denotes that integer |
| Laws.DeterminedByValue | BigInteger.hpp:603-613 | a normalized value is determined by its integer and the sign of its zero |
| Laws.AddIsSignedSum | BigInteger.hpp:385-423 | `a + b` is the reference value of the integer sum, with `a`'s sign on a zero sum |
| Laws.SubIsSignedDifference | BigInteger.hpp:425-468 | `a - b` is the reference value of the integer difference, with `a`'s sign on a zero difference |
| Laws.AddCommutes | BigInteger.hpp:385-423 | under one sign `a + b == b + a`, for every digit vector (leading zeros included) |
| Laws.AddAssociates | BigInteger.hpp:385-423 | under one sign `(a + b) + c == a + (b + c)` for normalized operands |
| Laws.SubAntisymmetric | BigInteger.hpp:442-450 | swapping the operands of a nonzero same-sign difference flips the sign and keeps the digits |
| Laws.AddThenSub | BigInteger.hpp:385-468 | `(a + b) - b == a` for same-sign normalized operands |
| Laws.AliasedAddMatchesCopy | BigInteger.hpp:391-395 | for every digit vector (leading zeros included), `a += a` (doubling) equals `a + a` on a copy and `a * 2` |
| Laws.AliasedSubDiffersFromCopy | BigInteger.hpp:431-466 | for any digit vector, `a -= a` is the positive zero while `a - a` keeps `a`'s sign, so they agree exactly for positive `a` |
| Laws.MulCommutes | BigInteger.hpp:476-496 | for positive normalized operands `a * b == b * a`; without normalization the digit vectors can differ (`[0] * [5]` stores `[0]`, `[5] * [0]` stores `[]`) |
| Laws.ScalarPathsAgree | BigInteger.hpp:504-537 | for a positive normalized value and a factor in 2..10 the single-digit path equals the product with `BigInteger(num)` |
| ExampleText.ParsesAsInt | BigInteger.hpp:311-325 | text whose separator-free form is the decimal notation of a nonzero `int` parses to `BigInteger(n)` |
| ExampleText.ExampleOperands | BigInteger.hpp:311-325 | `"100_200_100"` and `"300_200_100"` parse to `BigInteger(100200100)` and `BigInteger(300200100)` |
| Example.SignedRendersDecimal | BigInteger.hpp:588-601 | a nonzero reference value renders as its decimal notation |
| Example.ExampleResults | BigInteger.hpp:385-496 | the sum is 400400200, the difference -200000000, and the product 30080080040010000 |
| Example.ExampleOutput | BigInteger.hpp:588-601 | the three results render as their decimal notations |
| Findings.NegativeZeroRendersDash | BigInteger.hpp:588-601 | `-5 + 5` and `0 * -5` denote 0 but render as `"-"` |
| Findings.NonzeroRendersDecimal | BigInteger.hpp:588-601 | `to_string` of a normalized nonzero value is the decimal notation of its integer |
| Findings.ToStringIntended | BigInteger.hpp:588-601 | the intended rendering of every normalized value, zero of either sign included, is the decimal notation of its integer, and it agrees with `to_string` on nonempty vectors |
| Findings.PaddedSubtraction | BigInteger.hpp:311-325 | `"007" - "10"` denotes 997 |
| Findings.FromTextIntended | BigInteger.hpp:311-325 | the intended text constructor normalizes and keeps the sign and value of the parsed text |
| Findings.IntendedSubtraction | BigInteger.hpp:311-325 | with the intended constructor the difference of two parsed texts is their integer difference |
| Findings.PaddedSubtractionIntended | BigInteger.hpp:311-325 | with the intended constructor `"007" - "10"` denotes -3 |

## Left out

- Stream I/O: `operator<<` and `operator>>` (BigInteger.hpp:659-670) only move text to and from streams. `ToString` and `FromText` model the text.
- Copying, moving, assignment and the destructor (BigInteger.hpp:327-362) manage C++ memory and are identities on immutable values. Move assignment leaves the moved-from object with its old sign and an empty vector (353-355); that state is not modelled.
- `BigInteger(INT_MIN)`: `num *= -1` overflows a 32-bit `int` (line 300), so `FromInt` and `MulInt` require `n > INT_MIN`.
- Parser input outside decimal digits, `_` and a leading `-`: the source assumes such characters do not occur, so `ValidText` is a precondition.
- The `throw` in `change_digit` (line 576): it is a precondition of `Digits.ChangeDigit`, discharged at every call.
- Non-returning calls: the preconditions described above exclude them. The model does not describe what they do.
- main.cpp prints to standard output. Its two operands and three results are stated by the `Example` lemmas; the printing is not modelled.
- Arith.AddAssign: with differing signs the value is stated only for normalized operands. That path hands off to `-=` (line 398), which computes a different result when an operand has a leading zero (see Findings). The equal-sign and aliased paths are stated for every digit vector.
- Arith.SubAssign: the value is stated only for normalized operands, except for `a -= a` and `a - a`. The swap test at line 442 compares lengths, so a leading zero gives a different result (see Findings).
- Arith.Add: with differing signs the value is stated only for normalized operands, for the reason given under Arith.AddAssign.
- Arith.Sub: the value is stated only for normalized operands, except for `a - a`, for the reason given under Arith.SubAssign.
- Compare.Lt: agreement with integer `<` is stated only for normalized values with positive zero. On other values the comparison is structural, and its order facts are `Compare.Trichotomy` and `Compare.LessThanMags`.

## Findings

| source | as written | input that shows it | evidently intended | confidence | as-written member | corrected member |
|---|---|---|---|---|---|---|
| BigInteger.hpp:559-561 | `operator>=` returns `lhs == rhs \|\| rhs > rhs`, and the second test compares `rhs` with itself | `BigInteger(1) >= BigInteger(0)` is false | `lhs == rhs \|\| lhs > rhs` | high; not executed | Compare.GeMissesGreater | Compare.GeIntended |
| BigInteger.hpp:588-601 | `to_string` writes `-` for a negative sign before looking at the digits, and `-=` keeps the sign when it normalizes to an empty vector | `BigInteger(-5) + BigInteger(5)` renders `"-"` | a zero result renders `"0"` | high; not executed | Findings.NegativeZeroRendersDash | Findings.ToStringIntended |
| BigInteger.hpp:311-325 | the text constructors keep leading zeros, and `less_than` and `-=` judge magnitude by vector length | `BigInteger("007") - BigInteger("10")` denotes 997 | the constructor normalizes, and the difference is -3 | high; not executed | Findings.PaddedSubtraction | Findings.IntendedSubtraction |
