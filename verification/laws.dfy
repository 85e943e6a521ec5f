/**
 * Algebraic laws of the arithmetic operators, and how self-assignment
 * differs from operating on a copy.
 */
module Laws {
  import opened Digits
  import opened Schoolbook
  import opened BigInts
  import opened Arith

  /**
   * The value `v` written the way the operators write it: its decimal digits
   * without leading zeros, the sign of `v`, and `zeroSign` when `v` is 0.
   */
  function Signed(v: int, zeroSign: Sign): (r: BigInt)
    ensures WellFormed(r) && Normalized(r.digits) && Value(r) == v
  {
    var m := if v < 0 then -v else v;
    BigInt(if v < 0 then Negative else if v > 0 then Positive else zeroSign, IntDigits(m))
  }

  /** A normalized value is fixed by its integer and the sign its zero carries. */
  lemma DeterminedByValue(r: BigInt, zeroSign: Sign)
    requires WellFormed(r) && Normalized(r.digits)
    requires r.digits == [] ==> r.sign == zeroSign
    ensures r == Signed(Value(r), zeroSign)
  {
    var s := Signed(Value(r), zeroSign);
    if r.digits != [] {
      MagTop(r.digits);
    }
    MagInjective(r.digits, s.digits);
  }

  // ---------------------------------------------------------------------
  // Addition and subtraction
  // ---------------------------------------------------------------------

  /** `a + b` is the signed sum; a zero sum keeps the left operand's sign. */
  lemma AddIsSignedSum(a: BigInt, b: BigInt)
    requires WellFormed(a) && WellFormed(b) && Normalized(a.digits) && Normalized(b.digits)
    requires a.sign != b.sign ==> b.sign == Positive
    ensures Add(a, b) == Signed(Value(a) + Value(b), a.sign)
  {
    DeterminedByValue(AddAssign(a, b, false), a.sign);
  }

  /** `a - b` is the signed difference; a zero difference keeps the left operand's sign. */
  lemma SubIsSignedDifference(a: BigInt, b: BigInt)
    requires WellFormed(a) && WellFormed(b) && Normalized(a.digits) && Normalized(b.digits)
    requires a.sign != b.sign ==> b.sign == Positive
    ensures Sub(a, b) == Signed(Value(a) - Value(b), a.sign)
  {
    DeterminedByValue(SubAssign(a, b, false), a.sign);
  }

  /** Under one sign, addition commutes, for every digit vector. */
  lemma AddCommutes(a: BigInt, b: BigInt)
    requires WellFormed(a) && WellFormed(b)
    requires a.sign == b.sign
    ensures Add(a, b) == Add(b, a)
  {
    LoopsFromStart(a.digits, b.digits, 0);
    LoopsFromStart(b.digits, a.digits, 0);
    AddDigitsCommute(a.digits, b.digits, 0);
    assert Add(a, b) == AddSameSign(a, b) && Add(b, a) == AddSameSign(b, a);
  }

  /** Under one sign, addition associates. */
  lemma AddAssociates(a: BigInt, b: BigInt, c: BigInt)
    requires WellFormed(a) && WellFormed(b) && WellFormed(c)
    requires Normalized(a.digits) && Normalized(b.digits) && Normalized(c.digits)
    requires a.sign == b.sign && b.sign == c.sign
    ensures Add(Add(a, b), c) == Add(a, Add(b, c))
  {
    var ab, bc := Add(a, b), Add(b, c);
    assert Normalized(ab.digits) && Normalized(bc.digits) by {
      assert ab == AddAssign(a, b, false) && bc == AddAssign(b, c, false);
    }
    var sum := Value(a) + Value(b) + Value(c);
    assert Add(ab, c) == Signed(sum, a.sign) by {
      AddIsSignedSum(ab, c);
    }
    assert Add(a, bc) == Signed(sum, a.sign) by {
      AddIsSignedSum(a, bc);
    }
  }

  /**
   * Under one sign, swapping the operands of a nonzero difference flips the
   * sign and keeps the digits.
   */
  lemma SubAntisymmetric(a: BigInt, b: BigInt)
    requires WellFormed(a) && WellFormed(b) && Normalized(a.digits) && Normalized(b.digits)
    requires a.sign == b.sign && Value(a) != Value(b)
    ensures Sub(b, a) == BigInt(Flip(Sub(a, b).sign), Sub(a, b).digits)
  {
    SubIsSignedDifference(a, b);
    SubIsSignedDifference(b, a);
  }

  /** Adding then subtracting the same operand gives the starting value back. */
  lemma AddThenSub(a: BigInt, b: BigInt)
    requires WellFormed(a) && WellFormed(b) && Normalized(a.digits) && Normalized(b.digits)
    requires a.sign == b.sign
    ensures Sub(Add(a, b), b) == a
  {
    var s := Add(a, b);
    AddIsSignedSum(a, b);
    assert s.sign == a.sign;
    SubIsSignedDifference(s, b);
    DeterminedByValue(a, a.sign);
  }

  // ---------------------------------------------------------------------
  // Self-assignment
  // ---------------------------------------------------------------------

  /**
   * `x += x` (which doubles) and `x + x` (on a copy) agree for every digit
   * vector: adding a vector to itself column by column is scaling it by 2.
   */
  lemma AliasedAddMatchesCopy(a: BigInt)
    requires WellFormed(a)
    ensures AddAssign(a, a, true) == Add(a, a)
    ensures Add(a, a) == MulInt(a, 2)
  {
    LoopsFromStart(a.digits, a.digits, 2);
    AddSelfIsDouble(a.digits, 0);
    assert MulInt(a, 2) == MulSmall(a, 2);
    assert Add(a, a) == AddSameSign(a, a);
  }

  /**
   * `x -= x` sets zero, but `x - x` on a copy borrows down to an empty
   * vector that keeps the sign: for a negative `x` the two differ.
   */
  lemma AliasedSubDiffersFromCopy(a: BigInt)
    requires WellFormed(a)
    ensures SubAssign(a, a, true) == Zero
    ensures Sub(a, a) == BigInt(a.sign, [])
    ensures SubAssign(a, a, true) == Sub(a, a) <==> a.sign == Positive
  {
  }

  // ---------------------------------------------------------------------
  // Multiplication
  // ---------------------------------------------------------------------

  /** Two positive operands multiply the same way round either order. */
  lemma MulCommutes(a: BigInt, b: BigInt)
    requires WellFormed(a) && WellFormed(b) && Normalized(a.digits) && Normalized(b.digits)
    requires a.sign == Positive && b.sign == Positive
    ensures Mul(a, b) == Mul(b, a)
  {
    var ab, ba := Mul(a, b), Mul(b, a);
    assert Mag(ab.digits) == Mag(ba.digits);
    MagInjective(ab.digits, ba.digits);
  }

  /**
   * For a factor in 2..10 the single-digit path of `*=` computes what the
   * general product with `BigInteger(num)` computes.
   */
  lemma ScalarPathsAgree(a: BigInt, num: int)
    requires WellFormed(a) && Normalized(a.digits) && a.sign == Positive
    requires 2 <= num <= 10
    ensures MulInt(a, num) == MulBig(a, FromInt(num))
  {
    var x, y := MulInt(a, num), MulBig(a, FromInt(num));
    assert Mag(x.digits) == Mag(y.digits);
    MagInjective(x.digits, y.digits);
  }
}
