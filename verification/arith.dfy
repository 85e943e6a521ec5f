/**
 * The arithmetic operators: `*=` by an `int` and by a BigInteger, `+=` and
 * `-=` (with the self-assignment cases), and the binary operators that copy
 * the left operand and apply the compound one.
 *
 * Several paths of the source negate a negative value through `rhs * -1`,
 * which multiplies by `BigInteger(-1)`, whose `+=` of a negative partial
 * product negates it again, without end. Those calls never return, so the
 * preconditions below exclude exactly them.
 */
module Arith {
  import opened Digits
  import opened Schoolbook
  import opened BigInts
  import opened Compare

  function Flip(s: Sign): Sign {
    if s == Positive then Negative else Positive
  }

  // ---------------------------------------------------------------------
  // operator*=(int)
  // ---------------------------------------------------------------------

  /**
   * The single-digit path of `operator*=(int)`, for 2 <= num <= 10: scale
   * every digit, push the last carry. `negate_it` only re-marks a negative
   * value as negative, so the sign is kept.
   */
  function MulSmall(a: BigInt, num: int): (r: BigInt)
    requires WellFormed(a) && 2 <= num <= 10
    ensures WellFormed(r) && r.sign == a.sign
    ensures Mag(r.digits) == Mag(a.digits) * num
    ensures Normalized(a.digits) ==> Normalized(r.digits)
  {
    var negateIt := a.sign == Negative && num > 0;
    ScaleFromStart(a.digits, num);
    BigInt(if negateIt then Negative else a.sign, ScaleLoop(a.digits, num, 0, 0))
  }

  lemma ScaleFromStart(x: seq<int>, num: int)
    requires ValidDigits(x) && 2 <= num <= 10
    ensures ValidDigits(ScaleLoop(x, num, 0, 0))
    ensures Mag(ScaleLoop(x, num, 0, 0)) == Mag(x) * num
    ensures Normalized(x) ==> Normalized(ScaleLoop(x, num, 0, 0))
  {
    assert ScaleLoop(x, num, 0, 0) == ScaleDigits(x, num, 0) by {
      LoopsFromStart(x, [], num);
    }
    assert num * Mag(x) == Mag(x) * num;
    if Normalized(x) {
      ScaleDigitsNormalized(x, num, 0);
    }
  }

  /**
   * `operator*=(int)`: 0 gives zero, 1 leaves the value alone, a factor
   * outside 0..10 goes through `*= BigInteger(num)`, and 2..10 scales.
   * A negative factor only returns for a positive value (or the call never
   * returns), and the same holds for a factor above 10.
   */
  function MulInt(a: BigInt, num: int): (r: BigInt)
    requires WellFormed(a) && IntMin < num <= IntMax
    requires num < 0 || num > 10 ==> a.sign == Positive
    ensures WellFormed(r)
    ensures Value(r) == Value(a) * num
    ensures Mag(r.digits) == Mag(a.digits) * (if num < 0 then -num else num)
    ensures Normalized(a.digits) ==> Normalized(r.digits)
    ensures num == 0 ==> r == Zero
    ensures num > 0 ==> r.sign == a.sign
    ensures num < 0 ==> r.sign == Negative
    decreases if num < 0 || num > 10 then 3 else 0, 0
  {
    if num == 0 then Zero
    else if num == 1 then a
    else if 10 < num || num < 0 then
      var b := FromInt(num);
      var r := MulBig(a, b);
      assert Mag(b.digits) == (if num < 0 then -num else num);
      r
    else
      MulSmall(a, num)
  }

  // ---------------------------------------------------------------------
  // operator*=(BigInteger)
  // ---------------------------------------------------------------------

  /**
   * The same-sign path of `operator+=`: digit-wise addition into `a`'s
   * vector, overwriting its positions and pushing beyond them.
   */
  function AddSameSign(a: BigInt, b: BigInt): (r: BigInt)
    requires WellFormed(a) && WellFormed(b) && a.sign == b.sign
    ensures WellFormed(r) && r.sign == a.sign
    ensures Mag(r.digits) == Mag(a.digits) + Mag(b.digits)
    ensures Normalized(a.digits) && Normalized(b.digits) ==> Normalized(r.digits)
  {
    LoopsFromStart(a.digits, b.digits, 0);
    assert Normalized(a.digits) && Normalized(b.digits) ==> Normalized(AddDigits(a.digits, b.digits, 0)) by {
      if Normalized(a.digits) && Normalized(b.digits) {
        AddDigitsNormalized(a.digits, b.digits, 0);
      }
    }
    BigInt(a.sign, AddLoop(a.digits, b.digits, |a.digits|, 0, 0))
  }

  /**
   * The loop of `operator*=(BigInteger)` from position `i`: add
   * `lhs * digit` into `sum`, then `lhs *= 10`. `sum` starts at zero and
   * every partial product is positive (the value is positive, or the digit
   * is 0 and the product is zero), so `+=` always takes its same-sign path.
   */
  function MulLoop(lhs: BigInt, rhs: seq<int>, i: nat, sum: BigInt): (r: BigInt)
    requires WellFormed(lhs) && ValidDigits(rhs) && WellFormed(sum) && i <= |rhs|
    requires sum.sign == Positive
    requires lhs.sign == Positive || forall j :: i <= j < |rhs| ==> rhs[j] == 0
    ensures WellFormed(r) && r.sign == Positive
    ensures Mag(r.digits) == Mag(sum.digits) + Mag(lhs.digits) * Mag(rhs[i..])
    ensures Normalized(lhs.digits) && Normalized(sum.digits) ==> Normalized(r.digits)
    decreases 1, |rhs| - i
  {
    if i < |rhs| then
      var d := GetDigit(rhs, i);
      var partial := MulInt(lhs, d);
      var sum' := AddSameSign(sum, partial);
      var lhs' := MulInt(lhs, 10);
      var r := MulLoop(lhs', rhs, i + 1, sum');
      assert rhs[i..] == [d] + rhs[i + 1..];
      ConsDigit(d, rhs[i + 1..]);
      MulStep(Mag(sum.digits), Mag(lhs.digits), d, Mag(rhs[i + 1..]));
      r
    else
      sum
  }

  lemma MulStep(s: int, l: int, d: int, m: int)
    ensures s + l * d + (l * 10) * m == s + l * (d + 10 * m)
  {
    assert l * (d + 10 * m) == l * d + l * (10 * m);
  }

  /**
   * `operator*=(BigInteger)`: the sum of the shifted partial products, marked
   * negative when the signs differ. With a negative left operand the loop
   * only returns when every digit of the right operand is 0.
   */
  function MulBig(a: BigInt, b: BigInt): (r: BigInt)
    requires WellFormed(a) && WellFormed(b)
    requires a.sign == Positive || forall i :: 0 <= i < |b.digits| ==> b.digits[i] == 0
    ensures WellFormed(r)
    ensures Mag(r.digits) == Mag(a.digits) * Mag(b.digits)
    ensures Value(r) == Value(a) * Value(b)
    ensures r.sign == Negative <==> a.sign != b.sign
    ensures Normalized(a.digits) ==> Normalized(r.digits)
    decreases 2, 0
  {
    var negateIt := a.sign != b.sign;
    var sum := MulLoop(a, b.digits, 0, Zero);
    assert b.digits[0..] == b.digits;
    var r := if negateIt then BigInt(Negative, sum.digits) else sum;
    SignedProduct(a, b, r);
    r
  }

  lemma SignedProduct(a: BigInt, b: BigInt, r: BigInt)
    requires a.sign == Positive || forall i :: 0 <= i < |b.digits| ==> b.digits[i] == 0
    requires Mag(r.digits) == Mag(a.digits) * Mag(b.digits)
    requires r.sign == Negative <==> a.sign != b.sign
    ensures Value(r) == Value(a) * Value(b)
  {
    if a.sign == Negative {
      MagAllZero(b.digits);
    } else if b.sign == Negative {
      assert Mag(a.digits) * -Mag(b.digits) == -(Mag(a.digits) * Mag(b.digits));
    }
  }

  /** `rhs * -1` on a positive value: the same digits, marked negative. */
  function Negate(b: BigInt): (r: BigInt)
    requires WellFormed(b) && b.sign == Positive
    ensures r == BigInt(Negative, b.digits)
  {
    var one := BigInt(Negative, [1]);
    assert IntDigits(1) == [1];
    assert FromInt(-1) == one;
    var sum := AddSameSign(Zero, MulInt(b, 1));
    LoopsFromStart([], b.digits, 0);
    AddDigitsOntoEmpty(b.digits);
    assert sum == BigInt(Positive, b.digits);
    assert MulLoop(MulInt(b, 10), one.digits, 1, sum) == sum;
    assert MulLoop(b, one.digits, 0, Zero) == sum;
    MulInt(b, -1)
  }

  // ---------------------------------------------------------------------
  // operator+= and operator-=
  // ---------------------------------------------------------------------

  /** The swap test of `operator-=`: `rhs` is the larger magnitude. */
  predicate Swap(a: BigInt, b: BigInt) {
    (a.sign == Positive && Lt(a, b)) || (a.sign == Negative && Gt(a, b))
  }

  /** Under one sign a swap one way rules out a swap the other way. */
  lemma SwapAsymmetric(a: BigInt, b: BigInt)
    requires a.sign == b.sign && Swap(a, b)
    ensures !Swap(b, a)
  {
    if a.sign == Positive {
      LessThanAsymmetric(a, b);
    } else {
      LessThanAsymmetric(b, a);
    }
  }

  /**
   * `operator+=`. `aliased` says that `rhs` is `*this` itself, which doubles
   * the value. Differing signs subtract the negated right operand; this
   * returns only when the right operand is the positive one.
   */
  function AddAssign(a: BigInt, b: BigInt, aliased: bool): (r: BigInt)
    requires WellFormed(a) && WellFormed(b)
    requires aliased ==> a == b
    requires !aliased && a.sign != b.sign ==> b.sign == Positive
    ensures WellFormed(r)
    ensures a.sign == b.sign ==> r.sign == a.sign && Value(r) == Value(a) + Value(b)
    ensures Normalized(a.digits) && Normalized(b.digits) ==>
              Normalized(r.digits) && Value(r) == Value(a) + Value(b) &&
              (r.digits == [] ==> r.sign == a.sign)
    decreases if !aliased && a.sign != b.sign then 3 else 0
  {
    if aliased then
      MulInt(a, 2)
    else if a.sign != b.sign then
      SubAssign(a, Negate(b), false)
    else
      AddSameSign(a, b)
  }

  /**
   * `operator-=`. `aliased` says that `rhs` is `*this` itself, which gives
   * zero. Differing signs add the negated right operand (returning only
   * when it is positive); a larger right magnitude computes `rhs - *this`
   * and flips its sign; otherwise digits are borrowed across `*this`'s
   * positions and the result is normalized.
   */
  function SubAssign(a: BigInt, b: BigInt, aliased: bool): (r: BigInt)
    requires WellFormed(a) && WellFormed(b)
    requires aliased ==> a == b
    requires !aliased && a.sign != b.sign ==> b.sign == Positive
    ensures WellFormed(r)
    ensures aliased ==> r == Zero
    ensures a == b ==> r == if aliased then Zero else BigInt(a.sign, [])
    ensures Normalized(a.digits) && Normalized(b.digits) ==>
              Normalized(r.digits) && Value(r) == Value(a) - Value(b) &&
              (r.digits == [] ==> r.sign == if aliased then Positive else a.sign)
    decreases if aliased then 0 else if a.sign != b.sign then 2 else if Swap(a, b) then 1 else 0
  {
    if aliased then
      Zero
    else if a.sign != b.sign then
      AddAssign(a, Negate(b), false)
    else if Swap(a, b) then
      LessThanIrreflexive(a);
      SwapAsymmetric(a, b);
      var t := SubAssign(b, a, false);
      assert Normalized(a.digits) && Normalized(b.digits) ==> Mag(a.digits) != Mag(b.digits) by {
        if Normalized(a.digits) && Normalized(b.digits) {
          LessThanMags(a, b);
          LessThanMags(b, a);
        }
      }
      BigInt(Flip(t.sign), t.digits)
    else
      SubInPlace(a, b)
  }

  /**
   * The borrowing loop of `operator-=` over `*this`'s positions, then
   * `normalize`. Reached when the signs agree and `rhs` is not the larger
   * magnitude.
   */
  function SubInPlace(a: BigInt, b: BigInt): (r: BigInt)
    requires WellFormed(a) && WellFormed(b) && a.sign == b.sign && !Swap(a, b)
    ensures WellFormed(r) && r.sign == a.sign && Normalized(r.digits)
    ensures Normalized(a.digits) && Normalized(b.digits) ==>
              Mag(r.digits) == Mag(a.digits) - Mag(b.digits)
    ensures a == b ==> r.digits == []
  {
    var d := SubLoop(a.digits, b.digits, 0, 0);
    LoopsFromStart(a.digits, b.digits, 0);
    assert a == b ==> Normalize(d) == [] by {
      if a == b {
        SubSelfVanishes(a.digits);
      }
    }
    assert Normalized(a.digits) && Normalized(b.digits) ==>
             Mag(Normalize(d)) == Mag(a.digits) - Mag(b.digits) by {
      if Normalized(a.digits) && Normalized(b.digits) {
        SubNoSwapFits(a, b);
        SubNoFinalBorrow(a.digits, b.digits, 0);
        NormalizePreservesMag(d);
      }
    }
    BigInt(a.sign, Normalize(d))
  }

  /** Subtracting a digit vector from itself leaves only zeros, which normalize away. */
  lemma SubSelfVanishes(x: seq<int>)
    requires ValidDigits(x)
    ensures Normalize(SubDigits(x, x, 0)) == []
  {
    var d := SubDigits(x, x, 0);
    SubNoFinalBorrow(x, x, 0);
    NormalizePreservesMag(d);
    if Normalize(d) != [] {
      MagTop(Normalize(d));
    }
  }

  /**
   * Without a swap, the right operand of the same sign has no more digits
   * and no larger magnitude, so the borrow loop does not run off the top.
   */
  lemma SubNoSwapFits(a: BigInt, b: BigInt)
    requires WellFormed(a) && WellFormed(b) && Normalized(a.digits) && Normalized(b.digits)
    requires a.sign == b.sign && !Swap(a, b)
    ensures |b.digits| <= |a.digits| && Mag(b.digits) <= Mag(a.digits)
  {
    if a.sign == Positive {
      LessThanMags(a, b);
    } else {
      LessThanMags(b, a);
    }
    if |b.digits| > |a.digits| {
      ShorterIsSmaller(a.digits, b.digits);
    }
  }

  // ---------------------------------------------------------------------
  // The binary operators: copy the left operand, apply the compound one
  // ---------------------------------------------------------------------

  /** `operator+`: the copy is never the right operand itself. */
  function Add(a: BigInt, b: BigInt): (r: BigInt)
    requires WellFormed(a) && WellFormed(b)
    requires a.sign != b.sign ==> b.sign == Positive
    ensures WellFormed(r)
    ensures a.sign == b.sign ==> r.sign == a.sign && Value(r) == Value(a) + Value(b)
    ensures Normalized(a.digits) && Normalized(b.digits) ==> Value(r) == Value(a) + Value(b)
  {
    AddAssign(a, b, false)
  }

  /** `operator-`. */
  function Sub(a: BigInt, b: BigInt): (r: BigInt)
    requires WellFormed(a) && WellFormed(b)
    requires a.sign != b.sign ==> b.sign == Positive
    ensures WellFormed(r)
    ensures a == b ==> r == BigInt(a.sign, [])
    ensures Normalized(a.digits) && Normalized(b.digits) ==> Value(r) == Value(a) - Value(b)
  {
    SubAssign(a, b, false)
  }

  /** `operator*(BigInteger)`. */
  function Mul(a: BigInt, b: BigInt): (r: BigInt)
    requires WellFormed(a) && WellFormed(b)
    requires a.sign == Positive || forall i :: 0 <= i < |b.digits| ==> b.digits[i] == 0
    ensures WellFormed(r) && Value(r) == Value(a) * Value(b)
  {
    MulBig(a, b)
  }

  /** `operator*(int)`. */
  function MulScalar(a: BigInt, num: int): (r: BigInt)
    requires WellFormed(a) && IntMin < num <= IntMax
    requires num < 0 || num > 10 ==> a.sign == Positive
    ensures WellFormed(r) && Value(r) == Value(a) * num
  {
    MulInt(a, num)
  }
}
