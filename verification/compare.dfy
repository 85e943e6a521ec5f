/**
 * Structural equality, the signed `less_than`, and the six relational
 * operators built on them.
 */
module Compare {
  import opened Digits
  import opened BigInts

  // ---------------------------------------------------------------------
  // equal
  // ---------------------------------------------------------------------

  /** The `equal` loop: positions `i` and up agree. */
  function DigitsMatchFrom(x: seq<int>, y: seq<int>, i: nat): (r: bool)
    requires |x| == |y| && i <= |x|
    ensures r <==> x[i..] == y[i..]
    decreases |x| - i
  {
    if i < |x| then
      if GetDigit(x, i) != GetDigit(y, i) then
        assert x[i..][0] != y[i..][0];
        false
      else
        var r := DigitsMatchFrom(x, y, i + 1);
        assert x[i..] == [x[i]] + x[i + 1..] && y[i..] == [y[i]] + y[i + 1..];
        r
    else
      true
  }

  /** `equal`: same length, same sign, then every digit. */
  function Equal(a: BigInt, b: BigInt): (r: bool)
    ensures r <==> a == b
  {
    if |a.digits| != |b.digits| || a.sign != b.sign then false
    else
      var r := DigitsMatchFrom(a.digits, b.digits, 0);
      assert a.digits[0..] == a.digits && b.digits[0..] == b.digits;
      r
  }

  // ---------------------------------------------------------------------
  // less_than
  // ---------------------------------------------------------------------

  datatype Ordering = Below | Same | Above

  /** The top-down scan of `less_than` over the lowest `n` positions. */
  function TopCompare(x: seq<int>, y: seq<int>, n: nat): Ordering
    requires n <= |x| && n <= |y|
  {
    if n == 0 then Same
    else if GetDigit(x, n - 1) < GetDigit(y, n - 1) then Below
    else if GetDigit(x, n - 1) > GetDigit(y, n - 1) then Above
    else TopCompare(x, y, n - 1)
  }

  /**
   * `less_than`: the negative of two differently signed values is less;
   * for equal signs a shorter vector is less when positive and greater when
   * negative; for equal lengths the highest differing digit decides, again
   * inverted for negatives.
   */
  function LessThan(a: BigInt, b: BigInt): bool {
    if a.sign != b.sign then a.sign == Negative
    else if |a.digits| != |b.digits| then
      (|a.digits| < |b.digits| && a.sign == Positive) || (|a.digits| > |b.digits| && a.sign == Negative)
    else
      match TopCompare(a.digits, b.digits, |a.digits|)
      case Below => a.sign == Positive
      case Above => a.sign == Negative
      case Same => false
  }

  // ---------------------------------------------------------------------
  // Structural facts about the scan
  // ---------------------------------------------------------------------

  lemma {:induction false} TopCompareSame(x: seq<int>, y: seq<int>, n: nat)
    requires n <= |x| && n <= |y|
    ensures TopCompare(x, y, n) == Same <==> x[..n] == y[..n]
  {
    if n > 0 {
      TopCompareSame(x, y, n - 1);
      assert x[..n] == x[..n - 1] + [x[n - 1]] && y[..n] == y[..n - 1] + [y[n - 1]];
      if x[..n] == y[..n] {
        assert x[..n - 1] == x[..n][..n - 1] && y[..n - 1] == y[..n][..n - 1];
        assert x[n - 1] == x[..n][n - 1] && y[n - 1] == y[..n][n - 1];
      }
    }
  }

  lemma {:induction false} TopCompareFlip(x: seq<int>, y: seq<int>, n: nat)
    requires n <= |x| && n <= |y|
    ensures TopCompare(x, y, n) == Below <==> TopCompare(y, x, n) == Above
  {
    if n > 0 {
      TopCompareFlip(x, y, n - 1);
    }
  }

  /** On digit vectors the scan agrees with the magnitudes of the low `n` digits. */
  lemma {:induction false} TopCompareMag(x: seq<int>, y: seq<int>, n: nat)
    requires ValidDigits(x) && ValidDigits(y) && n <= |x| && n <= |y|
    ensures TopCompare(x, y, n) == Below ==> Mag(x[..n]) < Mag(y[..n])
    ensures TopCompare(x, y, n) == Same ==> Mag(x[..n]) == Mag(y[..n])
    ensures TopCompare(x, y, n) == Above ==> Mag(x[..n]) > Mag(y[..n])
  {
    if n > 0 {
      var p := Pow10(n - 1);
      MagPrefix(x, n);
      MagPrefix(y, n);
      MagBounds(x[..n - 1]);
      MagBounds(y[..n - 1]);
      if x[n - 1] != y[n - 1] {
        TopDigitDecides(x[n - 1], y[n - 1], Mag(x[..n - 1]), Mag(y[..n - 1]), p);
      } else {
        TopCompareMag(x, y, n - 1);
      }
    }
  }

  /** Below equal place values, a larger top digit outweighs any lower digits. */
  lemma TopDigitDecides(dx: int, dy: int, lowX: int, lowY: int, p: int)
    requires 0 <= lowX < p && 0 <= lowY < p
    ensures dx < dy ==> lowX + dx * p < lowY + dy * p
    ensures dx > dy ==> lowX + dx * p > lowY + dy * p
  {
    if dx < dy {
      MulMonotone(dx + 1, dy, p);
    } else if dx > dy {
      MulMonotone(dy + 1, dx, p);
    }
  }

  lemma MulMonotone(a: int, b: int, p: int)
    requires a <= b && p >= 0
    ensures a * p <= b * p
  {
    assert b * p - a * p == (b - a) * p;
  }

  lemma {:induction false} Pow10Monotone(m: nat, n: nat)
    requires m <= n
    ensures Pow10(m) <= Pow10(n)
  {
    if m < n {
      Pow10Monotone(m, n - 1);
    }
  }

  /** For normalized vectors a shorter one has a smaller magnitude. */
  lemma ShorterIsSmaller(x: seq<int>, y: seq<int>)
    requires ValidDigits(x) && ValidDigits(y) && Normalized(y)
    requires |x| < |y|
    ensures Mag(x) < Mag(y)
  {
    MagBounds(x);
    MagTop(y);
    Pow10Monotone(|x|, |y| - 1);
  }

  // ---------------------------------------------------------------------
  // Order properties
  // ---------------------------------------------------------------------

  /** Nothing is less than itself. */
  lemma LessThanIrreflexive(a: BigInt)
    ensures !LessThan(a, a)
  {
    TopCompareSame(a.digits, a.digits, |a.digits|);
  }

  /** Exactly one of `a < b`, `a == b`, `b < a` holds, on any two values. */
  lemma Trichotomy(a: BigInt, b: BigInt)
    ensures LessThan(a, b) || Equal(a, b) || LessThan(b, a)
    ensures !(LessThan(a, b) && Equal(a, b))
    ensures !(LessThan(b, a) && Equal(a, b))
    ensures !(LessThan(a, b) && LessThan(b, a))
  {
    var n := |a.digits|;
    if a.sign == b.sign && n == |b.digits| {
      TopCompareSame(a.digits, b.digits, n);
      TopCompareFlip(a.digits, b.digits, n);
      TopCompareFlip(b.digits, a.digits, n);
      assert a.digits[..n] == a.digits && b.digits[..n] == b.digits;
    }
    LessThanIrreflexive(a);
  }

  lemma LessThanAsymmetric(a: BigInt, b: BigInt)
    requires LessThan(a, b)
    ensures !LessThan(b, a)
  {
    Trichotomy(a, b);
  }

  /** Negative canonical values are below zero, positive ones at or above it. */
  lemma CanonicalSignOfValue(a: BigInt)
    requires Canonical(a)
    ensures a.sign == Negative ==> Value(a) < 0
    ensures a.sign == Positive ==> Value(a) >= 0
  {
    MagBounds(a.digits);
    if a.sign == Negative {
      MagTop(a.digits);
    }
  }

  /**
   * For two normalized vectors under one sign, `less_than` orders the
   * magnitudes: ascending when positive, descending when negative.
   */
  lemma LessThanMags(a: BigInt, b: BigInt)
    requires WellFormed(a) && WellFormed(b) && Normalized(a.digits) && Normalized(b.digits)
    requires a.sign == b.sign
    ensures LessThan(a, b) <==>
              if a.sign == Positive then Mag(a.digits) < Mag(b.digits) else Mag(b.digits) < Mag(a.digits)
  {
    var x, y := a.digits, b.digits;
    if |x| < |y| {
      ShorterIsSmaller(x, y);
    } else if |x| > |y| {
      ShorterIsSmaller(y, x);
    } else {
      TopCompareMag(x, y, |x|);
      assert x[..|x|] == x && y[..|y|] == y;
    }
  }

  /** On canonical values `less_than` is the integer order of the values. */
  lemma LessThanMatchesValue(a: BigInt, b: BigInt)
    ensures Canonical(a) && Canonical(b) ==> (LessThan(a, b) <==> Value(a) < Value(b))
  {
    if Canonical(a) && Canonical(b) {
      CanonicalSignOfValue(a);
      CanonicalSignOfValue(b);
      if a.sign == b.sign {
        LessThanMags(a, b);
      }
    }
  }

  /** Two canonical values that denote the same integer are the same value. */
  lemma CanonicalUnique(a: BigInt, b: BigInt)
    ensures Canonical(a) && Canonical(b) && Value(a) == Value(b) ==> a == b
  {
    LessThanMatchesValue(a, b);
    LessThanMatchesValue(b, a);
    Trichotomy(a, b);
  }

  // ---------------------------------------------------------------------
  // The relational operators
  // ---------------------------------------------------------------------

  /** `operator==`: structural equality. */
  function Eq(a: BigInt, b: BigInt): (r: bool)
    ensures r <==> a == b
    ensures Canonical(a) && Canonical(b) ==> (r <==> Value(a) == Value(b))
  {
    CanonicalUnique(a, b);
    Equal(a, b)
  }

  /** `operator!=`. */
  function Ne(a: BigInt, b: BigInt): (r: bool)
    ensures r <==> a != b
  {
    !Eq(a, b)
  }

  /** `operator<`. */
  function Lt(a: BigInt, b: BigInt): (r: bool)
    ensures Canonical(a) && Canonical(b) ==> (r <==> Value(a) < Value(b))
  {
    LessThanMatchesValue(a, b);
    LessThan(a, b)
  }

  /** `operator<=`: equal or less. */
  function Le(a: BigInt, b: BigInt): (r: bool)
    ensures Canonical(a) && Canonical(b) ==> (r <==> Value(a) <= Value(b))
  {
    Eq(a, b) || Lt(a, b)
  }

  /** `operator>`: the arguments of `<` swapped. */
  function Gt(a: BigInt, b: BigInt): (r: bool)
    ensures Canonical(a) && Canonical(b) ==> (r <==> Value(a) > Value(b))
  {
    Lt(b, a)
  }

  /**
   * `operator>=` as written: `lhs == rhs || rhs > rhs`. The second test
   * compares `rhs` with itself, so the operator is plain equality.
   */
  function Ge(a: BigInt, b: BigInt): (r: bool)
    ensures r <==> a == b
  {
    LessThanIrreflexive(b);
    Eq(a, b) || Gt(b, b)
  }

  /** A concrete pair on which the written `>=` disagrees with integer `>=`. */
  lemma GeMissesGreater()
    ensures Value(FromInt(1)) >= Value(FromInt(0)) && !Ge(FromInt(1), FromInt(0))
  {
  }

  /** `operator>=` as evidently intended: `lhs == rhs || lhs > rhs`. */
  function GeIntended(a: BigInt, b: BigInt): (r: bool)
    ensures Canonical(a) && Canonical(b) ==> (r <==> Value(a) >= Value(b))
  {
    Eq(a, b) || Gt(a, b)
  }
}
