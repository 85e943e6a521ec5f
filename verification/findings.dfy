/**
 * Two places where the operators do not compute what their names promise,
 * each shown on a concrete input, next to the evidently intended
 * definition and the property it has. (The third, `operator>=`, sits with
 * the other relational operators as `Compare.Ge` / `Compare.GeIntended`.)
 */
module Findings {
  import opened Digits
  import opened Schoolbook
  import opened BigInts
  import opened Compare
  import opened Arith
  import opened Laws
  import opened Example

  // ---------------------------------------------------------------------
  // A zero result keeps a negative sign and renders as "-"
  // ---------------------------------------------------------------------

  /**
   * `-5 + 5` borrows down to an empty vector that keeps the negative sign,
   * and `0 * -5` marks the empty product negative; both render as "-".
   */
  lemma NegativeZeroRendersDash()
    ensures Value(Add(FromInt(-5), FromInt(5))) == 0
    ensures ToString(Add(FromInt(-5), FromInt(5))) == "-"
    ensures Value(Mul(Zero, FromInt(-5))) == 0 && ToString(Mul(Zero, FromInt(-5))) == "-"
    ensures IntText(0) == "0"
  {
    AddIsSignedSum(FromInt(-5), FromInt(5));
    var p := Mul(Zero, FromInt(-5));
    assert p.digits == [] by {
      MagBounds(p.digits);
      if p.digits != [] {
        MagTop(p.digits);
      }
    }
    assert DigitChar(0) == '0';
  }

  /** A normalized nonzero value renders as the decimal notation of its integer. */
  lemma NonzeroRendersDecimal(a: BigInt)
    requires WellFormed(a) && Normalized(a.digits) && a.digits != []
    ensures ToString(a) == IntText(Value(a))
  {
    DeterminedByValue(a, a.sign);
    MagTop(a.digits);
    SignedRendersDecimal(Value(a), a.sign);
  }

  /**
   * `to_string` as evidently intended: an empty vector is "0" whatever the
   * sign, so every normalized value renders as its decimal notation.
   */
  function ToStringIntended(a: BigInt): (r: string)
    requires WellFormed(a)
    ensures Normalized(a.digits) ==> r == IntText(Value(a))
    ensures a.digits != [] ==> r == ToString(a)
  {
    if a.digits == [] then
      assert DigitChar(0) == '0';
      "0"
    else
      assert Normalized(a.digits) ==> ToString(a) == IntText(Value(a)) by {
        if Normalized(a.digits) {
          NonzeroRendersDecimal(a);
        }
      }
      ToString(a)
  }

  // ---------------------------------------------------------------------
  // Leading zeros survive parsing and mislead the comparisons
  // ---------------------------------------------------------------------

  const Padded: string := "007"
  const Ten: string := "10"

  lemma PaddedDigits()
    ensures ValidText(Padded) && FromText(Padded) == BigInt(Positive, [7, 0, 0])
  {
    var a := BigInt(Positive, [7, 0, 0]);
    assert ToString(a) == Padded by {
      assert DigitsToText(a.digits) == ['0', '0', '7'];
    }
    RenderParseRoundTrip(a);
  }

  lemma TenDigits()
    ensures ValidText(Ten) && FromText(Ten) == BigInt(Positive, [0, 1])
  {
    var a := BigInt(Positive, [0, 1]);
    assert ToString(a) == Ten by {
      assert DigitsToText(a.digits) == ['1', '0'];
    }
    RenderParseRoundTrip(a);
  }

  /** The borrow loop on the padded operands, column by column. */
  lemma PaddedBorrows()
    ensures SubLoop([7, 0, 0], [0, 1], 0, 0) == [7, 9, 9]
  {
    PaddedBorrowFirst();
    PaddedBorrowSecond();
    PaddedBorrowThird();
  }

  lemma PaddedBorrowFirst()
    ensures SubLoop([7, 0, 0], [0, 1], 0, 0) == SubLoop([7, 0, 0], [0, 1], 1, 0)
  {
    assert ChangeDigit([7, 0, 0], 0, 7) == [7, 0, 0];
  }

  lemma PaddedBorrowSecond()
    ensures SubLoop([7, 0, 0], [0, 1], 1, 0) == SubLoop([7, 9, 0], [0, 1], 2, 1)
  {
    assert ChangeDigit([7, 0, 0], 1, 9) == [7, 9, 0];
  }

  lemma PaddedBorrowThird()
    ensures SubLoop([7, 9, 0], [0, 1], 2, 1) == [7, 9, 9]
  {
    assert ChangeDigit([7, 9, 0], 2, 9) == [7, 9, 9];
    assert SubLoop([7, 9, 9], [0, 1], 3, 1) == [7, 9, 9];
  }

  /** The padded operands share a sign and the longer one is not "less". */
  lemma PaddedInPlace()
    ensures Sub(BigInt(Positive, [7, 0, 0]), BigInt(Positive, [0, 1])) == BigInt(Positive, [7, 9, 9])
  {
    var a, b := BigInt(Positive, [7, 0, 0]), BigInt(Positive, [0, 1]);
    assert !Swap(a, b) by {
      assert !LessThan(a, b);
    }
    PaddedBorrows();
    assert Sub(a, b) == BigInt(Positive, Normalize([7, 9, 9]));
  }

  /**
   * `"007" - "10"`: the longer vector is taken as the larger magnitude, no
   * swap happens, and the borrow runs off the top, leaving 997.
   */
  lemma PaddedSubtraction()
    ensures ValidText(Padded) && ValidText(Ten)
    ensures Value(Sub(FromText(Padded), FromText(Ten))) == 997
  {
    PaddedDigits();
    TenDigits();
    PaddedInPlace();
    assert Mag([7, 9, 9]) == 7 + 10 * Mag([9, 9]);
    assert Mag([9, 9]) == 9 + 10 * Mag([9]);
  }

  /** The constructor from text as evidently intended: normalize what was pushed. */
  function FromTextIntended(s: string): (r: BigInt)
    requires ValidText(s)
    ensures WellFormed(r) && Normalized(r.digits)
    ensures r.sign == FromText(s).sign && Value(r) == Value(FromText(s))
  {
    var a := FromText(s);
    NormalizePreservesMag(a.digits);
    BigInt(a.sign, Normalize(a.digits))
  }

  /** With normalized operands the difference of two parsed texts is their integer difference. */
  lemma IntendedSubtraction(s: string, t: string)
    requires ValidText(s) && ValidText(t)
    requires FromText(s).sign != FromText(t).sign ==> FromText(t).sign == Positive
    ensures Value(Sub(FromTextIntended(s), FromTextIntended(t))) ==
              Value(FromText(s)) - Value(FromText(t))
  {
  }

  lemma PaddedValues()
    ensures ValidText(Padded) && ValidText(Ten)
    ensures FromText(Padded).sign == Positive && Value(FromText(Padded)) == 7
    ensures FromText(Ten).sign == Positive && Value(FromText(Ten)) == 10
  {
    PaddedDigits();
    TenDigits();
    PaddedMags();
  }

  lemma PaddedMags()
    ensures Mag([7, 0, 0]) == 7 && Mag([0, 1]) == 10
  {
    assert [7, 0, 0][1..] == [0, 0] && [0, 0][1..] == [0];
    assert [0, 1][1..] == [1];
  }

  /** On the padded example the intended constructor gives -3. */
  lemma PaddedSubtractionIntended()
    ensures ValidText(Padded) && ValidText(Ten)
    ensures Value(Sub(FromTextIntended(Padded), FromTextIntended(Ten))) == -3
  {
    PaddedValues();
    IntendedSubtraction(Padded, Ten);
  }
}
