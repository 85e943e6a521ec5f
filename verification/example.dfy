/**
 * A worked example: two values constructed from text with `_` separators,
 * then their sum, difference, product and renderings.
 */
module ExampleText {
  import opened BigInts

  /** The two operands, as text. */
  const LeftText: string := "100_200_100"
  const RightText: string := "300_200_100"

  /** Both operands split at their separators. */
  lemma ExamplePieces()
    ensures LeftText == "100" + ("_200" + "_100")
    ensures RightText == "300" + ("_200" + "_100")
  {
  }

  /** The separator-free pieces of both operands. */
  lemma ExamplePiecesFree()
    ensures RemoveUnderscores("100") == "100" && RemoveUnderscores("300") == "300"
    ensures RemoveUnderscores("_200") == "200" && RemoveUnderscores("_100") == "100"
  {
  }

  /** Three more low digits append three characters to the decimal notation. */
  lemma NatTextThreeMore(a: nat, b: nat)
    requires a > 0 && b < 1000
    ensures NatText(a * 1000 + b) ==
              NatText(a) + [DigitChar(b / 100), DigitChar(b / 10 % 10), DigitChar(b % 10)]
  {
    var m1, m2 := a * 100 + b / 10, a * 10 + b / 100;
    assert (a * 1000 + b) / 10 == m1 && (a * 1000 + b) % 10 == b % 10;
    assert m1 / 10 == m2 && m1 % 10 == b / 10 % 10;
    assert m2 / 10 == a && m2 % 10 == b / 100;
    assert NatText(a * 1000 + b) == NatText(m1) + [DigitChar(b % 10)];
    assert NatText(m1) == NatText(m2) + [DigitChar(b / 10 % 10)];
    assert NatText(m2) == NatText(a) + [DigitChar(b / 100)];
  }

  lemma ExampleRenderedLeft()
    ensures IntText(100200100) == "100200100"
  {
    NatTextThreeMore(100200, 100);
    NatTextThreeMore(100, 200);
    assert NatText(100) == "100";
  }

  lemma ExampleRenderedRight()
    ensures IntText(300200100) == "300200100"
  {
    NatTextThreeMore(300200, 100);
    NatTextThreeMore(300, 200);
    assert NatText(300) == "300";
  }

  lemma ExampleJoined()
    ensures "100200100" == "100" + ("200" + "100") && "300200100" == "300" + ("200" + "100")
  {
  }

  lemma ExampleSeparatorFree()
    ensures RemoveUnderscores(LeftText) == IntText(100200100)
    ensures RemoveUnderscores(RightText) == IntText(300200100)
  {
    ExamplePieces();
    ExamplePiecesFree();
    ExampleRenderedLeft();
    ExampleRenderedRight();
    ExampleJoined();
    RemoveUnderscoresConcat("100", "_200" + "_100");
    RemoveUnderscoresConcat("300", "_200" + "_100");
    RemoveUnderscoresConcat("_200", "_100");
  }

  lemma ExampleValidText()
    ensures ValidText(LeftText) && ValidText(RightText)
  {
  }

  /** Text whose separator-free form renders a nonzero int parses back to it. */
  lemma ParsesAsInt(n: int, s: string)
    requires IntMin < n <= IntMax && n != 0
    requires ValidText(s) && RemoveUnderscores(s) == IntText(n)
    ensures FromText(s) == FromInt(n)
  {
    FromIntRendersDecimal(n);
    RenderParseRoundTrip(FromInt(n));
    SeparatorsIgnored(s);
  }

  lemma ExampleOperands()
    ensures ValidText(LeftText) && FromText(LeftText) == FromInt(100200100)
    ensures ValidText(RightText) && FromText(RightText) == FromInt(300200100)
  {
    ExampleValidText();
    ExampleSeparatorFree();
    ParsesAsInt(100200100, LeftText);
    ParsesAsInt(300200100, RightText);
  }
}

module Example {
  import opened BigInts
  import opened Arith
  import opened Laws
  import opened ExampleText

  /** A nonzero value written without leading zeros renders as its decimal notation. */
  lemma SignedRendersDecimal(v: int, zeroSign: Sign)
    requires v != 0
    ensures ToString(Signed(v, zeroSign)) == IntText(v)
  {
    var m := if v < 0 then -v else v;
    IntDigitsText(m);
  }

  /** The sum, difference and product of the two operands. */
  lemma ExampleResults()
    ensures ValidText(LeftText) && ValidText(RightText)
    ensures Add(FromText(LeftText), FromText(RightText)) == Signed(400400200, Positive)
    ensures Sub(FromText(LeftText), FromText(RightText)) == Signed(-200000000, Positive)
    ensures Mul(FromText(LeftText), FromText(RightText)) == Signed(30080080040010000, Positive)
  {
    ExampleOperands();
    var x, y := FromInt(100200100), FromInt(300200100);
    AddIsSignedSum(x, y);
    SubIsSignedDifference(x, y);
    var p := Mul(x, y);
    DeterminedByValue(p, Positive);
  }

  /** Each result renders as the decimal notation of its integer. */
  lemma ExampleOutput()
    ensures ValidText(LeftText) && ValidText(RightText)
    ensures ToString(Add(FromText(LeftText), FromText(RightText))) == IntText(400400200)
    ensures ToString(Sub(FromText(LeftText), FromText(RightText))) == IntText(-200000000)
    ensures ToString(Mul(FromText(LeftText), FromText(RightText))) == IntText(30080080040010000)
  {
    ExampleResults();
    SignedRendersDecimal(400400200, Positive);
    SignedRendersDecimal(-200000000, Positive);
    SignedRendersDecimal(30080080040010000, Positive);
  }
}
