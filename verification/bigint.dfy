/**
 * The BigInteger value: a sign flag and a least-significant-first digit
 * vector, with its construction from a 32-bit `int`, from text, and its
 * rendering back to text.
 */
module BigInts {
  import opened Digits

  datatype Sign = Positive | Negative

  datatype BigInt = BigInt(sign: Sign, digits: seq<int>)

  /** What `BigInteger(0)` and the default constructor produce. */
  const Zero := BigInt(Positive, [])

  /** The smallest and largest 32-bit `int`. */
  const IntMin := -0x8000_0000
  const IntMax := 0x7FFF_FFFF

  /** Every stored digit is a decimal digit. */
  predicate WellFormed(a: BigInt) {
    ValidDigits(a.digits)
  }

  /** Normalized, and zero carries the positive sign. */
  predicate Canonical(a: BigInt) {
    WellFormed(a) && Normalized(a.digits) && (a.digits == [] ==> a.sign == Positive)
  }

  /** The integer a value denotes; negative zero denotes 0. */
  function Value(a: BigInt): int {
    if a.sign == Negative then -Mag(a.digits) else Mag(a.digits)
  }

  // ---------------------------------------------------------------------
  // From a native int
  // ---------------------------------------------------------------------

  /** The `while (num)` loop: push `num % 10`, then divide by 10. */
  function IntDigits(num: nat): (r: seq<int>)
    ensures ValidDigits(r) && Normalized(r) && Mag(r) == num
    ensures r == [] <==> num == 0
  {
    if num == 0 then []
    else
      var rest := IntDigits(num / 10);
      ConsDigit(num % 10, rest);
      [num % 10] + rest
  }

  /**
   * `BigInteger(int)`: a negative argument sets the sign and is negated
   * first. Negating `INT_MIN` overflows, so that argument is excluded.
   */
  function FromInt(n: int): (r: BigInt)
    requires IntMin < n <= IntMax
    ensures Canonical(r) && Value(r) == n
    ensures r.sign == Negative <==> n < 0
    ensures n == 0 ==> r == Zero
  {
    if n < 0 then BigInt(Negative, IntDigits(-n)) else BigInt(Positive, IntDigits(n))
  }

  // ---------------------------------------------------------------------
  // Characters
  // ---------------------------------------------------------------------

  predicate IsDigitChar(c: char) {
    '0' <= c <= '9'
  }

  /** `c - '0'`. */
  function CharToDigit(c: char): int {
    c as int - '0' as int
  }

  /** `char(d + '0')`. */
  function DigitChar(d: int): (c: char)
    requires IsDigit(d)
    ensures IsDigitChar(c) && CharToDigit(c) == d
  {
    ('0' as int + d) as char
  }

  lemma DigitCharInverse(c: char)
    requires IsDigitChar(c)
    ensures IsDigit(CharToDigit(c)) && DigitChar(CharToDigit(c)) == c
  {
  }

  // ---------------------------------------------------------------------
  // From text
  // ---------------------------------------------------------------------

  /**
   * Text the parser handles: decimal digits and `_` separators, with an
   * optional `-` in front. The source assumes every other character is a
   * digit.
   */
  predicate ValidText(s: string) {
    forall i :: 0 <= i < |s| ==> IsDigitChar(s[i]) || s[i] == '_' || (i == 0 && s[i] == '-')
  }

  /** Drop every `_`, keep every other character in order. */
  function RemoveUnderscores(t: string): (r: string)
    ensures |r| <= |t| && '_' !in r
    ensures forall c :: c in r ==> c in t
    ensures '_' !in t ==> r == t
    ensures (forall i :: 0 <= i < |t| ==> IsDigitChar(t[i]) || t[i] == '_') ==>
              forall i :: 0 <= i < |r| ==> IsDigitChar(r[i])
  {
    if t == [] then []
    else if t[0] == '_' then RemoveUnderscores(t[1..])
    else [t[0]] + RemoveUnderscores(t[1..])
  }

  /**
   * The private `parse`: a leading `-` makes the sign negative and is
   * consumed; every `_` after it is skipped; the other characters are kept.
   */
  function Parse(s: string): (r: (Sign, string))
    requires ValidText(s)
    ensures r.0 == Negative <==> |s| > 0 && s[0] == '-'
    ensures forall i :: 0 <= i < |r.1| ==> IsDigitChar(r.1[i])
    ensures RemoveUnderscores(s) == (if r.0 == Negative then "-" else "") + r.1
  {
    if |s| > 0 && s[0] == '-' then
      assert s == [s[0]] + s[1..];
      (Negative, RemoveUnderscores(s[1..]))
    else
      (Positive, RemoveUnderscores(s))
  }

  /**
   * The constructor loop over the filtered characters from the last to the
   * first, pushing `c - '0'`: the text is reversed into least-significant-first
   * order.
   */
  function TextToDigits(t: string): (r: seq<int>)
    requires forall i :: 0 <= i < |t| ==> IsDigitChar(t[i])
    ensures ValidDigits(r) && |r| == |t|
    ensures forall i :: 0 <= i < |r| ==> r[i] == CharToDigit(t[|t| - 1 - i])
  {
    if t == [] then []
    else
      assert IsDigitChar(t[0]);
      assert IsDigit(CharToDigit(t[0]));
      var rest := TextToDigits(t[1..]);
      rest + [CharToDigit(t[0])]
  }

  /** `BigInteger(const char*)` and `BigInteger(const string&)`. */
  function FromText(s: string): (r: BigInt)
    requires ValidText(s)
    ensures WellFormed(r)
    ensures r.sign == Negative <==> |s| > 0 && s[0] == '-'
  {
    var (sign, filtered) := Parse(s);
    BigInt(sign, TextToDigits(filtered))
  }

  // ---------------------------------------------------------------------
  // To text
  // ---------------------------------------------------------------------

  /** The digits from the most significant down, as characters. */
  function DigitsToText(ds: seq<int>): (r: string)
    requires ValidDigits(ds)
    ensures |r| == |ds|
    ensures forall i :: 0 <= i < |r| ==> r[i] == DigitChar(ds[|ds| - 1 - i])
  {
    if ds == [] then "" else DigitsToText(ds[1..]) + [DigitChar(ds[0])]
  }

  /**
   * `to_string`: a `-` if the sign is negative, then the digits from the top.
   * Only an empty result becomes "0", so negative zero renders as "-".
   */
  function ToString(a: BigInt): (r: string)
    requires WellFormed(a)
    ensures |r| > 0
    ensures a.sign == Negative ==> r == "-" + DigitsToText(a.digits)
    ensures a.sign == Positive && a.digits != [] ==> r == DigitsToText(a.digits)
    ensures a.sign == Positive && a.digits == [] ==> r == "0"
  {
    var res := (if a.sign == Negative then "-" else "") + DigitsToText(a.digits);
    if |res| > 0 then res else "0"
  }

  // ---------------------------------------------------------------------
  // Reference decimal notation
  // ---------------------------------------------------------------------

  /** The usual decimal notation of a natural number, most significant first. */
  function NatText(m: nat): string
    decreases m
  {
    if m < 10 then [DigitChar(m)] else NatText(m / 10) + [DigitChar(m % 10)]
  }

  /** The usual decimal notation of an integer. */
  function IntText(n: int): string {
    if n < 0 then "-" + NatText(-n) else NatText(n)
  }

  /** The number positional decimal text denotes, reading left to right. */
  function TextValue(t: string): int
    requires forall i :: 0 <= i < |t| ==> IsDigitChar(t[i])
  {
    if t == [] then 0 else CharToDigit(t[0]) * Pow10(|t| - 1) + TextValue(t[1..])
  }

  // ---------------------------------------------------------------------
  // Round trips
  // ---------------------------------------------------------------------

  lemma {:induction false} IntDigitsText(m: nat)
    requires m > 0
    ensures DigitsToText(IntDigits(m)) == NatText(m)
    decreases m
  {
    var rest := IntDigits(m / 10);
    assert IntDigits(m) == [m % 10] + rest;
    assert ([m % 10] + rest)[1..] == rest;
    if m >= 10 {
      IntDigitsText(m / 10);
    }
  }

  /** Rendering `BigInteger(n)` gives the decimal notation of `n`. */
  lemma FromIntRendersDecimal(n: int)
    requires IntMin < n <= IntMax
    ensures ToString(FromInt(n)) == IntText(n)
  {
    if n < 0 {
      IntDigitsText(-n);
    } else if n > 0 {
      IntDigitsText(n);
    }
  }

  lemma {:induction false} DigitsToTextPush(ds: seq<int>, d: int)
    requires ValidDigits(ds) && IsDigit(d)
    ensures ValidDigits(ds + [d])
    ensures DigitsToText(ds + [d]) == [DigitChar(d)] + DigitsToText(ds)
  {
    if ds != [] {
      assert (ds + [d])[1..] == ds[1..] + [d];
      DigitsToTextPush(ds[1..], d);
    }
  }

  lemma {:induction false} TextDigitsText(t: string)
    requires forall i :: 0 <= i < |t| ==> IsDigitChar(t[i])
    ensures DigitsToText(TextToDigits(t)) == t
  {
    if t != [] {
      DigitCharInverse(t[0]);
      TextDigitsText(t[1..]);
      DigitsToTextPush(TextToDigits(t[1..]), CharToDigit(t[0]));
      assert t == [t[0]] + t[1..];
    }
  }

  lemma DigitsTextDigits(ds: seq<int>)
    requires ValidDigits(ds)
    ensures TextToDigits(DigitsToText(ds)) == ds
  {
  }

  /**
   * Rendering parsed text gives the text back with every `_` removed, or
   * "0" when nothing is left.
   */
  lemma ParseThenRender(s: string)
    requires ValidText(s)
    ensures ToString(FromText(s)) ==
              (if RemoveUnderscores(s) == "" then "0" else RemoveUnderscores(s))
  {
    var (sign, filtered) := Parse(s);
    TextDigitsText(filtered);
  }

  /** Text without separators, other than the empty text, renders back unchanged. */
  lemma ParseRenderRoundTrip(s: string)
    requires ValidText(s) && '_' !in s && s != ""
    ensures ToString(FromText(s)) == s
  {
    ParseThenRender(s);
  }

  /** Digit text, with or without a leading `-`, parses back to its sign and digits. */
  lemma ParseDigitText(negative: bool, body: string)
    requires forall i :: 0 <= i < |body| ==> IsDigitChar(body[i])
    requires !negative ==> body != ""
    ensures ValidText((if negative then "-" else "") + body)
    ensures Parse((if negative then "-" else "") + body) ==
              (if negative then Negative else Positive, body)
  {
    assert '_' !in body;
    var s := (if negative then "-" else "") + body;
    if negative {
      assert s[1..] == body;
    } else {
      assert s == body && IsDigitChar(s[0]);
      assert RemoveUnderscores(s) == s;
    }
  }

  /** Every well-formed value except positive empty zero survives rendering and parsing. */
  lemma RenderParseRoundTrip(a: BigInt)
    requires WellFormed(a) && a != Zero
    ensures ValidText(ToString(a))
    ensures FromText(ToString(a)) == a
  {
    var body := DigitsToText(a.digits);
    ParseDigitText(a.sign == Negative, body);
    assert ToString(a) == (if a.sign == Negative then "-" else "") + body;
    DigitsTextDigits(a.digits);
  }

  lemma RemoveUnderscoresIdempotent(t: string)
    ensures RemoveUnderscores(RemoveUnderscores(t)) == RemoveUnderscores(t)
  {
  }

  /** Dropping separators works piecewise over a concatenation. */
  lemma {:induction false} RemoveUnderscoresConcat(x: string, y: string)
    ensures RemoveUnderscores(x + y) == RemoveUnderscores(x) + RemoveUnderscores(y)
  {
    if x != [] {
      var xy := x + y;
      assert xy[0] == x[0];
      assert xy[1..] == x[1..] + y;
      RemoveUnderscoresConcat(x[1..], y);
      if x[0] == '_' {
        assert RemoveUnderscores(xy) == RemoveUnderscores(x[1..] + y);
        assert RemoveUnderscores(x) == RemoveUnderscores(x[1..]);
      } else {
        assert RemoveUnderscores(xy) == [x[0]] + RemoveUnderscores(x[1..] + y);
        assert RemoveUnderscores(x) == [x[0]] + RemoveUnderscores(x[1..]);
      }
    } else {
      assert x + y == y;
    }
  }

  /** `_` separators do not change the parsed value: `"100_200_100"` parses as `"100200100"`. */
  lemma SeparatorsIgnored(s: string)
    requires ValidText(s)
    ensures ValidText(RemoveUnderscores(s))
    ensures FromText(s) == FromText(RemoveUnderscores(s))
  {
    var t := RemoveUnderscores(s);
    if |s| > 0 && s[0] == '-' {
      assert s == [s[0]] + s[1..];
      assert t == "-" + RemoveUnderscores(s[1..]);
      assert '-' !in s[1..];
      RemoveUnderscoresIdempotent(s[1..]);
      assert t[1..] == RemoveUnderscores(s[1..]);
    } else {
      assert '-' !in s;
      assert '-' !in t;
    }
  }

  lemma {:induction false} TextValueIsMag(t: string)
    requires forall i :: 0 <= i < |t| ==> IsDigitChar(t[i])
    ensures Mag(TextToDigits(t)) == TextValue(t)
  {
    if t != [] {
      TextValueIsMag(t[1..]);
      MagPush(TextToDigits(t[1..]), CharToDigit(t[0]));
    }
  }

  /** A parsed value denotes its signed decimal text. */
  lemma ParsedValue(s: string)
    requires ValidText(s)
    ensures Value(FromText(s)) ==
              (if Parse(s).0 == Negative then -TextValue(Parse(s).1) else TextValue(Parse(s).1))
  {
    TextValueIsMag(Parse(s).1);
  }
}
