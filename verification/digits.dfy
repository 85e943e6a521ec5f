/**
 * The digit vector of a BigInteger: one decimal digit per element, least
 * significant digit first, together with the three accessors the arithmetic
 * loops use (`get_digit`, `change_digit`, `push_digit`) and `normalize`.
 *
 * The source stores each digit as the character `'0' + d`; here a digit is
 * the integer `d` itself, so the `+ '0'` / `- '0'` conversions disappear.
 */
module Digits {

  /** 10^n. */
  function Pow10(n: nat): (r: nat)
    ensures r >= 1
  {
    if n == 0 then 1 else 10 * Pow10(n - 1)
  }

  predicate IsDigit(d: int) {
    0 <= d <= 9
  }

  /** Every element is a decimal digit. */
  predicate ValidDigits(ds: seq<int>) {
    forall i :: 0 <= i < |ds| ==> IsDigit(ds[i])
  }

  /** The magnitude a least-significant-first digit vector denotes. */
  function Mag(ds: seq<int>): int {
    if ds == [] then 0 else ds[0] + 10 * Mag(ds[1..])
  }

  /** No most-significant zero digit; the empty vector is the normal zero. */
  predicate Normalized(ds: seq<int>) {
    |ds| == 0 || ds[|ds| - 1] != 0
  }

  /** `get_digit`: the digit at `pos`, or 0 for any position outside the vector. */
  function GetDigit(ds: seq<int>, pos: int): int {
    if 0 <= pos < |ds| then ds[pos] else 0
  }

  /**
   * `change_digit`: overwrite the digit at `pos`. The source throws for a
   * position outside the vector; here that is a precondition, discharged at
   * every call site.
   */
  function ChangeDigit(ds: seq<int>, pos: int, val: int): (r: seq<int>)
    requires 0 <= pos < |ds|
    ensures |r| == |ds| && r[pos] == val
    ensures forall i :: 0 <= i < |ds| && i != pos ==> r[i] == ds[i]
  {
    ds[pos := val]
  }

  /** `push_digit`: append a new most-significant digit. */
  function PushDigit(ds: seq<int>, val: int): (r: seq<int>)
    ensures |r| == |ds| + 1 && r[..|ds|] == ds && r[|ds|] == val
  {
    ds + [val]
  }

  /**
   * `normalize`: pop most-significant zero digits until the top digit is
   * nonzero or the vector is empty.
   */
  function Normalize(ds: seq<int>): (r: seq<int>)
    ensures Normalized(r)
    ensures |r| <= |ds| && r == ds[..|r|]
    ensures forall i :: |r| <= i < |ds| ==> ds[i] == 0
  {
    if |ds| > 0 && ds[|ds| - 1] == 0 then Normalize(ds[..|ds| - 1]) else ds
  }

  // ---------------------------------------------------------------------
  // Facts about magnitudes
  // ---------------------------------------------------------------------

  /** A digit placed below a vector: still digits, magnitude shifted up one place. */
  lemma ConsDigit(v: int, rest: seq<int>)
    requires IsDigit(v) && ValidDigits(rest)
    ensures ValidDigits([v] + rest)
    ensures Mag([v] + rest) == v + 10 * Mag(rest)
  {
    assert ([v] + rest)[1..] == rest;
  }

  lemma {:induction false} MagBounds(ds: seq<int>)
    requires ValidDigits(ds)
    ensures 0 <= Mag(ds) < Pow10(|ds|)
  {
    if ds != [] {
      MagBounds(ds[1..]);
    }
  }

  /** Appending a digit at the top adds it at place value 10^|ds|. */
  lemma {:induction false} MagPush(ds: seq<int>, v: int)
    ensures Mag(PushDigit(ds, v)) == Mag(ds) + v * Pow10(|ds|)
  {
    if ds == [] {
      assert PushDigit(ds, v)[1..] == [];
    } else {
      assert PushDigit(ds, v)[1..] == PushDigit(ds[1..], v);
      MagPush(ds[1..], v);
    }
  }

  /** Overwriting one digit changes the magnitude by the difference at that place. */
  lemma {:induction false} MagChange(ds: seq<int>, pos: int, val: int)
    requires 0 <= pos < |ds|
    ensures Mag(ChangeDigit(ds, pos, val)) == Mag(ds) + (val - ds[pos]) * Pow10(pos)
  {
    if pos > 0 {
      assert ChangeDigit(ds, pos, val)[1..] == ChangeDigit(ds[1..], pos - 1, val);
      MagChange(ds[1..], pos - 1, val);
    }
  }

  /** The magnitude of the low `n` digits grows by the digit at `n - 1`. */
  lemma MagPrefix(ds: seq<int>, n: nat)
    requires 0 < n <= |ds|
    ensures Mag(ds[..n]) == Mag(ds[..n - 1]) + ds[n - 1] * Pow10(n - 1)
  {
    assert ds[..n] == PushDigit(ds[..n - 1], ds[n - 1]);
    MagPush(ds[..n - 1], ds[n - 1]);
  }

  /** A normalized nonempty vector has its top place occupied. */
  lemma MagTop(ds: seq<int>)
    requires ValidDigits(ds) && Normalized(ds) && |ds| > 0
    ensures Mag(ds) >= Pow10(|ds| - 1)
  {
    var n := |ds|;
    assert ds[..n] == ds;
    MagPrefix(ds, n);
    MagBounds(ds[..n - 1]);
  }

  /** Two normalized digit vectors with the same magnitude are the same vector. */
  lemma {:induction false} MagInjective(x: seq<int>, y: seq<int>)
    requires ValidDigits(x) && ValidDigits(y) && Normalized(x) && Normalized(y)
    requires Mag(x) == Mag(y)
    ensures x == y
  {
    if x == [] && y != [] {
      MagTop(y);
    } else if x != [] && y == [] {
      MagTop(x);
    } else if x != [] {
      MagBounds(x[1..]);
      MagBounds(y[1..]);
      assert x[0] == Mag(x) % 10;
      assert y[0] == Mag(y) % 10;
      MagInjective(x[1..], y[1..]);
      assert x == [x[0]] + x[1..];
      assert y == [y[0]] + y[1..];
    }
  }

  /** Division by 10 * p peels off the lowest digit and then divides by p. */
  lemma DivShift(d: int, m: int, p: int)
    requires 0 <= d < 10 && 0 <= m && p >= 1
    ensures (d + 10 * m) / (10 * p) == m / p
  {
    var q := m / p;
    var r := m % p;
    assert m == p * q + r && 0 <= r < p;
    var x := d + 10 * m;
    assert x == (10 * p) * q + (10 * r + d);
    assert 0 <= 10 * r + d < 10 * p;
    DivUnique(x, 10 * p, q, 10 * r + d);
  }

  lemma DivUnique(x: int, y: int, q: int, r: int)
    requires y > 0 && x == y * q + r && 0 <= r < y
    ensures x / y == q
  {
    var q' := x / y;
    var r' := x % y;
    assert x == y * q' + r' && 0 <= r' < y;
    var k := q - q';
    assert y * k == r' - r by {
      assert y * q - y * q' == y * (q - q');
    }
    if k >= 1 {
      MulAtLeast(y, k);
    } else if k <= -1 {
      assert y * (-k) == -(y * k);
      MulAtLeast(y, -k);
    }
  }

  lemma MulAtLeast(y: int, k: int)
    requires y > 0 && k >= 1
    ensures y * k >= y
  {
    assert y * k - y == y * (k - 1);
  }

  /**
   * `get_digit` reads the decimal place `pos` of the magnitude: 0 for a
   * negative position and for every position at or above the vector's length.
   */
  lemma {:induction false} GetDigitPlaceValue(ds: seq<int>, pos: int)
    requires ValidDigits(ds)
    ensures pos < 0 ==> GetDigit(ds, pos) == 0
    ensures pos >= 0 ==> GetDigit(ds, pos) == (Mag(ds) / Pow10(pos)) % 10
  {
    if pos >= 0 && ds != [] {
      var m := Mag(ds[1..]);
      assert Mag(ds) == ds[0] + 10 * m;
      MagBounds(ds[1..]);
      if pos == 0 {
        DivUnique(ds[0] + 10 * m, 10, m, ds[0]);
      } else {
        assert GetDigit(ds, pos) == GetDigit(ds[1..], pos - 1);
        DivShift(ds[0], m, Pow10(pos - 1));
        GetDigitPlaceValue(ds[1..], pos - 1);
      }
    }
  }

  /** A vector of zero digits denotes 0. */
  lemma {:induction false} MagAllZero(ds: seq<int>)
    requires forall i :: 0 <= i < |ds| ==> ds[i] == 0
    ensures Mag(ds) == 0
  {
    if ds != [] {
      MagAllZero(ds[1..]);
    }
  }

  /** Appending a zero digit at the top leaves the magnitude unchanged. */
  lemma {:induction false} NormalizePreservesMag(ds: seq<int>)
    ensures Mag(Normalize(ds)) == Mag(ds)
  {
    if |ds| > 0 && ds[|ds| - 1] == 0 {
      var init := ds[..|ds| - 1];
      assert ds == PushDigit(init, 0);
      MagPush(init, 0);
      NormalizePreservesMag(init);
    }
  }

  lemma NormalizedFixpoint(ds: seq<int>)
    requires Normalized(ds)
    ensures Normalize(ds) == ds
  {
  }

  /** `normalize` is idempotent. */
  lemma NormalizeIdempotent(ds: seq<int>)
    ensures Normalize(Normalize(ds)) == Normalize(ds)
  {
    NormalizedFixpoint(Normalize(ds));
  }
}
