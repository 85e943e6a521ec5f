/**
 * The three column loops of the arithmetic engine, on digit vectors:
 * the add-with-carry loop of `operator+=`, the subtract-with-borrow loop of
 * `operator-=` and the multiply-by-one-small-number loop of `operator*=(int)`.
 *
 * Each loop is written twice. `AddLoop`, `SubLoop` and `ScaleLoop` follow the
 * source: an index `i` walks the vector held by `*this`, reading with
 * `GetDigit`, writing with `ChangeDigit` / `PushDigit`. `AddDigits`,
 * `SubDigits` and `ScaleDigits` are independent column-by-column reference
 * definitions whose contracts state the value they compute; a lemma per loop
 * shows the loop computes its reference.
 */
module Schoolbook {
  import opened Digits

  function Max(a: int, b: int): int {
    if a < b then b else a
  }

  /** The digits from position `i` up; empty once `i` is past the end. */
  function Drop(s: seq<int>, i: nat): seq<int> {
    if i <= |s| then s[i..] else []
  }

  // ---------------------------------------------------------------------
  // Reference definitions
  // ---------------------------------------------------------------------

  /** Column addition with an incoming carry; a missing digit reads as 0. */
  function AddDigits(x: seq<int>, y: seq<int>, carry: int): (r: seq<int>)
    requires ValidDigits(x) && ValidDigits(y) && 0 <= carry <= 1
    ensures ValidDigits(r)
    ensures Mag(r) == Mag(x) + Mag(y) + carry
    ensures r == [] <==> x == [] && y == [] && carry == 0
    decreases |x| + |y|
  {
    if x == [] && y == [] then
      (if carry != 0 then [carry] else [])
    else
      var sum := GetDigit(x, 0) + GetDigit(y, 0) + carry;
      var rest := AddDigits(Drop(x, 1), Drop(y, 1), sum / 10);
      ConsDigit(sum % 10, rest);
      [sum % 10] + rest
  }

  /**
   * Column subtraction with an incoming borrow, over the positions of `x`
   * only; the borrow out of the top column is `SubBorrow`.
   */
  function SubDigits(x: seq<int>, y: seq<int>, borrow: int): (r: seq<int>)
    requires ValidDigits(x) && ValidDigits(y) && 0 <= borrow <= 1
    ensures ValidDigits(r) && |r| == |x|
    ensures |y| <= |x| ==>
              Mag(r) == Mag(x) - Mag(y) - borrow + Pow10(|x|) * SubBorrow(x, y, borrow)
    decreases |x|
  {
    if x == [] then []
    else
      var diff := x[0] - GetDigit(y, 0) - borrow;
      var b := if diff < 0 then 1 else 0;
      var rest := SubDigits(x[1..], Drop(y, 1), b);
      assert Mag(y) == GetDigit(y, 0) + 10 * Mag(Drop(y, 1));
      SubStep(|y| <= |x|, diff + 10 * b, Mag(rest), Mag(x[1..]), Mag(Drop(y, 1)), b,
              Pow10(|x| - 1), SubBorrow(x[1..], Drop(y, 1), b));
      ConsDigit(diff + 10 * b, rest);
      [diff + 10 * b] + rest
  }

  lemma SubStep(fits: bool, v: int, mr: int, mx: int, my: int, b: int, p: int, out: int)
    requires fits ==> mr == mx - my - b + p * out
    ensures fits ==> v + 10 * mr == v - 10 * b + 10 * mx - 10 * my + (10 * p) * out
  {
  }

  /** The borrow left over after the top column of `SubDigits`. */
  function SubBorrow(x: seq<int>, y: seq<int>, borrow: int): (b: int)
    requires 0 <= borrow <= 1
    ensures 0 <= b <= 1
    decreases |x|
  {
    if x == [] then borrow
    else
      var diff := x[0] - GetDigit(y, 0) - borrow;
      SubBorrow(x[1..], Drop(y, 1), if diff < 0 then 1 else 0)
  }

  /**
   * Multiplication of a digit vector by `num` in 0..10 with an incoming carry.
   * The carry out of every column stays in 0..9, so a single top digit
   * suffices at the end.
   */
  function ScaleDigits(x: seq<int>, num: int, carry: int): (r: seq<int>)
    requires ValidDigits(x) && 0 <= num <= 10 && 0 <= carry <= 9
    ensures ValidDigits(r)
    ensures Mag(r) == num * Mag(x) + carry
    ensures r == [] <==> x == [] && carry == 0
    decreases |x|
  {
    if x == [] then
      (if carry != 0 then [carry] else [])
    else
      var product := num * x[0] + carry;
      ColumnProductBounds(num, x[0], carry);
      var rest := ScaleDigits(x[1..], num, product / 10);
      ScaleStep(num, x[0], Mag(x[1..]), carry, Mag(rest), Mag(x));
      ConsDigit(product % 10, rest);
      [product % 10] + rest
  }

  /** A digit times a factor up to 10, plus a carry up to 9, fits in two digits. */
  lemma ColumnProductBounds(num: int, d: int, carry: int)
    requires 0 <= num <= 10 && 0 <= d <= 9 && 0 <= carry <= 9
    ensures 0 <= num * d + carry <= 99
    ensures 0 <= (num * d + carry) / 10 <= 9 && 0 <= (num * d + carry) % 10 <= 9
  {
    assert num * d <= 10 * 9;
  }

  lemma ScaleStep(num: int, x0: int, m: int, carry: int, mr: int, mx: int)
    requires 0 <= num * x0 + carry && mx == x0 + 10 * m
    requires mr == num * m + (num * x0 + carry) / 10
    ensures (num * x0 + carry) % 10 + 10 * mr == num * mx + carry
  {
    var p := num * x0 + carry;
    assert p % 10 + 10 * (p / 10) == p;
    assert num * (x0 + 10 * m) == num * x0 + 10 * (num * m);
  }

  // ---------------------------------------------------------------------
  // The loops as the source writes them
  // ---------------------------------------------------------------------

  /**
   * The loop of `operator+=` (same-sign case): `d` is `*this`'s vector, whose
   * original length was `lSize`; positions below `lSize` are overwritten,
   * positions above it pushed, and a final carry is pushed.
   */
  function AddLoop(d: seq<int>, rhs: seq<int>, lSize: nat, i: nat, carry: int): seq<int>
    requires ValidDigits(d) && ValidDigits(rhs) && 0 <= carry <= 1
    requires |d| == Max(i, lSize) && i <= Max(lSize, |rhs|)
    decreases Max(lSize, |rhs|) - i
  {
    if i < Max(lSize, |rhs|) then
      var sum := GetDigit(d, i) + GetDigit(rhs, i) + carry;
      var d' := if i < lSize then ChangeDigit(d, i, sum % 10) else PushDigit(d, sum % 10);
      AddLoop(d', rhs, lSize, i + 1, sum / 10)
    else if carry != 0 then
      PushDigit(d, carry)
    else
      d
  }

  /** The loop of `operator-=` (no-swap case): borrow across `*this`'s positions. */
  function SubLoop(d: seq<int>, rhs: seq<int>, i: nat, borrow: int): seq<int>
    requires ValidDigits(d) && ValidDigits(rhs) && 0 <= borrow <= 1 && i <= |d|
    decreases |d| - i
  {
    if i < |d| then
      var diff := GetDigit(d, i) - GetDigit(rhs, i) - borrow;
      if diff < 0 then SubLoop(ChangeDigit(d, i, diff + 10), rhs, i + 1, 1)
      else SubLoop(ChangeDigit(d, i, diff), rhs, i + 1, 0)
    else
      d
  }

  /** The loop of `operator*=(int)` for 2 <= num <= 10, then the one final push. */
  function ScaleLoop(d: seq<int>, num: int, i: nat, carry: int): seq<int>
    requires ValidDigits(d) && 0 <= num <= 10 && 0 <= carry <= 9 && i <= |d|
    decreases |d| - i
  {
    if i < |d| then
      var product := num * GetDigit(d, i) + carry;
      ColumnProductBounds(num, GetDigit(d, i), carry);
      ScaleLoop(ChangeDigit(d, i, product % 10), num, i + 1, product / 10)
    else if carry != 0 then
      PushDigit(d, carry)
    else
      d
  }

  // ---------------------------------------------------------------------
  // The loops compute their references
  // ---------------------------------------------------------------------

  /** One pass of the add loop: the state after position `i` is written. */
  lemma AddLoopStep(d: seq<int>, lSize: nat, i: nat, v: int) returns (d': seq<int>)
    requires |d| == Max(i, lSize) && ValidDigits(d) && IsDigit(v)
    ensures d' == if i < lSize then ChangeDigit(d, i, v) else PushDigit(d, v)
    ensures ValidDigits(d') && |d'| == Max(i + 1, lSize)
    ensures d'[..i + 1] == d[..i] + [v] && d'[i + 1..] == Drop(d[i..], 1)
  {
    if i < lSize {
      d' := ChangeDigit(d, i, v);
      assert d'[i + 1..] == d[i + 1..];
    } else {
      d' := PushDigit(d, v);
      assert d' == d + [v];
    }
  }

  /** Dropping `i` positions and then one more is dropping `i + 1`. */
  lemma DropDrop(s: seq<int>, i: nat)
    ensures Drop(Drop(s, i), 1) == Drop(s, i + 1)
  {
    if i + 1 <= |s| {
      assert s[i..][1..] == s[i + 1..];
    }
  }

  /** The lowest column of a nonempty column addition. */
  lemma AddDigitsHead(x: seq<int>, y: seq<int>, carry: int)
    requires ValidDigits(x) && ValidDigits(y) && 0 <= carry <= 1 && (x != [] || y != [])
    ensures AddDigits(x, y, carry) ==
              [(GetDigit(x, 0) + GetDigit(y, 0) + carry) % 10] +
              AddDigits(Drop(x, 1), Drop(y, 1), (GetDigit(x, 0) + GetDigit(y, 0) + carry) / 10)
  {
  }

  /** A column written below the rest keeps the split at the next position. */
  lemma SpliceColumn(pre: seq<int>, v: int, rest: seq<int>)
    ensures (pre + [v]) + rest == pre + ([v] + rest)
  {
  }

  /**
   * One pass of the add loop moves the split between written positions and
   * the column addition still to come by one position, leaving the whole
   * unchanged.
   */
  lemma AddColumnStep(d: seq<int>, rhs: seq<int>, lSize: nat, i: nat, carry: int) returns (d': seq<int>, c: int)
    requires ValidDigits(d) && ValidDigits(rhs) && 0 <= carry <= 1
    requires |d| == Max(i, lSize) && i < Max(lSize, |rhs|)
    ensures ValidDigits(d') && |d'| == Max(i + 1, lSize) && 0 <= c <= 1
    ensures AddLoop(d, rhs, lSize, i, carry) == AddLoop(d', rhs, lSize, i + 1, c)
    ensures d[..i] + AddDigits(d[i..], Drop(rhs, i), carry) ==
            d'[..i + 1] + AddDigits(d'[i + 1..], Drop(rhs, i + 1), c)
  {
    var sum := GetDigit(d, i) + GetDigit(rhs, i) + carry;
    var v := sum % 10;
    c := sum / 10;
    d' := AddLoopStep(d, lSize, i, v);
    var x, y := d[i..], Drop(rhs, i);
    assert GetDigit(x, 0) == GetDigit(d, i) && GetDigit(y, 0) == GetDigit(rhs, i);
    DropDrop(rhs, i);
    var rest := AddDigits(Drop(x, 1), Drop(y, 1), c);
    assert AddDigits(x, y, carry) == [v] + rest by {
      AddDigitsHead(x, y, carry);
    }
    assert d'[i + 1..] == Drop(x, 1) && Drop(rhs, i + 1) == Drop(y, 1);
    SpliceColumn(d[..i], v, rest);
  }

  lemma {:induction false} AddLoopMatches(d: seq<int>, rhs: seq<int>, lSize: nat, i: nat, carry: int)
    requires ValidDigits(d) && ValidDigits(rhs) && 0 <= carry <= 1
    requires |d| == Max(i, lSize) && i <= Max(lSize, |rhs|)
    ensures AddLoop(d, rhs, lSize, i, carry) == d[..i] + AddDigits(d[i..], Drop(rhs, i), carry)
    decreases Max(lSize, |rhs|) - i
  {
    if i < Max(lSize, |rhs|) {
      var d', c := AddColumnStep(d, rhs, lSize, i, carry);
      AddLoopMatches(d', rhs, lSize, i + 1, c);
    } else {
      assert d[..i] == d && d[i..] == [] && Drop(rhs, i) == [];
    }
  }

  /** The borrow of one column: the digit written and the borrow passed on. */
  function BorrowColumn(xd: int, yd: int, borrow: int): (int, int) {
    var diff := xd - yd - borrow;
    if diff < 0 then (diff + 10, 1) else (diff, 0)
  }

  /** One pass of the borrow loop moves the split by one position, as for addition. */
  lemma SubColumnStep(d: seq<int>, rhs: seq<int>, i: nat, borrow: int) returns (d': seq<int>, b: int)
    requires ValidDigits(d) && ValidDigits(rhs) && 0 <= borrow <= 1 && i < |d|
    ensures ValidDigits(d') && |d'| == |d| && 0 <= b <= 1
    ensures SubLoop(d, rhs, i, borrow) == SubLoop(d', rhs, i + 1, b)
    ensures d[..i] + SubDigits(d[i..], Drop(rhs, i), borrow) ==
            d'[..i + 1] + SubDigits(d'[i + 1..], Drop(rhs, i + 1), b)
  {
    var col := BorrowColumn(d[i], GetDigit(rhs, i), borrow);
    var v := col.0;
    b := col.1;
    d' := ChangeDigit(d, i, v);
    assert d'[..i + 1] == d[..i] + [v];
    assert d'[i + 1..] == d[i + 1..];
    var x, y := d[i..], Drop(rhs, i);
    assert x[0] == d[i] && x[1..] == d[i + 1..];
    assert GetDigit(y, 0) == GetDigit(rhs, i);
    DropDrop(rhs, i);
    var rest := SubDigits(d[i + 1..], Drop(rhs, i + 1), b);
    assert SubDigits(x, y, borrow) == [v] + rest;
    SpliceColumn(d[..i], v, rest);
  }

  lemma {:induction false} SubLoopMatches(d: seq<int>, rhs: seq<int>, i: nat, borrow: int)
    requires ValidDigits(d) && ValidDigits(rhs) && 0 <= borrow <= 1 && i <= |d|
    ensures SubLoop(d, rhs, i, borrow) == d[..i] + SubDigits(d[i..], Drop(rhs, i), borrow)
    decreases |d| - i
  {
    if i < |d| {
      var d', b := SubColumnStep(d, rhs, i, borrow);
      SubLoopMatches(d', rhs, i + 1, b);
    } else {
      assert d[..i] == d && d[i..] == [];
    }
  }

  /** One pass of the scalar loop moves the split by one position, as for addition. */
  lemma ScaleColumnStep(d: seq<int>, num: int, i: nat, carry: int) returns (d': seq<int>, c: int)
    requires ValidDigits(d) && 0 <= num <= 10 && 0 <= carry <= 9 && i < |d|
    ensures ValidDigits(d') && |d'| == |d| && 0 <= c <= 9
    ensures ScaleLoop(d, num, i, carry) == ScaleLoop(d', num, i + 1, c)
    ensures d[..i] + ScaleDigits(d[i..], num, carry) ==
            d'[..i + 1] + ScaleDigits(d'[i + 1..], num, c)
  {
    var product := num * d[i] + carry;
    ColumnProductBounds(num, d[i], carry);
    var v := product % 10;
    c := product / 10;
    d' := ChangeDigit(d, i, v);
    assert d'[..i + 1] == d[..i] + [v];
    assert d'[i + 1..] == d[i + 1..];
    var x := d[i..];
    assert x[0] == d[i] && x[1..] == d[i + 1..];
    var rest := ScaleDigits(d[i + 1..], num, c);
    assert ScaleDigits(x, num, carry) == [v] + rest;
    SpliceColumn(d[..i], v, rest);
  }

  lemma {:induction false} ScaleLoopMatches(d: seq<int>, num: int, i: nat, carry: int)
    requires ValidDigits(d) && 0 <= num <= 10 && 0 <= carry <= 9 && i <= |d|
    ensures ScaleLoop(d, num, i, carry) == d[..i] + ScaleDigits(d[i..], num, carry)
    decreases |d| - i
  {
    if i < |d| {
      var d', c := ScaleColumnStep(d, num, i, carry);
      ScaleLoopMatches(d', num, i + 1, c);
    } else {
      assert d[..i] == d && d[i..] == [];
    }
  }

  // ---------------------------------------------------------------------
  // Normal form and borrow
  // ---------------------------------------------------------------------

  /** Adding two normalized vectors gives a normalized vector. */
  lemma {:induction false} AddDigitsNormalized(x: seq<int>, y: seq<int>, carry: int)
    requires ValidDigits(x) && ValidDigits(y) && 0 <= carry <= 1
    requires Normalized(x) && Normalized(y)
    ensures Normalized(AddDigits(x, y, carry))
    decreases |x| + |y|
  {
    if x != [] || y != [] {
      var sum := GetDigit(x, 0) + GetDigit(y, 0) + carry;
      var x', y' := Drop(x, 1), Drop(y, 1);
      assert Normalized(x') && Normalized(y');
      AddDigitsNormalized(x', y', sum / 10);
      var rest := AddDigits(x', y', sum / 10);
      assert AddDigits(x, y, carry) == [sum % 10] + rest;
      if rest == [] {
        assert x == [] || x == [x[0]];
        assert y == [] || y == [y[0]];
      }
    }
  }

  /** The loops started at position 0 with no carry compute their references. */
  lemma LoopsFromStart(x: seq<int>, y: seq<int>, num: int)
    requires ValidDigits(x) && ValidDigits(y) && 0 <= num <= 10
    ensures AddLoop(x, y, |x|, 0, 0) == AddDigits(x, y, 0)
    ensures SubLoop(x, y, 0, 0) == SubDigits(x, y, 0)
    ensures ScaleLoop(x, num, 0, 0) == ScaleDigits(x, num, 0)
  {
    assert x[..0] == [] && x[0..] == x && Drop(y, 0) == y;
    AddLoopMatches(x, y, |x|, 0, 0);
    SubLoopMatches(x, y, 0, 0);
    ScaleLoopMatches(x, num, 0, 0);
  }

  /** Column addition does not depend on the order of its operands. */
  lemma {:induction false} AddDigitsCommute(x: seq<int>, y: seq<int>, carry: int)
    requires ValidDigits(x) && ValidDigits(y) && 0 <= carry <= 1
    ensures AddDigits(x, y, carry) == AddDigits(y, x, carry)
    decreases |x| + |y|
  {
    if x != [] || y != [] {
      var sum := GetDigit(x, 0) + GetDigit(y, 0) + carry;
      AddDigitsCommute(Drop(x, 1), Drop(y, 1), sum / 10);
    }
  }

  /** Adding a vector to itself column by column is scaling it by 2. */
  lemma {:induction false} AddSelfIsDouble(x: seq<int>, carry: int)
    requires ValidDigits(x) && 0 <= carry <= 1
    ensures AddDigits(x, x, carry) == ScaleDigits(x, 2, carry)
  {
    if x != [] {
      assert Drop(x, 1) == x[1..] && GetDigit(x, 0) == x[0];
      AddSelfIsDouble(x[1..], (2 * x[0] + carry) / 10);
    }
  }

  /** Adding onto an empty vector copies the other operand digit for digit. */
  lemma {:induction false} AddDigitsOntoEmpty(y: seq<int>)
    requires ValidDigits(y)
    ensures AddDigits([], y, 0) == y
  {
    if y != [] {
      assert Drop([], 1) == [] && Drop(y, 1) == y[1..];
      AddDigitsOntoEmpty(y[1..]);
    }
  }

  /** Multiplying a normalized vector by 1..10 gives a normalized vector. */
  lemma {:induction false} ScaleDigitsNormalized(x: seq<int>, num: int, carry: int)
    requires ValidDigits(x) && 1 <= num <= 10 && 0 <= carry <= 9
    requires Normalized(x)
    ensures Normalized(ScaleDigits(x, num, carry))
    decreases |x|
  {
    if x != [] {
      var v, c := ScaleDigitsHead(x, num, carry);
      assert Normalized(x[1..]);
      ScaleDigitsNormalized(x[1..], num, c);
      if ScaleDigits(x[1..], num, c) == [] {
        assert x == [x[0]];
        PositiveProduct(num, x[0]);
      }
    }
  }

  /** The lowest column of a nonempty scaling: the digit written and the carry passed on. */
  lemma ScaleDigitsHead(x: seq<int>, num: int, carry: int) returns (v: int, c: int)
    requires ValidDigits(x) && 0 <= num <= 10 && 0 <= carry <= 9 && x != []
    ensures v == (num * x[0] + carry) % 10 && c == (num * x[0] + carry) / 10
    ensures 0 <= c <= 9 && (c == 0 ==> v == num * x[0] + carry)
    ensures ScaleDigits(x, num, carry) == [v] + ScaleDigits(x[1..], num, c)
  {
    var product := num * x[0] + carry;
    ColumnProductBounds(num, x[0], carry);
    v, c := product % 10, product / 10;
  }

  lemma PositiveProduct(a: int, b: int)
    requires a >= 1 && b >= 1
    ensures a * b >= 1
  {
  }

  /** When the subtrahend is no larger, no borrow leaves the top column. */
  lemma SubNoFinalBorrow(x: seq<int>, y: seq<int>, borrow: int)
    requires ValidDigits(x) && ValidDigits(y) && 0 <= borrow <= 1
    requires |y| <= |x| && Mag(y) + borrow <= Mag(x)
    ensures SubBorrow(x, y, borrow) == 0
    ensures Mag(SubDigits(x, y, borrow)) == Mag(x) - Mag(y) - borrow
  {
    MagBounds(SubDigits(x, y, borrow));
  }
}
