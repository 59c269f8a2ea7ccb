/** Signed numbers of five digits to the base 10^9. */
module BigNumber {
  import opened Bytes

  const LIMIT: nat := 1000000000
  const NUM_DIGITS: nat := 5

  /** The lowest digit comes first; a sign of -1 makes the number negative. */
  datatype Num = Num(digits: seq<nat>, sign: int)

  // ---------- Values ----------

  function PowLimit(n: nat): (p: nat)
    ensures p > 0
  {
    if n == 0 then 1 else LIMIT * PowLimit(n - 1)
  }

  /** What the first `n` digits amount to. */
  function Low(d: seq<nat>, n: nat): nat
    requires n <= |d|
  {
    if n == 0 then 0 else Low(d, n - 1) + d[n - 1] * PowLimit(n - 1)
  }

  /** Digits are 32-bit words, and a sum by the code can leave some that are not below 10^9. */
  predicate Words(d: seq<nat>) {
    |d| == NUM_DIGITS && forall i :: 0 <= i < |d| ==> d[i] < TWO_TO_32
  }

  predicate Formed(x: Num) {
    Words(x.digits) && (x.sign == 0 || x.sign == -1)
  }

  predicate Canonical(d: seq<nat>) {
    |d| == NUM_DIGITS && forall i :: 0 <= i < |d| ==> d[i] < LIMIT
  }

  predicate Proper(x: Num) {
    Canonical(x.digits) && (x.sign == 0 || x.sign == -1)
  }

  function Magnitude(x: Num): nat {
    Low(x.digits, |x.digits|)
  }

  function Value(x: Num): int {
    if x.sign < 0 then -(Magnitude(x) as int) else Magnitude(x)
  }

  lemma {:induction false} LowIsBounded(d: seq<nat>, n: nat)
    requires n <= |d| && forall i :: 0 <= i < n ==> d[i] < LIMIT
    ensures Low(d, n) < PowLimit(n)
  {
    if n > 0 {
      LowIsBounded(d, n - 1);
      MulMonotonic(d[n - 1], LIMIT - 1, PowLimit(n - 1));
    }
  }

  lemma {:induction false} LowExtends(d: seq<nat>, e: seq<nat>, n: nat)
    requires n <= |d| && n <= |e| && forall i :: 0 <= i < n ==> d[i] == e[i]
    ensures Low(d, n) == Low(e, n)
  {
    if n > 0 { LowExtends(d, e, n - 1); }
  }

  /** Where all higher digits agree, the highest that differs decides. */
  lemma {:induction false} HighestDecides(d: seq<nat>, e: seq<nat>, i: nat, n: nat)
    requires i < n <= |d| && n <= |e|
    requires forall k :: 0 <= k < n ==> d[k] < LIMIT && e[k] < LIMIT
    requires d[i] < e[i] && forall k :: i < k < n ==> d[k] == e[k]
    ensures Low(d, n) < Low(e, n)
  {
    if i == n - 1 {
      LowIsBounded(d, i);
      MulMonotonic(d[i] + 1, e[i], PowLimit(i));
      assert (d[i] + 1) * PowLimit(i) == d[i] * PowLimit(i) + PowLimit(i);
    } else {
      HighestDecides(d, e, i, n - 1);
    }
  }

  /** No two digit strings amount to the same. */
  lemma {:induction false} LowIsInjective(d: seq<nat>, e: seq<nat>, n: nat)
    requires n <= |d| && n <= |e| && Low(d, n) == Low(e, n)
    requires forall k :: 0 <= k < n ==> d[k] < LIMIT && e[k] < LIMIT
    ensures forall k :: 0 <= k < n ==> d[k] == e[k]
  {
    if n > 0 {
      if d[n - 1] < e[n - 1] {
        HighestDecides(d, e, n - 1, n);
        assert false;
      }
      if e[n - 1] < d[n - 1] {
        HighestDecides(e, d, n - 1, n);
        assert false;
      }
      LowIsInjective(d, e, n - 1);
    }
  }

  // ---------- Adding ----------

  /** What written by hand is carried into column `i`, and what column `i` adds up to. */
  function CarryInto(a: seq<nat>, b: seq<nat>, i: nat): nat
    requires i <= |a| && i <= |b|
  {
    if PowLimit(i) <= Low(a, i) + Low(b, i) then 1 else 0
  }

  function Column(a: seq<nat>, b: seq<nat>, i: nat): nat
    requires i < |a| && i < |b|
  {
    a[i] + b[i] + CarryInto(a, b, i)
  }

  /** The first `n` digits of `r`, with `carry` out of them, are the sum; and as long as no column has
      added up to 10^9 exactly, they and the carry are those of a sum by hand. */
  ghost predicate Summed(a: seq<nat>, b: seq<nat>, r: seq<nat>, n: nat, carry: nat) {
    && n <= |a| && n <= |b| && n <= |r| && carry <= 1
    && Low(r, n) + carry * PowLimit(n) == Low(a, n) + Low(b, n)
    && (forall i :: 0 <= i < n ==> r[i] <= LIMIT)
    && ((forall i :: 0 <= i < n ==> r[i] < LIMIT) <==> forall i :: 0 <= i < n ==> Column(a, b, i) != LIMIT)
    && ((forall i :: 0 <= i < n ==> r[i] < LIMIT) ==> carry == CarryInto(a, b, n))
  }

  /** One column of the loop. */
  ghost predicate Added(a: seq<nat>, b: seq<nat>, n: nat, carry: nat, digit: nat, out: nat)
    requires n < |a| && n < |b|
  {
    var sum := (a[n] + b[n] + carry) % TWO_TO_32;
    if sum > LIMIT then out == 1 && digit == sum - LIMIT else out == 0 && digit == sum
  }

  /** The carry of the code into column `n`, and what it adds up there before the 32-bit wrap. */
  function CodedCarry(a: seq<nat>, b: seq<nat>, n: nat): nat
    requires n <= |a| && n <= |b|
    decreases n, 0
  {
    if n > 0 && CodedColumn(a, b, n - 1) % TWO_TO_32 > LIMIT then 1 else 0
  }

  function CodedColumn(a: seq<nat>, b: seq<nat>, n: nat): nat
    requires n < |a| && n < |b|
    decreases n, 1
  {
    a[n] + b[n] + CodedCarry(a, b, n)
  }

  /** What is lost to the wraps of the first `n` columns, in multiples of 2^32. */
  function SumLost(a: seq<nat>, b: seq<nat>, n: nat): nat
    requires n <= |a| && n <= |b|
  {
    if n == 0 then 0
    else SumLost(a, b, n - 1) + if TWO_TO_32 <= CodedColumn(a, b, n - 1) then PowLimit(n - 1) else 0
  }

  predicate ColumnsFit(a: seq<nat>, b: seq<nat>, n: nat)
    requires n <= |a| && n <= |b|
  {
    forall i :: 0 <= i < n ==> CodedColumn(a, b, i) < TWO_TO_32
  }

  lemma {:induction false} NothingLost(a: seq<nat>, b: seq<nat>, n: nat)
    requires n <= |a| && n <= |b|
    ensures SumLost(a, b, n) == 0 <==> ColumnsFit(a, b, n)
  {
    hide CodedColumn;
    if n > 0 { NothingLost(a, b, n - 1); }
  }

  /** Digits up to 2 * 10^9 never wrap. */
  lemma SmallColumnsFit(a: seq<nat>, b: seq<nat>, n: nat)
    requires n <= |a| && n <= |b| && forall i :: 0 <= i < n ==> a[i] <= 2 * LIMIT && b[i] <= 2 * LIMIT
    ensures ColumnsFit(a, b, n)
  {
  }

  /** The first `n` digits of `r` and the carry, as the code makes them of any digits. */
  ghost predicate Wrapped(a: seq<nat>, b: seq<nat>, r: seq<nat>, n: nat, carry: nat) {
    && n <= |a| && n <= |b| && n <= |r| && carry == CodedCarry(a, b, n)
    && Low(r, n) + carry * PowLimit(n) + TWO_TO_32 * SumLost(a, b, n) == Low(a, n) + Low(b, n)
    && forall i :: 0 <= i < n ==> r[i] < TWO_TO_32
  }

  lemma WrappedNext(a: seq<nat>, b: seq<nat>, r: seq<nat>, n: nat, carry: nat, next: seq<nat>, out: nat)
    requires n < |a| && n < |b| && n < |r| == |next| && Wrapped(a, b, r, n, carry)
    requires a[n] < TWO_TO_32 && b[n] < TWO_TO_32
    requires next == r[n := next[n]] && Added(a, b, n, carry, next[n], out)
    ensures Wrapped(a, b, next, n + 1, out)
  {
    hide CodedCarry, CodedColumn, Added;
    var p, q := PowLimit(n), if TWO_TO_32 <= CodedColumn(a, b, n) then 1 else 0;
    CarryNext(a, b, n);
    AddedSplits(a, b, n, carry, next[n], out);
    LowExtends(r, next, n);
    Distribute(next[n] + out * LIMIT, TWO_TO_32 * q, p);
    Distribute(next[n], out * LIMIT, p);
    Distribute(a[n] + b[n], carry, p);
    Distribute(a[n], b[n], p);
    assert out * LIMIT * p == out * PowLimit(n + 1);
  }

  lemma AddedSplits(a: seq<nat>, b: seq<nat>, n: nat, carry: nat, digit: nat, out: nat)
    requires n < |a| && n < |b| && a[n] < TWO_TO_32 && b[n] < TWO_TO_32
    requires carry == CodedCarry(a, b, n) && Added(a, b, n, carry, digit, out)
    ensures digit < TWO_TO_32 && out == CodedCarry(a, b, n + 1)
    ensures digit + out * LIMIT + TWO_TO_32 * (if TWO_TO_32 <= CodedColumn(a, b, n) then 1 else 0) == a[n] + b[n] + carry
  {
    hide CodedCarry;
    CarryNext(a, b, n);
  }

  lemma CarryNext(a: seq<nat>, b: seq<nat>, n: nat)
    requires n < |a| && n < |b|
    ensures CodedCarry(a, b, n + 1) == if CodedColumn(a, b, n) % TWO_TO_32 > LIMIT then 1 else 0
    ensures CodedCarry(a, b, n) <= 1
  {
  }

  lemma SumExtends(a: seq<nat>, b: seq<nat>, r: seq<nat>, n: nat, carry: nat, out: nat)
    requires n < |a| && n < |b| && n < |r| && Added(a, b, n, carry, r[n], out)
    requires a[n] + b[n] + carry < TWO_TO_32
    requires Low(r, n) + carry * PowLimit(n) == Low(a, n) + Low(b, n)
    ensures Low(r, n + 1) + out * PowLimit(n + 1) == Low(a, n + 1) + Low(b, n + 1)
  {
    var p := PowLimit(n);
    assert r[n] + out * LIMIT == a[n] + b[n] + carry;
    Distribute(r[n], out * LIMIT, p);
    Distribute(a[n] + b[n], carry, p);
    Distribute(a[n], b[n], p);
    assert out * LIMIT * p == out * PowLimit(n + 1);
  }

  lemma CarryIsByHand(a: seq<nat>, b: seq<nat>, r: seq<nat>, n: nat, carry: nat)
    requires n <= |a| && n <= |b| && n <= |r| && carry <= 1
    requires Low(r, n) + carry * PowLimit(n) == Low(a, n) + Low(b, n)
    requires forall i :: 0 <= i < n ==> r[i] < LIMIT
    ensures carry == CarryInto(a, b, n)
  {
    LowIsBounded(r, n);
  }

  lemma SummedNext(a: seq<nat>, b: seq<nat>, r: seq<nat>, n: nat, carry: nat, next: seq<nat>, out: nat)
    requires Canonical(a) && Canonical(b) && n < NUM_DIGITS && |r| == |next| == NUM_DIGITS
    requires Summed(a, b, r, n, carry)
    requires next == r[n := next[n]] && Added(a, b, n, carry, next[n], out)
    ensures Summed(a, b, next, n + 1, out)
  {
    hide Low, PowLimit, CarryInto;
    LowExtends(r, next, n);
    SumExtends(a, b, next, n, carry, out);
    if forall i :: 0 <= i < n ==> r[i] < LIMIT {
      assert forall i :: 0 <= i < n ==> next[i] < LIMIT && Column(a, b, i) != LIMIT;
      assert Column(a, b, n) == a[n] + b[n] + carry;
      if next[n] < LIMIT { CarryIsByHand(a, b, next, n + 1, out); }
    } else {
      var i :| 0 <= i < n && r[i] >= LIMIT;
      assert next[i] >= LIMIT;
      var j :| 0 <= j < n && Column(a, b, j) == LIMIT;
    }
  }

  lemma Distribute(x: nat, y: nat, p: nat)
    ensures (x + y) * p == x * p + y * p
  {
  }

  // ---------- Subtracting ----------

  /** The first `n` digits of `r`, with `borrow` owed to them, are the difference. */
  ghost predicate Differed(a: seq<nat>, b: seq<nat>, r: seq<nat>, n: nat, borrow: nat) {
    && n <= |a| && n <= |b| && n <= |r| && borrow <= 1
    && Low(r, n) + Low(b, n) == Low(a, n) + borrow * PowLimit(n)
    && forall i :: 0 <= i < n ==> r[i] < LIMIT
  }

  ghost predicate Subtracted(a: seq<nat>, b: seq<nat>, n: nat, borrow: nat, digit: nat, out: nat)
    requires n < |a| && n < |b|
  {
    var diff := a[n] - b[n] - borrow;
    if diff < 0 then out == 1 && digit == (diff + LIMIT) % TWO_TO_32 else out == 0 && digit == diff
  }

  /** The borrow of the code from column `n`, and the difference there. */
  function CodedBorrow(a: seq<nat>, b: seq<nat>, n: nat): nat
    requires n <= |a| && n <= |b|
    decreases n, 0
  {
    if n > 0 && CodedDifference(a, b, n - 1) < 0 then 1 else 0
  }

  function CodedDifference(a: seq<nat>, b: seq<nat>, n: nat): int
    requires n < |a| && n < |b|
    decreases n, 1
  {
    a[n] - b[n] - CodedBorrow(a, b, n)
  }

  /** What borrowing once does not make up for wraps, and is this much too great in multiples of 2^32. */
  function Excess(a: seq<nat>, b: seq<nat>, n: nat): nat
    requires n <= |a| && n <= |b|
  {
    if n == 0 then 0
    else Excess(a, b, n - 1) + if CodedDifference(a, b, n - 1) + LIMIT < 0 then PowLimit(n - 1) else 0
  }

  predicate BorrowsSuffice(a: seq<nat>, b: seq<nat>, n: nat)
    requires n <= |a| && n <= |b|
  {
    forall i :: 0 <= i < n ==> 0 <= CodedDifference(a, b, i) + LIMIT
  }

  lemma {:induction false} NoExcess(a: seq<nat>, b: seq<nat>, n: nat)
    requires n <= |a| && n <= |b|
    ensures Excess(a, b, n) == 0 <==> BorrowsSuffice(a, b, n)
  {
    if n > 0 { NoExcess(a, b, n - 1); }
  }

  /** The first `n` digits of `r` and the borrow, as the code makes them of any digits. */
  ghost predicate Underflowed(a: seq<nat>, b: seq<nat>, r: seq<nat>, n: nat, borrow: nat) {
    && n <= |a| && n <= |b| && n <= |r| && borrow == CodedBorrow(a, b, n)
    && Low(r, n) + Low(b, n) == Low(a, n) + borrow * PowLimit(n) + TWO_TO_32 * Excess(a, b, n)
    && forall i :: 0 <= i < n ==> r[i] < TWO_TO_32
  }

  lemma UnderflowedNext(a: seq<nat>, b: seq<nat>, r: seq<nat>, n: nat, borrow: nat, next: seq<nat>, out: nat)
    requires n < |a| && n < |b| && n < |r| == |next| && Underflowed(a, b, r, n, borrow)
    requires a[n] < TWO_TO_32 && b[n] < TWO_TO_32
    requires next == r[n := next[n]] && Subtracted(a, b, n, borrow, next[n], out)
    ensures Underflowed(a, b, next, n + 1, out)
  {
    hide CodedBorrow;
    var p, e := PowLimit(n), if CodedDifference(a, b, n) + LIMIT < 0 then 1 else 0;
    BorrowNext(a, b, n);
    LowExtends(r, next, n);
    assert next[n] + b[n] + borrow == a[n] + out * LIMIT + TWO_TO_32 * e;
    Distribute(next[n] + b[n], borrow, p);
    Distribute(next[n], b[n], p);
    Distribute(a[n] + out * LIMIT, TWO_TO_32 * e, p);
    Distribute(a[n], out * LIMIT, p);
    assert out * LIMIT * p == out * PowLimit(n + 1);
  }

  lemma BorrowNext(a: seq<nat>, b: seq<nat>, n: nat)
    requires n < |a| && n < |b|
    ensures CodedBorrow(a, b, n + 1) == if CodedDifference(a, b, n) < 0 then 1 else 0
    ensures CodedBorrow(a, b, n) <= 1
  {
  }

  lemma DifferedNext(a: seq<nat>, b: seq<nat>, r: seq<nat>, n: nat, borrow: nat, next: seq<nat>, out: nat)
    requires Canonical(a) && Canonical(b) && n < NUM_DIGITS && |r| == |next| == NUM_DIGITS
    requires Differed(a, b, r, n, borrow)
    requires next == r[n := next[n]] && Subtracted(a, b, n, borrow, next[n], out)
    ensures Differed(a, b, next, n + 1, out)
  {
    var p := PowLimit(n);
    LowExtends(r, next, n);
    assert next[n] + b[n] + borrow == a[n] + out * LIMIT;
    Distribute(next[n] + b[n], borrow, p);
    Distribute(next[n], b[n], p);
    Distribute(a[n], out * LIMIT, p);
    assert out * LIMIT * p == out * PowLimit(n + 1);
  }

  /** Taking less from more leaves nothing owed. */
  lemma NothingOwed(a: seq<nat>, b: seq<nat>, r: seq<nat>, n: nat, borrow: nat)
    requires Differed(a, b, r, n, borrow) && Low(b, n) <= Low(a, n)
    ensures borrow == 0 && Low(r, n) == Low(a, n) - Low(b, n)
  {
    LowIsBounded(r, n);
  }

  // ---------- Comparing ----------

  /** The first `n` digits, compared from the highest down. */
  predicate Lower(d: seq<nat>, e: seq<nat>, n: nat)
    requires n <= |d| && n <= |e|
  {
    n > 0 && (d[n - 1] < e[n - 1] || (d[n - 1] == e[n - 1] && Lower(d, e, n - 1)))
  }

  /** For digits below 10^9 that is numeric order. */
  lemma {:induction false} LowerIsLess(d: seq<nat>, e: seq<nat>, n: nat)
    requires n <= |d| && n <= |e| && forall k :: 0 <= k < n ==> d[k] < LIMIT && e[k] < LIMIT
    ensures Lower(d, e, n) <==> Low(d, n) < Low(e, n)
  {
    if n > 0 {
      LowerIsLess(d, e, n - 1);
      if d[n - 1] < e[n - 1] { HighestDecides(d, e, n - 1, n); }
      if e[n - 1] < d[n - 1] { HighestDecides(e, d, n - 1, n); }
    }
  }

  lemma {:induction false} LowerOnce(d: seq<nat>, e: seq<nat>, n: nat)
    requires n <= |d| && n <= |e|
    ensures !(Lower(d, e, n) && Lower(e, d, n))
    ensures !Lower(d, e, n) && !Lower(e, d, n) <==> forall k :: 0 <= k < n ==> d[k] == e[k]
  {
    if n > 0 { LowerOnce(d, e, n - 1); }
  }

  lemma {:induction false} LowerThrough(d: seq<nat>, e: seq<nat>, f: seq<nat>, n: nat)
    requires n <= |d| && n <= |e| && n <= |f|
    ensures !Lower(e, d, n) && !Lower(f, e, n) ==> !Lower(f, d, n)
  {
    if n > 0 { LowerThrough(d, e, f, n - 1); }
  }

  function Ordering(x: int, y: int): int {
    if x < y then -1 else if x == y then 0 else 1
  }

  /** Numbers of any digits: negative ones first, and those of one sign by their digits. */
  function Compared(x: Num, y: Num): int
    requires |x.digits| == |y.digits| == NUM_DIGITS
  {
    if x.sign != y.sign then Ordering(x.sign, y.sign)
    else if Lower(x.digits, y.digits, NUM_DIGITS) then (if x.sign < 0 then 1 else -1)
    else if Lower(y.digits, x.digits, NUM_DIGITS) then (if x.sign < 0 then -1 else 1)
    else 0
  }

  /** That is a total order, whatever the digits. */
  lemma ComparedIsTotal(x: Num, y: Num, z: Num)
    requires |x.digits| == |y.digits| == |z.digits| == NUM_DIGITS
    ensures Compared(y, x) == -Compared(x, y) && (Compared(x, y) == 0 <==> x == y)
    ensures Compared(x, y) <= 0 && Compared(y, z) <= 0 ==> Compared(x, z) <= 0
  {
    hide Lower;
    LowerOnce(x.digits, y.digits, NUM_DIGITS);
    LowerOnce(y.digits, z.digits, NUM_DIGITS);
    LowerOnce(x.digits, z.digits, NUM_DIGITS);
    LowerThrough(x.digits, y.digits, z.digits, NUM_DIGITS);
    LowerThrough(z.digits, y.digits, x.digits, NUM_DIGITS);
    assert x.digits == y.digits <==> forall k :: 0 <= k < NUM_DIGITS ==> x.digits[k] == y.digits[k];
  }

  /** Numbers of one sign in numeric order, and negative ones first. */
  function CompareNums(x: Num, y: Num): int {
    if x.sign == y.sign then Ordering(Value(x), Value(y)) else Ordering(x.sign, y.sign)
  }

  /** Below 10^9 digits order as values do. */
  lemma ComparedIsOrder(x: Num, y: Num)
    requires Proper(x) && Proper(y)
    ensures Compared(x, y) == CompareNums(x, y)
  {
    hide Lower, Low;
    LowerIsLess(x.digits, y.digits, NUM_DIGITS);
    LowerIsLess(y.digits, x.digits, NUM_DIGITS);
  }

  /** That is numeric order but for a zero and a negative zero. */
  lemma CompareIsNumeric(x: Num, y: Num)
    requires Proper(x) && Proper(y)
    ensures CompareNums(x, y) == Ordering(Value(x), Value(y)) <==> !(Value(x) == 0 == Value(y) && x.sign != y.sign)
  {
  }

  // ---------- Numbers as objects ----------

  class BigNum {
    const digits: array<nat>
    var sign: int

    ghost function View(): Num
      reads this, digits
    {
      Num(digits[..], sign)
    }

    constructor ()
      ensures View() == Num([0, 0, 0, 0, 0], 0) && fresh(digits)
    {
      sign := 0;
      digits := new nat[NUM_DIGITS](_ => 0);
    }
  }

  /** From the highest digit down to one that differs. */
  method Compare(a: BigNum, b: BigNum) returns (r: int)
    requires a.digits.Length == b.digits.Length == NUM_DIGITS
    ensures r == Compared(a.View(), b.View())
    ensures Proper(a.View()) && Proper(b.View()) ==> r == CompareNums(a.View(), b.View())
  {
    hide Low;
    ghost var x, y := a.digits[..], b.digits[..];
    if Proper(a.View()) && Proper(b.View()) { ComparedIsOrder(a.View(), b.View()); }
    if a.sign == b.sign {
      var negative := a.sign < 0;
      var i := NUM_DIGITS;
      while i > 0
        invariant 0 <= i <= NUM_DIGITS && (Lower(x, y, NUM_DIGITS) <==> Lower(x, y, i))
        invariant Lower(y, x, NUM_DIGITS) <==> Lower(y, x, i)
      {
        i := i - 1;
        if a.digits[i] < b.digits[i] {
          LowerOnce(x, y, i + 1);
          return if !negative then -1 else 1;
        }
        if a.digits[i] > b.digits[i] {
          LowerOnce(x, y, i + 1);
          return if negative then -1 else 1;
        }
      }
      return 0;
    }
    return if a.sign < b.sign then -1 else 1;
  }

  method AbsoluteLessThan(a: BigNum, b: BigNum) returns (less: bool)
    requires a.digits.Length == b.digits.Length == NUM_DIGITS
    ensures less <==> Lower(a.digits[..], b.digits[..], NUM_DIGITS)
    ensures Proper(a.View()) && Proper(b.View()) ==> (less <==> Magnitude(a.View()) < Magnitude(b.View()))
  {
    hide Low;
    ghost var x, y := a.digits[..], b.digits[..];
    if Canonical(x) && Canonical(y) { LowerIsLess(x, y, NUM_DIGITS); }
    var i := NUM_DIGITS;
    while i > 0
      invariant 0 <= i <= NUM_DIGITS && (Lower(x, y, NUM_DIGITS) <==> Lower(x, y, i))
    {
      i := i - 1;
      if a.digits[i] < b.digits[i] { return true; }
      if a.digits[i] > b.digits[i] { return false; }
    }
    return false;
  }

  predicate NegativeZero(x: Num) {
    x.sign < 0 && Magnitude(x) == 0
  }

  /** The same magnitude on the other side of zero. Zero keeps its sign. */
  function Negated(x: Num): Num {
    if Magnitude(x) == 0 then x else Num(x.digits, -1 - x.sign)
  }

  lemma NegatedValue(x: Num)
    requires Formed(x)
    ensures Formed(Negated(x)) && Value(Negated(x)) == -Value(x) && (Proper(x) ==> Proper(Negated(x)))
    ensures Value(x) != 0 ==> Negated(Negated(x)) == x
  {
  }

  /** The result may be kept where the argument is. */
  method Neg(r: BigNum, a: BigNum)
    requires Formed(a.View()) && r.digits.Length == NUM_DIGITS && (r == a || r.digits != a.digits)
    modifies r, r.digits
    ensures r.View() == Negated(old(a.View()))
  {
    hide Low;
    ghost var x := a.digits[..];
    if r != a {
      forall i | 0 <= i < NUM_DIGITS { r.digits[i] := a.digits[i]; }
      r.sign := a.sign;
    }
    assert r.digits[..] == x;
    var aIsZero := true;
    var i := 0;
    while i < NUM_DIGITS && aIsZero
      invariant 0 <= i <= NUM_DIGITS && (aIsZero <==> forall k :: 0 <= k < i ==> x[k] == 0)
      decreases NUM_DIGITS - i
    {
      if a.digits[i] != 0 { aIsZero := false; }
      i := i + 1;
    }
    ZeroDigits(x, NUM_DIGITS);
    if !aIsZero { r.sign := r.sign * r.sign - 1; }
  }

  lemma {:induction false} ZeroDigits(d: seq<nat>, n: nat)
    requires n <= |d|
    ensures Low(d, n) == 0 <==> forall k :: 0 <= k < n ==> d[k] == 0
  {
    if n > 0 {
      ZeroDigits(d, n - 1);
      if d[n - 1] > 0 { MulMonotonic(1, d[n - 1], PowLimit(n - 1)); }
    }
  }

  // ---------- Signed addition ----------

  /** `a` may be where the result goes. */
  predicate Apart(r: BigNum, a: BigNum) {
    r == a || r.digits != a.digits
  }

  /** The digits not yet written are still those of the arguments. */
  ghost predicate StillThere(a: BigNum, x: seq<nat>, n: nat)
    reads a.digits
  {
    a.digits.Length == |x| == NUM_DIGITS && n <= NUM_DIGITS && forall k :: n <= k < NUM_DIGITS ==> a.digits[k] == x[k]
  }

  method AddDigits(r: BigNum, a: BigNum, b: BigNum) returns (carry: nat)
    requires Words(a.digits[..]) && Words(b.digits[..]) && r.digits.Length == NUM_DIGITS
    requires Apart(r, a) && Apart(r, b)
    modifies r.digits
    ensures Wrapped(old(a.digits[..]), old(b.digits[..]), r.digits[..], NUM_DIGITS, carry)
    ensures old(Canonical(a.digits[..]) && Canonical(b.digits[..]))
      ==> Summed(old(a.digits[..]), old(b.digits[..]), r.digits[..], NUM_DIGITS, carry)
  {
    hide Wrapped, Summed;
    ghost var x, y := a.digits[..], b.digits[..];
    carry := 0;
    NothingSummed(x, y, r.digits[..]);
    for i := 0 to NUM_DIGITS
      invariant StillThere(a, x, i) && StillThere(b, y, i)
      invariant carry <= 1 && Wrapped(x, y, r.digits[..], i, carry)
      invariant Canonical(x) && Canonical(y) ==> Summed(x, y, r.digits[..], i, carry)
    {
      ghost var z, was := r.digits[..], carry;
      var result: UInt32 := (a.digits[i] + b.digits[i] + carry) % TWO_TO_32;
      if result > LIMIT {
        carry := 1;
        result := result - LIMIT;
      } else {
        carry := 0;
      }
      r.digits[i] := result;
      WrappedNext(x, y, z, i, was, r.digits[..], carry);
      if Canonical(x) && Canonical(y) { SummedNext(x, y, z, i, was, r.digits[..], carry); }
    }
  }

  lemma NothingSummed(x: seq<nat>, y: seq<nat>, z: seq<nat>)
    ensures Wrapped(x, y, z, 0, 0) && Summed(x, y, z, 0, 0)
  {
  }

  method SubtractDigits(r: BigNum, a: BigNum, b: BigNum) returns (carry: nat)
    requires Words(a.digits[..]) && Words(b.digits[..]) && r.digits.Length == NUM_DIGITS
    requires Apart(r, a) && Apart(r, b)
    modifies r.digits
    ensures Underflowed(old(a.digits[..]), old(b.digits[..]), r.digits[..], NUM_DIGITS, carry)
    ensures old(Canonical(a.digits[..]) && Canonical(b.digits[..]))
      ==> Differed(old(a.digits[..]), old(b.digits[..]), r.digits[..], NUM_DIGITS, carry)
  {
    hide Underflowed, Differed;
    ghost var x, y := a.digits[..], b.digits[..];
    carry := 0;
    NothingDiffers(x, y, r.digits[..]);
    for i := 0 to NUM_DIGITS
      invariant StillThere(a, x, i) && StillThere(b, y, i)
      invariant carry <= 1 && Underflowed(x, y, r.digits[..], i, carry)
      invariant Canonical(x) && Canonical(y) ==> Differed(x, y, r.digits[..], i, carry)
    {
      ghost var z, was := r.digits[..], carry;
      var result: int := a.digits[i] - b.digits[i] - carry;
      if result < 0 {
        carry := 1;
        result := result + LIMIT;
      } else {
        carry := 0;
      }
      r.digits[i] := result % TWO_TO_32;
      UnderflowedNext(x, y, z, i, was, r.digits[..], carry);
      if Canonical(x) && Canonical(y) { DifferedNext(x, y, z, i, was, r.digits[..], carry); }
    }
  }

  lemma NothingDiffers(x: seq<nat>, y: seq<nat>, z: seq<nat>)
    ensures Underflowed(x, y, z, 0, 0) && Differed(x, y, z, 0, 0)
  {
  }

  /** No column of a sum by hand is exactly 10^9. */
  predicate NoExactColumn(x: Num, y: Num)
    requires Canonical(x.digits) && Canonical(y.digits)
  {
    forall i :: 0 <= i < NUM_DIGITS ==> Column(x.digits, y.digits, i) != LIMIT
  }

  /** Of numbers of different signs, the one that is subtracted from and the other. */
  function Greater(x: Num, y: Num): Num
    requires Words(x.digits) && Words(y.digits)
  {
    if Lower(x.digits, y.digits, NUM_DIGITS) then y else x
  }

  function Lesser(x: Num, y: Num): Num
    requires Words(x.digits) && Words(y.digits)
  {
    if Lower(x.digits, y.digits, NUM_DIGITS) then x else y
  }

  /** No digit of the result leaves 32 bits on the way. */
  predicate NoWrap(x: Num, y: Num)
    requires Words(x.digits) && Words(y.digits)
  {
    if x.sign == y.sign then ColumnsFit(x.digits, y.digits, NUM_DIGITS)
    else BorrowsSuffice(Greater(x, y).digits, Lesser(x, y).digits, NUM_DIGITS)
  }

  /** The carry weighs 10^45. Out of a sum it comes with the sign of both, out of a difference with the
      opposite one. */
  function WithCarry(x: Num, y: Num, z: Num, carry: nat): int {
    var weight := carry * PowLimit(NUM_DIGITS);
    Value(z) + if (x.sign == y.sign) == (z.sign < 0) then -weight else weight
  }

  /** What adding promises of its result. With its carry, it is the sum exactly if no digit left 32 bits
      on the way. */
  ghost predicate IsSum(x: Num, y: Num, z: Num, carry: nat)
    requires Formed(x) && Formed(y)
  {
    && Formed(z) && carry <= 1 && (x.sign == y.sign ==> z.sign == x.sign)
    && (WithCarry(x, y, z, carry) == Value(x) + Value(y) <==> NoWrap(x, y))
    && (Proper(x) && Proper(y) ==> IsProperSum(x, y, z, carry))
  }

  /** What it promises for digits below 10^9. Those of one sign stay below exactly if no column of the sum
      is 10^9; those of different signs always do, and then the result can be a negative zero. */
  ghost predicate IsProperSum(x: Num, y: Num, z: Num, carry: nat)
    requires Proper(x) && Proper(y)
  {
    && |z.digits| == NUM_DIGITS && WithCarry(x, y, z, carry) == Value(x) + Value(y)
    && (x.sign == y.sign ==> (Canonical(z.digits) <==> NoExactColumn(x, y)))
    && (x.sign == y.sign && Canonical(z.digits) ==>
          (carry == 1 <==> PowLimit(NUM_DIGITS) <= Magnitude(x) + Magnitude(y)))
    && (x.sign != y.sign ==> carry == 0 && Canonical(z.digits)
                             && (NegativeZero(z) <==> Magnitude(x) == Magnitude(y) && x.sign < 0))
  }

  lemma SameSignSum(x: Num, y: Num, z: Num, carry: nat)
    requires Formed(x) && Formed(y) && x.sign == y.sign == z.sign && |z.digits| == NUM_DIGITS
    requires Wrapped(x.digits, y.digits, z.digits, NUM_DIGITS, carry)
    requires Proper(x) && Proper(y) ==> Summed(x.digits, y.digits, z.digits, NUM_DIGITS, carry)
    ensures IsSum(x, y, z, carry)
  {
    hide Low, PowLimit, CodedColumn, SumLost, ColumnsFit;
    NothingLost(x.digits, y.digits, NUM_DIGITS);
  }

  lemma OppositeSignSum(x: Num, y: Num, z: Num, carry: nat)
    requires Formed(x) && Formed(y) && x.sign != y.sign && |z.digits| == NUM_DIGITS
    requires Underflowed(Greater(x, y).digits, Lesser(x, y).digits, z.digits, NUM_DIGITS, carry)
    requires Proper(x) && Proper(y) ==>
      Differed(Greater(x, y).digits, Lesser(x, y).digits, z.digits, NUM_DIGITS, carry)
    requires z.sign == if Greater(x, y).sign < 0 then -1 else 0
    ensures IsSum(x, y, z, carry)
  {
    hide Low, PowLimit, CodedDifference, Excess, BorrowsSuffice, Lower;
    var big, small := Greater(x, y), Lesser(x, y);
    NoExcess(big.digits, small.digits, NUM_DIGITS);
    if Proper(x) && Proper(y) {
      LowerIsLess(x.digits, y.digits, NUM_DIGITS);
      NothingOwed(big.digits, small.digits, z.digits, NUM_DIGITS, carry);
    }
  }

  /** Any numbers of 32-bit digits. */
  method Add(r: BigNum, a: BigNum, b: BigNum) returns (carry: nat)
    requires Formed(a.View()) && Formed(b.View()) && r.digits.Length == NUM_DIGITS && Apart(r, a) && Apart(r, b)
    modifies r, r.digits
    ensures IsSum(old(a.View()), old(b.View()), r.View(), carry)
  {
    hide IsSum, Wrapped, Summed, Underflowed, Differed, Low, Lower;
    ghost var x, y := a.View(), b.View();
    if a.sign == b.sign {
      carry := AddDigits(r, a, b);
      r.sign := a.sign;
      SameSignSum(x, y, r.View(), carry);
    } else {
      var less := AbsoluteLessThan(a, b);
      var bigNum, smallNum := if less then b else a, if less then a else b;
      carry := SubtractDigits(r, bigNum, smallNum);
      if bigNum.sign < 0 { r.sign := -1; } else { r.sign := 0; }
      OppositeSignSum(x, y, r.View(), carry);
    }
  }

  /** 999999999 and 1 add up to one digit of 10^9. */
  lemma ExactColumnExists()
    ensures !NoExactColumn(Num([999999999, 0, 0, 0, 0], 0), Num([1, 0, 0, 0, 0], 0))
  {
    assert Column([999999999, 0, 0, 0, 0], [1, 0, 0, 0, 0], 0) == LIMIT;
  }

  /** 4294967295 and 1 add up to nothing. */
  lemma WrapExists()
    ensures !NoWrap(Num([0xFFFF_FFFF, 0, 0, 0, 0], 0), Num([1, 0, 0, 0, 0], 0))
  {
    assert CodedColumn([0xFFFF_FFFF, 0, 0, 0, 0], [1, 0, 0, 0, 0], 0) == TWO_TO_32;
  }

  method Sub(r: BigNum, a: BigNum, b: BigNum) returns (carry: nat)
    requires Formed(a.View()) && Formed(b.View()) && r.digits.Length == NUM_DIGITS && Apart(r, a) && Apart(r, b)
    modifies r, r.digits
    ensures Formed(Negated(old(b.View()))) && IsSum(old(a.View()), Negated(old(b.View())), r.View(), carry)
    ensures WithCarry(old(a.View()), Negated(old(b.View())), r.View(), carry)
         == old(Value(a.View())) - old(Value(b.View()))
      <==> NoWrap(old(a.View()), Negated(old(b.View())))
  {
    hide Low, PowLimit, NoExactColumn, WithCarry, NoWrap;
    NegatedValue(b.View());
    var nb := new BigNum();
    Neg(nb, b);
    carry := Add(r, a, nb);
  }
}
