/** Five-digit numbers made from and turned into machine integers. */
module BigNumberIntegers {
  import opened Bytes
  import opened BigNumber

  const LIMIT_2: nat := 1000000000_000000000
  const LIMIT_3: nat := 1000000000_000000000_000000000
  const LIMIT_4: nat := 1000000000_000000000_000000000_000000000

  /** The sizes of signed integers. */
  datatype Width = Int8 | Int16 | Int32 | Int64 | Int128

  /** One more than the greatest value. */
  function Half(w: Width): int {
    match w
    case Int8 => 0x80
    case Int16 => 0x8000
    case Int32 => 0x8000_0000
    case Int64 => 0x8000_0000_0000_0000
    case Int128 => 0x8000_0000_0000_0000_0000_0000_0000_0000
  }

  lemma HalfIsPositive(w: Width)
    ensures 0 < Half(w)
  {
  }

  predicate Fits(w: Width, v: int) {
    -Half(w) <= v < Half(w)
  }

  /** The values of each width in numbers. */
  lemma LimitsOfWidths(v: int)
    ensures Fits(Int8, v) <==> -128 <= v <= 127
    ensures Fits(Int16, v) <==> -32768 <= v <= 32767
    ensures Fits(Int32, v) <==> -2147483648 <= v <= 2147483647
    ensures Fits(Int64, v) <==> -9223372036854775808 <= v <= 9223372036854775807
    ensures Fits(Int128, v)
        <==> -170141183460469231731687303715884105728 <= v <= 170141183460469231731687303715884105727
  {
  }

  /** What a register of that width makes of a value. */
  function Wrapped(w: Width, v: int): (r: int)
    ensures Fits(w, r) && (Fits(w, v) ==> r == v)
  {
    HalfIsPositive(w);
    WrapSmall(v, Half(w));
    (v + Half(w)) % (2 * Half(w)) - Half(w)
  }

  lemma WrapSmall(v: int, h: int)
    requires 0 < h
    ensures 0 <= (v + h) % (2 * h) < 2 * h && (-h <= v < h ==> (v + h) % (2 * h) == v + h)
  {
    if -h <= v < h { SameMod(v + h, v + h, 0, 2 * h); }
  }

  lemma SameMod(x: int, y: int, q: int, p: int)
    requires p > 0 && x == y + q * p
    ensures x % p == y % p
    ensures 0 <= x < p ==> x % p == x
  {
    assert x == p * (x / p) + x % p;
    assert y == p * (y / p) + y % p;
    assert p * (y / p + q) == p * (y / p) + q * p;
    Unique(p, x / p, x % p, y / p + q, y % p);
    if 0 <= x < p { Unique(p, x / p, x % p, 0, x); }
  }

  /** Quotient and remainder are determined. */
  lemma Unique(p: int, a: int, r: int, b: int, s: int)
    requires p > 0 && 0 <= r < p && 0 <= s < p && p * a + r == p * b + s
    ensures a == b && r == s
  {
    assert p * (a - b) == p * a - p * b;
    Multiple(p, a - b);
  }

  lemma Multiple(p: int, m: int)
    requires p > 0
    ensures (m > 0 ==> p <= p * m) && (m < 0 ==> p * m <= -p)
  {
  }

  /** Wrapping changes a value by a multiple of the range. */
  lemma WrappedBy(w: Width, v: int) returns (q: int)
    ensures v == Wrapped(w, v) + q * (2 * Half(w))
  {
    HalfIsPositive(w);
    q := (v + Half(w)) / (2 * Half(w));
  }

  /** Wrapping first makes no difference to the negative, nor to a sum. */
  lemma WrappedNegative(w: Width, v: int)
    ensures Wrapped(w, -Wrapped(w, v)) == Wrapped(w, -v)
  {
    hide Half;
    HalfIsPositive(w);
    var q := WrappedBy(w, v);
    SameMod(-Wrapped(w, v) + Half(w), -v + Half(w), q, 2 * Half(w));
  }

  lemma WrappedSum(w: Width, u: int, v: int)
    ensures Wrapped(w, Wrapped(w, u) + v) == Wrapped(w, u + v)
  {
    hide Half;
    HalfIsPositive(w);
    var q := WrappedBy(w, u);
    SameMod(u + v + Half(w), Wrapped(w, u) + v + Half(w), q, 2 * Half(w));
  }

  // ---------- From integers ----------

  /** The values of the unsigned integer of that width. */
  predicate FitsUnsigned(w: Width, u: int) {
    0 <= u < 2 * Half(w)
  }

  /** Takes digits off from the top; the two least widths need one digit, the others two, three and five. */
  function SplitDigits(w: Width, u: nat): (d: seq<nat>)
    requires FitsUnsigned(w, u)
    ensures |d| == NUM_DIGITS
  {
    match w
    case Int8 => [u, 0, 0, 0, 0]
    case Int16 => [u, 0, 0, 0, 0]
    case Int32 =>
      var dig0 := u / LIMIT;
      [u - dig0 * LIMIT, dig0, 0, 0, 0]
    case Int64 =>
      var dig2 := u / LIMIT_2;
      var u1 := u - dig2 * LIMIT_2;
      var dig1 := u1 / LIMIT;
      [u1 - dig1 * LIMIT, dig1, dig2, 0, 0]
    case Int128 =>
      var dig4 := u / LIMIT_4;
      var u3 := u - dig4 * LIMIT_4;
      var dig3 := u3 / LIMIT_3;
      var u2 := u3 - dig3 * LIMIT_3;
      var dig2 := u2 / LIMIT_2;
      var u1 := u2 - dig2 * LIMIT_2;
      var dig1 := u1 / LIMIT;
      [u1 - dig1 * LIMIT, dig1, dig2, dig3, dig4]
  }

  /** The magnitude goes through the unsigned type of that width, where -1 times the least value is itself. */
  function InitWith(w: Width, v: int): (x: Num)
    requires Fits(w, v)
  {
    Num(SplitDigits(w, if v < 0 then -v else v), if v < 0 then -1 else 0)
  }

  function InitWithUnsigned(w: Width, u: nat): (x: Num)
    requires FitsUnsigned(w, u)
  {
    Num(SplitDigits(w, u), 0)
  }

  lemma PowLimits()
    ensures PowLimit(0) == 1 && PowLimit(1) == LIMIT && PowLimit(2) == LIMIT_2
    ensures PowLimit(3) == LIMIT_3 && PowLimit(4) == LIMIT_4
  {
    assert PowLimit(2) == LIMIT * PowLimit(1);
    assert PowLimit(3) == LIMIT * PowLimit(2);
  }

  lemma FiveDigits(d: seq<nat>)
    requires |d| == NUM_DIGITS
    ensures Low(d, NUM_DIGITS) == d[0] + d[1] * LIMIT + d[2] * LIMIT_2 + d[3] * LIMIT_3 + d[4] * LIMIT_4
  {
    PowLimits();
    assert Low(d, 1) == d[0];
    assert Low(d, 2) == Low(d, 1) + d[1] * LIMIT;
    assert Low(d, 4) == Low(d, 2) + d[2] * LIMIT_2 + d[3] * LIMIT_3;
  }

  lemma SplitValue(w: Width, u: nat)
    requires FitsUnsigned(w, u)
    ensures Canonical(SplitDigits(w, u)) && Low(SplitDigits(w, u), NUM_DIGITS) == u
    ensures ZeroFrom(SplitDigits(w, u), DigitsRead(w))
  {
    FiveDigits(SplitDigits(w, u));
  }

  /** Every integer becomes the number of its value. */
  lemma InitValue(w: Width, v: int)
    requires Fits(w, v)
    ensures Proper(InitWith(w, v)) && Value(InitWith(w, v)) == v
  {
    hide Low, SplitDigits;
    SplitValue(w, if v < 0 then -v else v);
  }

  lemma InitUnsignedValue(w: Width, u: nat)
    requires FitsUnsigned(w, u)
    ensures Proper(InitWithUnsigned(w, u)) && Value(InitWithUnsigned(w, u)) == u
  {
    hide Low, SplitDigits;
    SplitValue(w, u);
  }

  // ---------- To integers ----------

  /** How many digits each width looks at. */
  function DigitsRead(w: Width): nat {
    match w case Int8 => 1 case Int16 => 1 case Int32 => 2 case Int64 => 3 case Int128 => 5
  }

  /** Adds up in a register of the width. */
  function Get(w: Width, x: Num): int
    requires |x.digits| == NUM_DIGITS
  {
    var d := x.digits;
    var result := match w
      case Int8 => Wrapped(w, d[0])
      case Int16 => Wrapped(w, d[0])
      case Int32 => Wrapped(w, Wrapped(w, d[0]) + d[1] * LIMIT)
      case Int64 => Wrapped(w, Wrapped(w, d[0] + d[1] * LIMIT) + d[2] * LIMIT_2)
      case Int128 =>
        Wrapped(w, Wrapped(w, Wrapped(w, Wrapped(w, d[0] + d[1] * LIMIT) + d[2] * LIMIT_2) + d[3] * LIMIT_3)
                   + d[4] * LIMIT_4);
    if x.sign < 0 then Wrapped(w, -result) else result
  }

  /** What an unsigned register of that width makes of a value. */
  function Cut(w: Width, v: nat): nat {
    v % (2 * Half(w))
  }

  /** Adds up in an unsigned register, and does not look at the sign. */
  function GetUnsigned(w: Width, x: Num): nat
    requires |x.digits| == NUM_DIGITS
  {
    var d := x.digits;
    match w
    case Int8 => Cut(w, d[0])
    case Int16 => Cut(w, d[0])
    case Int32 => Cut(w, Cut(w, d[0]) + d[1] * LIMIT)
    case Int64 => Cut(w, Cut(w, d[0] + d[1] * LIMIT) + d[2] * LIMIT_2)
    case Int128 =>
      Cut(w, Cut(w, Cut(w, Cut(w, d[0] + d[1] * LIMIT) + d[2] * LIMIT_2) + d[3] * LIMIT_3) + d[4] * LIMIT_4)
  }

  lemma CutSum(w: Width, u: nat, v: nat)
    ensures Cut(w, Cut(w, u) + v) == Cut(w, u + v)
  {
    hide Half;
    HalfIsPositive(w);
    var p := 2 * Half(w);
    SameMod(u + v, u % p + v, u / p, p);
  }

  lemma CutSums(w: Width, t0: nat, t1: nat, t2: nat, t3: nat, t4: nat)
    ensures Cut(w, Cut(w, t0) + t1) == Cut(w, t0 + t1)
    ensures Cut(w, Cut(w, t0 + t1) + t2) == Cut(w, t0 + t1 + t2)
    ensures Cut(w, Cut(w, Cut(w, Cut(w, t0 + t1) + t2) + t3) + t4) == Cut(w, t0 + t1 + t2 + t3 + t4)
  {
    hide Cut;
    CutSum(w, t0, t1);
    CutSum(w, t0 + t1, t2);
    CutSum(w, t0 + t1 + t2, t3);
    CutSum(w, t0 + t1 + t2 + t3, t4);
  }

  /** An unsigned getter cuts the magnitude of a number that it sees all digits of. */
  lemma GetUnsignedIsCut(w: Width, x: Num)
    requires |x.digits| == NUM_DIGITS && ZeroFrom(x.digits, DigitsRead(w))
    ensures GetUnsigned(w, x) == Cut(w, Magnitude(x))
  {
    hide Cut, Low;
    FiveDigits(x.digits);
    var d := x.digits;
    CutSums(w, d[0], d[1] * LIMIT, d[2] * LIMIT_2, d[3] * LIMIT_3, d[4] * LIMIT_4);
  }

  /** Every unsigned integer comes back; of a signed one, what comes back unsigned is its magnitude. */
  lemma UnsignedReturn(w: Width, u: nat, v: int)
    requires FitsUnsigned(w, u) && Fits(w, v)
    ensures GetUnsigned(w, InitWithUnsigned(w, u)) == u
    ensures GetUnsigned(w, InitWith(w, v)) == if v < 0 then -v else v
  {
    hide Low, SplitDigits, GetUnsigned;
    var m: nat := if v < 0 then -v else v;
    SplitValue(w, u);
    SplitValue(w, m);
    GetUnsignedIsCut(w, InitWithUnsigned(w, u));
    GetUnsignedIsCut(w, InitWith(w, v));
    HalfIsPositive(w);
    SameMod(u, u, 0, 2 * Half(w));
    SameMod(m, m, 0, 2 * Half(w));
  }

  /** A getter wraps the value of a number that it sees all digits of. */
  lemma GetIsWrapped(w: Width, x: Num)
    requires |x.digits| == NUM_DIGITS && ZeroFrom(x.digits, DigitsRead(w))
    ensures Get(w, x) == Wrapped(w, Value(x))
  {
    hide Wrapped, Low;
    FiveDigits(x.digits);
    var d := x.digits;
    WrappedSums(w, d[0], d[1] * LIMIT, d[2] * LIMIT_2, d[3] * LIMIT_3, d[4] * LIMIT_4);
    WrappedNegative(w, Magnitude(x));
  }

  lemma WrappedSums(w: Width, t0: int, t1: int, t2: int, t3: int, t4: int)
    ensures Wrapped(w, Wrapped(w, t0) + t1) == Wrapped(w, t0 + t1)
    ensures Wrapped(w, Wrapped(w, t0 + t1) + t2) == Wrapped(w, t0 + t1 + t2)
    ensures Wrapped(w, Wrapped(w, Wrapped(w, Wrapped(w, t0 + t1) + t2) + t3) + t4) == Wrapped(w, t0 + t1 + t2 + t3 + t4)
  {
    hide Wrapped;
    WrappedSum(w, t0, t1);
    WrappedSum(w, t0 + t1, t2);
    WrappedSum(w, t0 + t1 + t2, t3);
    WrappedSum(w, t0 + t1 + t2 + t3, t4);
  }

  /** Every integer comes back, the least of its width included. */
  lemma IntegersReturn(w: Width, v: int)
    requires Fits(w, v)
    ensures Get(w, InitWith(w, v)) == v
  {
    hide Low, SplitDigits, Get, Wrapped;
    InitValue(w, v);
    SplitValue(w, if v < 0 then -v else v);
    GetIsWrapped(w, InitWith(w, v));
  }

  // ---------- Choosing a width ----------

  datatype Integer = Integer(width: Width, value: int)

  /** Within the values of a width, by comparing with its limits. */
  predicate WithinLimits(w: Width, x: Num)
    requires |x.digits| == NUM_DIGITS
  {
    HalfIsPositive(w);
    Compared(x, InitWith(w, Half(w) - 1)) <= 0 && 0 <= Compared(x, InitWith(w, -Half(w)))
  }

  predicate ZeroFrom(d: seq<nat>, n: nat) {
    forall k :: n <= k < |d| ==> d[k] == 0
  }

  /** The least width that will do, except that the least value of the two least widths goes to a wider one. */
  function CreateInteger(x: Num): Option<Integer>
    requires |x.digits| == NUM_DIGITS
  {
    var d := x.digits;
    if ZeroFrom(d, 1) && d[0] <= 0x7F then Some(Integer(Int8, Get(Int8, x)))
    else if ZeroFrom(d, 1) && d[0] <= 0x7FFF then Some(Integer(Int16, Get(Int16, x)))
    else if ZeroFrom(d, 2) && WithinLimits(Int32, x) then Some(Integer(Int32, Get(Int32, x)))
    else if ZeroFrom(d, 3) && WithinLimits(Int64, x) then Some(Integer(Int64, Get(Int64, x)))
    else if WithinLimits(Int128, x) then Some(Integer(Int128, Get(Int128, x)))
    else None
  }

  /** Whatever the digits, the integer is the value wrapped to the width chosen, and so the value itself
      exactly if it fits that width. */
  lemma CreatedWrapped(x: Num)
    requires |x.digits| == NUM_DIGITS && CreateInteger(x).Some?
    ensures var i := CreateInteger(x).value;
      i.value == Wrapped(i.width, Value(x)) && (i.value == Value(x) <==> Fits(i.width, Value(x)))
  {
    hide Low, Wrapped, WithinLimits, Get;
    var i := CreateInteger(x).value;
    assert ZeroFrom(x.digits, DigitsRead(i.width)) && i.value == Get(i.width, x);
    GetIsWrapped(i.width, x);
  }

  /** A digit above 10^9 can pass the comparison and not fit: 5 * 10^9 becomes 705032704. */
  lemma WrongIntegerExists()
    ensures var x := Num([4000000000, 1, 0, 0, 0], 0);
      Value(x) == 5000000000 && CreateInteger(x) == Some(Integer(Int32, 705032704))
  {
    hide Low, Wrapped;
    var x := Num([4000000000, 1, 0, 0, 0], 0);
    FiveDigits(x.digits);
    assert InitWith(Int32, Half(Int32) - 1).digits == [147483647, 2, 0, 0, 0];
    assert Lower(x.digits, [147483647, 2, 0, 0, 0], NUM_DIGITS) by {
      assert Lower(x.digits, [147483647, 2, 0, 0, 0], 2);
      assert Lower(x.digits, [147483647, 2, 0, 0, 0], 4);
    }
    GetIsWrapped(Int32, x);
    WrappedFive();
  }

  lemma WrappedFive()
    ensures Wrapped(Int32, 5000000000) == 705032704
  {
  }

  lemma LimitsAreFits(w: Width, x: Num)
    requires Proper(x) && Value(x) != 0
    ensures WithinLimits(w, x) <==> Fits(w, Value(x))
  {
    hide Low, Lower, Compared, InitWith;
    HalfIsPositive(w);
    InitValue(w, Half(w) - 1);
    InitValue(w, -Half(w));
    ComparedIsOrder(x, InitWith(w, Half(w) - 1));
    ComparedIsOrder(x, InitWith(w, -Half(w)));
  }

  /** A value that fits a width leaves the digits beyond those the width reads at zero. */
  lemma FewDigits(w: Width, x: Num)
    requires Proper(x) && Fits(w, Value(x))
    ensures ZeroFrom(x.digits, DigitsRead(w))
  {
    hide Low, SplitDigits;
    var y := InitWith(w, Value(x));
    InitValue(w, Value(x));
    SplitValue(w, Magnitude(x));
    LowIsInjective(x.digits, y.digits, NUM_DIGITS);
  }

  /** Of digits below 10^9, a number becomes an integer exactly if it fits 128 bits, and then one of its
      value. */
  lemma CreatedIntegers(x: Num)
    requires Proper(x)
    ensures CreateInteger(x).Some? <==> Fits(Int128, Value(x))
    ensures CreateInteger(x).Some? ==> CreateInteger(x).value.value == Value(x)
  {
    hide Low, Wrapped, WithinLimits, Get;
    FiveDigits(x.digits);
    if Value(x) != 0 {
      LimitsAreFits(Int32, x);
      LimitsAreFits(Int64, x);
      LimitsAreFits(Int128, x);
    }
    if CreateInteger(x).Some? { CreatedWrapped(x); }
  }

  predicate Narrower(v: Width, w: Width) {
    Half(v) < Half(w)
  }

  /** No narrower width would have done, but that -128 and -32768 are given a wider one. */
  lemma CreatedNarrow(x: Num, w: Width)
    requires Proper(x) && CreateInteger(x).Some? && Narrower(w, CreateInteger(x).value.width)
    ensures Fits(w, Value(x)) <==> (w == Int8 || w == Int16) && Value(x) == -Half(w)
  {
    hide Low, Wrapped, WithinLimits, Get;
    FiveDigits(x.digits);
    if Value(x) != 0 {
      LimitsAreFits(Int32, x);
      LimitsAreFits(Int64, x);
    }
    if Fits(w, Value(x)) { FewDigits(w, x); }
  }
}
