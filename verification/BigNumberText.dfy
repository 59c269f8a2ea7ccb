/** Numbers of five digits to the base 10^9, printed and parsed in decimal. */
module BigNumberText {
  import opened Bytes
  import opened BigNumber

  const TMP_DIGITS: nat := 45

  function Pow10(n: nat): (p: nat)
    ensures p > 0
  {
    if n == 0 then 1 else 10 * Pow10(n - 1)
  }

  predicate IsDigit(c: char) {
    '0' <= c <= '9'
  }

  predicate AllDigits(s: string) {
    forall i :: 0 <= i < |s| ==> IsDigit(s[i])
  }

  /** What a string of decimal digits stands for. */
  function Decimal(s: string): nat
    requires AllDigits(s)
  {
    if s == [] then 0 else 10 * Decimal(s[..|s| - 1]) + (s[|s| - 1] as int - '0' as int)
  }

  lemma {:induction false} DecimalConcat(s: string, t: string)
    requires AllDigits(s) && AllDigits(t)
    ensures AllDigits(s + t) && Decimal(s + t) == Decimal(s) * Pow10(|t|) + Decimal(t)
  {
    if t == [] {
      assert s + t == s;
    } else {
      hide Decimal;
      var n := |t| - 1;
      DecimalConcat(s, t[..n]);
      DecimalNext(t);
      DecimalNext(s + t);
      assert (s + t)[..|s| + n] == s + t[..n];
      TenTimes(Decimal(s), Pow10(n));
    }
  }

  lemma DecimalNext(s: string)
    requires AllDigits(s) && s != []
    ensures Decimal(s) == 10 * Decimal(s[..|s| - 1]) + (s[|s| - 1] as int - '0' as int)
  {
  }

  /** The last character counts units, the one before it tens, and so on. */
  lemma DecimalPlaces(s: string, c: char)
    requires AllDigits(s) && '0' <= c <= '9'
    ensures Decimal(s + [c]) == 10 * Decimal(s) + (c as int - 48)
    ensures Decimal("") == 0
  {
    assert (s + [c])[..|s|] == s;
  }

  lemma TenTimes(x: nat, p: nat)
    ensures 10 * (x * p) == x * (10 * p)
  {
  }

  lemma {:induction false} DecimalBounded(s: string)
    requires AllDigits(s)
    ensures Decimal(s) < Pow10(|s|)
  {
    if s != [] { DecimalBounded(s[..|s| - 1]); }
  }

  /** `n` decimal digits, with leading zeros. */
  function Padded(v: nat, n: nat): (s: string)
    ensures |s| == n && AllDigits(s)
  {
    if n == 0 then [] else Padded(v / 10, n - 1) + [('0' as int + v % 10) as char]
  }

  lemma {:induction false} PaddedDecimal(v: nat, n: nat)
    requires v < Pow10(n)
    ensures Decimal(Padded(v, n)) == v
  {
    if n > 0 {
      hide Decimal;
      PaddedDecimal(v / 10, n - 1);
      DecimalPlaces(Padded(v / 10, n - 1), ('0' as int + v % 10) as char);
    }
  }

  lemma Pow10Is()
    ensures Pow10(9) == LIMIT
  {
    assert Pow10(3) == 1000;
    assert Pow10(6) == 1000000;
  }

  lemma Pow10Zero()
    ensures Pow10(0) == 1 && Decimal("") == 0
  {
  }

  lemma {:induction false} Pow10Add(m: nat, n: nat)
    ensures Pow10(m + n) == Pow10(m) * Pow10(n)
  {
    if m > 0 {
      Pow10Add(m - 1, n);
      TenTimes(Pow10(n), Pow10(m - 1));
    }
  }

  lemma {:induction false} LimitsAreTens(n: nat)
    ensures Pow10(9 * n) == PowLimit(n)
  {
    hide Pow10;
    Pow10Is();
    Pow10Zero();
    if n > 0 {
      LimitsAreTens(n - 1);
      Pow10Add(9, 9 * (n - 1));
    }
  }

  // ---------- Printing ----------

  /** A digit as "%09u" prints it: ten characters from 10^9 on. */
  function PrintedDigit(v: nat): (s: string)
    ensures 9 <= |s| <= 10 && AllDigits(s)
  {
    Padded(v, if v < LIMIT then 9 else 10)
  }

  /** The top `n` digits of any number. */
  function Printed(d: seq<nat>, n: nat): (s: string)
    requires n <= |d|
    ensures 9 * n <= |s| && AllDigits(s)
  {
    if n == 0 then [] else PrintedDigit(d[n - 1]) + Printed(d, n - 1)
  }

  /** What fits the text buffer of 45 characters and a NUL. */
  function Tmp(d: seq<nat>): (s: string)
    requires |d| == NUM_DIGITS
    ensures |s| == TMP_DIGITS && AllDigits(s)
  {
    Printed(d, NUM_DIGITS)[..TMP_DIGITS]
  }

  /** The five digits from the highest down, each with all its own digits and at least nine, cut to 45. */
  lemma TmpText(d: seq<nat>)
    requires |d| == 5 && forall i :: 0 <= i < 5 ==> d[i] < TWO_TO_32
    ensures var p := seq(5, i requires 0 <= i < 5 => PrintedDigit(d[i]));
      Tmp(d) == (p[4] + p[3] + p[2] + p[1] + p[0])[..45]
    ensures forall i :: 0 <= i < 5 ==>
      Decimal(PrintedDigit(d[i])) == d[i] && |PrintedDigit(d[i])| == if d[i] < 1_000_000_000 then 9 else 10
  {
    hide Decimal, PrintedDigit;
    forall i | 0 <= i < 5
      ensures Decimal(PrintedDigit(d[i])) == d[i] && |PrintedDigit(d[i])| == if d[i] < 1_000_000_000 then 9 else 10
    {
      OneDigit(d[i]);
    }
    var p := seq(5, i requires 0 <= i < 5 => PrintedDigit(d[i]));
    assert Printed(d, 0) == [] && Printed(d, 1) == p[0] && Printed(d, 2) == p[1] + p[0];
    assert Printed(d, 3) == p[2] + p[1] + p[0];
    assert Printed(d, 4) == p[3] + p[2] + p[1] + p[0];
    assert Printed(d, 5) == p[4] + p[3] + p[2] + p[1] + p[0];
  }

  lemma OneDigit(v: nat)
    requires v < TWO_TO_32
    ensures Decimal(PrintedDigit(v)) == v && |PrintedDigit(v)| == if v < 1_000_000_000 then 9 else 10
  {
    hide Decimal, Padded;
    Pow10Is();
    if v < LIMIT { PaddedDecimal(v, 9); } else { TenDigits(v); }
  }

  lemma TopFits(d: seq<nat>, n: nat)
    requires 0 < n <= |d|
    ensures var v, r := d[n - 1], Printed(d, n - 1)[..9 * (n - 1)];
      Printed(d, n)[..9 * n] ==
        if v < LIMIT then Padded(v, 9) + r else if n > 1 then Padded(v, 10) + r[..|r| - 1] else Padded(v, 10)[..9]
  {
    hide Padded;
  }

  lemma NinePrinted(v: nat, r: string)
    requires v < LIMIT && AllDigits(r)
    ensures Decimal(Padded(v, 9) + r) == v * Pow10(|r|) + Decimal(r)
  {
    hide Decimal, Padded, Pow10;
    Pow10Is();
    PaddedDecimal(v, 9);
    DecimalConcat(Padded(v, 9), r);
  }

  lemma TenDigits(v: nat)
    requires v < TWO_TO_32
    ensures Decimal(Padded(v, 10)) == v
  {
    hide Decimal, Padded;
    Pow10Is();
    assert Pow10(10) == 10 * Pow10(9);
    PaddedDecimal(v, 10);
  }

  lemma DropLast(s: string)
    requires AllDigits(s) && s != []
    ensures AllDigits(s[..|s| - 1]) && 10 * Decimal(s[..|s| - 1]) <= Decimal(s)
  {
  }

  /** Ten characters push the last one out. */
  lemma TenPrinted(v: nat, r: string)
    requires 0 < v < TWO_TO_32 && AllDigits(r) && r != []
    ensures Decimal(Padded(v, 10) + r[..|r| - 1]) < v * Pow10(|r|) + Decimal(r)
  {
    hide Decimal, Padded, Pow10;
    TenDigits(v);
    DropLast(r);
    DecimalConcat(Padded(v, 10), r[..|r| - 1]);
    TenthIsLess(v, |r|);
  }

  lemma TenthIsLess(v: nat, m: nat)
    requires v > 0 && m > 0
    ensures v * Pow10(m - 1) < v * Pow10(m)
  {
    MulMonotonic(1, v, Pow10(m - 1));
    TenTimes(v, Pow10(m - 1));
  }

  lemma LowestPrinted(v: nat)
    requires 0 < v < TWO_TO_32
    ensures Decimal(Padded(v, 10)[..9]) < v && PowLimit(0) == 1
  {
    hide Decimal, Padded;
    TenDigits(v);
    DropLast(Padded(v, 10));
  }

  /** One digit more, before the nine characters a digit of the lower ones. */
  lemma PrintedNext(d: seq<nat>, n: nat)
    requires 0 < n <= |d| && d[n - 1] < TWO_TO_32
    ensures var w, r, v := Printed(d, n)[..9 * n], Printed(d, n - 1)[..9 * (n - 1)], d[n - 1] * PowLimit(n - 1);
      Decimal(w) <= v + Decimal(r) && (Decimal(w) == v + Decimal(r) <==> d[n - 1] < LIMIT)
  {
    hide Decimal, Padded, Printed, Pow10, PowLimit;
    var v, r := d[n - 1], Printed(d, n - 1)[..9 * (n - 1)];
    assert |r| == 9 * (n - 1);
    LimitsAreTens(n - 1);
    TopFits(d, n);
    if v < LIMIT {
      NinePrinted(v, r);
    } else if n > 1 {
      TenPrinted(v, r);
    } else {
      LowestPrinted(v);
      AllZeros(r);
      assert v * PowLimit(0) == v;
    }
  }

  /** Cut to nine characters a digit, the text stands for the number if all digits are below 10^9, and for
      less otherwise. */
  lemma {:induction false} PrintedDecimal(d: seq<nat>, n: nat)
    requires n <= |d| && forall i :: 0 <= i < n ==> d[i] < TWO_TO_32
    ensures Decimal(Printed(d, n)[..9 * n]) <= Low(d, n)
    ensures Decimal(Printed(d, n)[..9 * n]) == Low(d, n) <==> forall i :: 0 <= i < n ==> d[i] < LIMIT
  {
    hide Decimal, Printed, PowLimit, Low;
    if n == 0 {
      AllZeros(Printed(d, 0)[..0]);
      NoDigits(d);
    } else {
      PrintedDecimal(d, n - 1);
      PrintedNext(d, n);
      LowNext(d, n - 1);
    }
  }

  lemma LowNext(d: seq<nat>, n: nat)
    requires n < |d|
    ensures Low(d, n + 1) == Low(d, n) + d[n] * PowLimit(n)
  {
  }

  /** Without leading zeros, down to nothing. */
  function Strip(s: string): (t: string)
    ensures |t| <= |s| && t == s[|s| - |t|..] && (t != [] ==> t[0] != '0')
    ensures forall i :: 0 <= i < |s| - |t| ==> s[i] == '0'
  {
    if s != [] && s[0] == '0' then Strip(s[1..]) else s
  }

  lemma {:induction false} ZerosCountNothing(s: string, n: nat)
    requires AllDigits(s) && n <= |s| && forall i :: 0 <= i < n ==> s[i] == '0'
    ensures AllDigits(s[n..]) && Decimal(s[n..]) == Decimal(s)
  {
    DecimalConcat(s[..n], s[n..]);
    assert s[..n] + s[n..] == s;
    AllZeros(s[..n]);
  }

  lemma {:induction false} AllZeros(s: string)
    requires forall i :: 0 <= i < |s| ==> s[i] == '0'
    ensures AllDigits(s) && Decimal(s) == 0
  {
    if s != [] { AllZeros(s[..|s| - 1]); }
  }

  lemma {:induction false} SomeNonZero(s: string, i: nat)
    requires AllDigits(s) && i < |s| && s[i] != '0'
    ensures Decimal(s) > 0
  {
    if i < |s| - 1 { SomeNonZero(s[..|s| - 1], i); }
  }

  function SignText(x: Num, leadingPlus: bool): string {
    if x.sign < 0 then "-" else if leadingPlus then "+" else ""
  }

  /** What goes into `room` characters: zeros in front fill them, otherwise as little as possible is used.
      Too little room cuts off digits, at the front in the first case and at the end in the other. */
  function Body(d: seq<nat>, leadingZeros: bool, room: nat): (s: string)
    requires |d| == NUM_DIGITS
    ensures AllDigits(s) && |s| <= room
  {
    var all := Tmp(d);
    if leadingZeros then
      if TMP_DIGITS <= room then seq(room - TMP_DIGITS, _ => '0') + all else all[TMP_DIGITS - room..]
    else
      var t := if Strip(all) == [] then "0" else Strip(all);
      if |t| <= room then t else t[..room]
  }

  /** A C string: what comes before the first NUL. */
  function CString(s: seq<char>): (t: string)
    ensures |t| <= |s| && t == s[..|t|] && '\0' !in t && (|t| < |s| ==> s[|t|] == '\0')
  {
    if s == [] || s[0] == '\0' then [] else [s[0]] + CString(s[1..])
  }

  lemma {:induction false} CStringIs(s: seq<char>, t: string)
    requires |t| < |s| && s[..|t|] == t && s[|t|] == '\0' && '\0' !in t
    ensures CString(s) == t
  {
    if t != [] {
      assert s[0] == t[0];
      assert s[1..][..|t| - 1] == t[1..];
      CStringIs(s[1..], t[1..]);
    }
  }

  lemma {:induction false} StripIs(s: string, n: nat)
    requires n <= |s| && (forall i :: 0 <= i < n ==> s[i] == '0') && (n < |s| ==> s[n] != '0')
    ensures Strip(s) == s[n..]
  {
    if n > 0 {
      StripIs(s[1..], n - 1);
      assert s[1..][n - 1..] == s[n..];
    }
  }

  /** Skips zeros, but keeps the last of nothing but zeros. */
  method FirstDigit(d: seq<nat>, tmp: seq<char>) returns (s: nat)
    requires |d| == NUM_DIGITS && tmp == Tmp(d) + ['\0']
    ensures s < TMP_DIGITS
    ensures var t := Strip(Tmp(d)); tmp[s..TMP_DIGITS] == if t == [] then "0" else t
  {
    hide Tmp, Strip;
    ghost var all := Tmp(d);
    s := 0;
    while tmp[s] == '0'
      invariant s <= TMP_DIGITS && forall i :: 0 <= i < s ==> all[i] == '0'
      decreases TMP_DIGITS - s
    {
      s := s + 1;
    }
    StripIs(all, s);
    if tmp[s] == '\0' { s := s - 1; }
  }

  /** The end of the text and its NUL, with zeros in front. */
  lemma PaddedBody(d: seq<nat>, tmp: seq<char>, room: nat)
    requires |d| == NUM_DIGITS && tmp == Tmp(d) + ['\0']
    ensures var tocopy := if |tmp| < room + 1 then |tmp| else room + 1;
      Body(d, true, room) + ['\0'] == seq(room + 1 - tocopy, _ => '0') + tmp[|tmp| - tocopy..]
  {
    hide Tmp, Strip;
    if room < TMP_DIGITS {
      assert tmp[|tmp| - (room + 1)..] == Tmp(d)[TMP_DIGITS - room..] + ['\0'];
    } else {
      assert tmp[0..] == tmp;
    }
  }

  method WritePadded(d: seq<nat>, tmp: seq<char>, buffer: array<char>, at: nat)
    requires |d| == NUM_DIGITS && tmp == Tmp(d) + ['\0'] && at < buffer.Length
    modifies buffer
    ensures buffer[..at] == old(buffer[..at]) && buffer[at..] == Body(d, true, buffer.Length - at - 1) + ['\0']
  {
    hide Tmp, Body;
    var buflen := buffer.Length - at;
    forall i | at <= i < buffer.Length { buffer[i] := '0'; }
    var tocopy := if |tmp| < buflen then |tmp| else buflen;
    var from := buffer.Length - tocopy;
    forall i | 0 <= i < tocopy { buffer[from + i] := tmp[|tmp| - tocopy + i]; }
    assert buffer[at..from] == seq(buflen - tocopy, _ => '0');
    assert buffer[from..] == tmp[|tmp| - tocopy..];
    assert buffer[at..] == buffer[at..from] + buffer[from..];
    PaddedBody(d, tmp, buflen - 1);
  }

  /** The C library's strlcpy: as much as fits, and a NUL. */
  method CopyString(buffer: array<char>, at: nat, s: string)
    requires at < buffer.Length
    modifies buffer
    ensures buffer[..at] == old(buffer[..at])
    ensures s[..Min(|s|, buffer.Length - at - 1)] + ['\0'] <= buffer[at..]
  {
    var n := Min(|s|, buffer.Length - at - 1);
    forall i | 0 <= i < n { buffer[at + i] := s[i]; }
    buffer[at + n] := '\0';
    assert buffer[at..at + n] == s[..n];
    assert buffer[at..at + n + 1] == s[..n] + ['\0'];
    assert buffer[at..at + n + 1] <= buffer[at..];
  }

  /** As much of the text as fits, from its first digit on, and a NUL. */
  method WriteStripped(d: seq<nat>, tmp: seq<char>, buffer: array<char>, at: nat)
    requires |d| == NUM_DIGITS && tmp == Tmp(d) + ['\0'] && at < buffer.Length
    modifies buffer
    ensures buffer[..at] == old(buffer[..at])
    ensures Body(d, false, buffer.Length - at - 1) + ['\0'] <= buffer[at..]
  {
    hide Tmp, Strip;
    var s := FirstDigit(d, tmp);
    CopyString(buffer, at, tmp[s..TMP_DIGITS]);
    assert tmp[s..TMP_DIGITS][..TMP_DIGITS - s] == tmp[s..TMP_DIGITS];
  }

  method ToCString(v: BigNum, leadingZeros: bool, leadingPlus: bool, buffer: array<char>)
    requires Formed(v.View()) && |SignText(v.View(), leadingPlus)| < buffer.Length
    modifies buffer
    ensures var sign := SignText(v.View(), leadingPlus);
      CString(buffer[..]) == sign + Body(v.digits[..], leadingZeros, buffer.Length - |sign| - 1)
    ensures var text := CString(buffer[..]);
      if v.sign < 0 then "-" <= text && AllDigits(text[1..])
      else if leadingPlus then "+" <= text && AllDigits(text[1..])
      else AllDigits(text)
  {
    hide Tmp, Body, CString;
    ghost var x := v.View();
    var at := 0;
    if v.sign < 0 {
      buffer[0] := '-';
      at := 1;
    } else if leadingPlus {
      buffer[0] := '+';
      at := 1;
    }
    ghost var sign := SignText(x, leadingPlus);
    assert buffer[..at] == sign;
    var tmp := Tmp(v.digits[..]) + ['\0'];
    if leadingZeros {
      WritePadded(v.digits[..], tmp, buffer, at);
    } else {
      WriteStripped(v.digits[..], tmp, buffer, at);
    }
    Terminated(buffer[..], sign, Body(v.digits[..], leadingZeros, buffer.Length - at - 1));
  }

  lemma Terminated(s: seq<char>, sign: string, body: string)
    requires |sign| <= |s| && s[..|sign|] == sign && body + ['\0'] <= s[|sign|..]
    requires '\0' !in sign && AllDigits(body)
    ensures CString(s) == sign + body
  {
    var t := sign + body;
    assert s[|sign|..][..|body| + 1] == body + ['\0'];
    assert s[|t|] == s[|sign|..][|body|];
    assert s[..|t|] == t;
    CStringIs(s, t);
  }

  // ---------- Parsing ----------

  function Unsigned(text: string): string {
    if text != [] && (text[0] == '-' || text[0] == '+') then text[1..] else text
  }

  predicate IsSpace(c: char) {
    c == ' ' || '\t' <= c <= '\r'
  }

  function SkipSpaces(s: string): string {
    if s != [] && IsSpace(s[0]) then SkipSpaces(s[1..]) else s
  }

  function LeadingDigits(s: string): (t: string)
    ensures AllDigits(t) && t <= s
  {
    if s != [] && IsDigit(s[0]) then [s[0]] + LeadingDigits(s[1..]) else []
  }

  /** The C library's: spaces, a sign, digits up to something else, and no further than a long goes. */
  function Atol(s: string): Int64 {
    var t := SkipSpaces(s);
    var v: int := Decimal(LeadingDigits(Unsigned(t)));
    if t != [] && t[0] == '-' then (if LONG_MAX < v then -(LONG_MAX as int) - 1 else -v)
    else if LONG_MAX < v then LONG_MAX else v
  }

  lemma {:induction false} DigitsLead(s: string)
    requires AllDigits(s)
    ensures LeadingDigits(s) == s
  {
    if s != [] { DigitsLead(s[1..]); }
  }

  /** Spaces, tabs, line feeds, vertical tabs, form feeds and carriage returns. */
  predicate Blanks(s: string) {
    forall i :: 0 <= i < |s| ==> s[i] as int in [9, 10, 11, 12, 13, 32]
  }

  lemma {:induction false} BlanksAreSkipped(blanks: string, s: string)
    requires Blanks(blanks) && (s == "" || !Blanks(s[..1]))
    ensures SkipSpaces(blanks + s) == s
  {
    if blanks == "" {
      assert blanks + s == s;
    } else {
      assert (blanks + s)[1..] == blanks[1..] + s;
      BlanksAreSkipped(blanks[1..], s);
    }
  }

  lemma {:induction false} DigitsEnd(s: string, rest: string)
    requires AllDigits(s) && (rest == "" || !('0' <= rest[0] <= '9'))
    ensures LeadingDigits(s + rest) == s
  {
    if s == "" {
      assert s + rest == rest;
    } else {
      assert (s + rest)[1..] == s[1..] + rest;
      DigitsEnd(s[1..], rest);
    }
  }

  /** Blanks, a sign and digits are read as the number they stand for, whatever comes behind them; numbers
      beyond 63 bits are read as the greatest or the least. */
  lemma AtolReads(blanks: string, sign: string, s: string, rest: string)
    requires Blanks(blanks)
    requires sign in ["", "+", "-"] && s != "" && AllDigits(s) && (rest == "" || !('0' <= rest[0] <= '9'))
    ensures var v: int := if sign == "-" then -(Decimal(s) as int) else Decimal(s);
      Atol(blanks + sign + s + rest)
      == if v < -0x8000_0000_0000_0000 then -0x8000_0000_0000_0000
         else if 0x7FFF_FFFF_FFFF_FFFF < v then 0x7FFF_FFFF_FFFF_FFFF
         else v
  {
    hide Decimal, SkipSpaces, LeadingDigits;
    var t := sign + s + rest;
    assert blanks + sign + s + rest == blanks + t;
    assert !Blanks(t[..1]) by { assert t[..1][0] == t[0]; }
    BlanksAreSkipped(blanks, t);
    DigitsEnd(s, rest);
    assert Unsigned(t) == s + rest;
  }

  lemma AtolOfDigits(s: string)
    requires AllDigits(s)
    ensures Atol(s) == if LONG_MAX < Decimal(s) then LONG_MAX else Decimal(s)
  {
    hide Decimal, LeadingDigits;
    DigitsLead(s);
    assert SkipSpaces(s) == s && Unsigned(s) == s;
  }

  /** What is read of some characters as one digit of a number: the long, cut to 32 bits. */
  function Field(s: string): nat {
    Atol(s) % TWO_TO_32
  }

  /** Digits stand for themselves exactly below 2^32. */
  lemma FieldOfDigits(s: string)
    requires AllDigits(s)
    ensures Field(s) <= Decimal(s) && (Field(s) == Decimal(s) <==> Decimal(s) < TWO_TO_32)
  {
    hide Atol, Decimal;
    AtolOfDigits(s);
  }

  /** A number with a minus is read modulo 2^32. */
  lemma FieldOfNegative(s: string)
    requires AllDigits(s) && 0 < Decimal(s) < 0x1_0000_0000
    ensures Field("-" + s) == 0x1_0000_0000 - Decimal(s)
  {
    hide Decimal, Atol;
    if s == "" { AllZeros(s); }
    AtolReads("", "-", s, "");
    assert "" + "-" + s + "" == "-" + s;
  }

  /** Where the `n` lowest groups of nine characters begin. */
  function Cut(w: string, n: nat): (k: nat)
    ensures k <= |w|
  {
    if |w| <= 9 * n then 0 else |w| - 9 * n
  }

  /** Nine characters, counted from the end; the highest group has all that are left. */
  function Group(w: string, n: nat): string {
    if n + 1 < NUM_DIGITS then w[Cut(w, n + 1)..Cut(w, n)] else w[..Cut(w, n)]
  }

  function Fields(w: string): (d: seq<nat>)
    ensures |d| == NUM_DIGITS
  {
    seq(NUM_DIGITS, n requires 0 <= n < NUM_DIGITS => Field(Group(w, n)))
  }

  /** The number read from a text. */
  function Parsed(text: string): Num {
    Num(Fields(Strip(Unsigned(text))), if text != [] && text[0] == '-' then -1 else 0)
  }

  lemma {:induction false} Pow10Monotone(m: nat, n: nat)
    requires m <= n
    ensures Pow10(m) <= Pow10(n)
  {
    if m < n { Pow10Monotone(m, n - 1); }
  }

  lemma Front(w: string, n: nat)
    requires AllDigits(w) && n < NUM_DIGITS
    ensures Decimal(w) == Decimal(w[..Cut(w, n)]) * PowLimit(n) + Decimal(w[Cut(w, n)..])
  {
    hide Decimal;
    var c := Cut(w, n);
    assert w[..c] + w[c..] == w;
    DecimalConcat(w[..c], w[c..]);
    if c == 0 { AllZeros(w[..c]); } else { LimitsAreTens(n); }
  }

  lemma GroupIsSmall(w: string, n: nat)
    requires AllDigits(w) && n + 1 < NUM_DIGITS
    ensures Decimal(Group(w, n)) < LIMIT && Field(Group(w, n)) == Decimal(Group(w, n))
    ensures Decimal(w[Cut(w, n + 1)..]) == Decimal(w[Cut(w, n)..]) + Decimal(Group(w, n)) * PowLimit(n)
  {
    hide Decimal, Field;
    var c, e := Cut(w, n), Cut(w, n + 1);
    var g := w[e..c];
    Pow10Is();
    DecimalBounded(g);
    Pow10Monotone(|g|, 9);
    FieldOfDigits(g);
    assert g + w[c..] == w[e..];
    DecimalConcat(g, w[c..]);
    if c == 0 { AllZeros(g); } else { LimitsAreTens(n); }
  }

  /** The groups below the highest stand for the characters they are made of. */
  lemma {:induction false} LowerGroups(w: string, n: nat)
    requires AllDigits(w) && n < NUM_DIGITS
    ensures Low(Fields(w), n) == Decimal(w[Cut(w, n)..])
    ensures forall k :: 0 <= k < n ==> Fields(w)[k] < LIMIT
  {
    hide Decimal, Field, Low, Group, PowLimit;
    if n == 0 {
      AllZeros(w[|w|..]);
      NoDigits(Fields(w));
    } else {
      LowerGroups(w, n - 1);
      GroupIsSmall(w, n - 1);
      LowNext(Fields(w), n - 1);
    }
  }

  lemma NoDigits(d: seq<nat>)
    ensures Low(d, 0) == 0
  {
  }

  /** What is read of digits is their number exactly if the highest group fits 32 bits; and a proper
      number besides exactly if it has nine digits at most. */
  lemma FieldsAreDecimal(w: string)
    requires AllDigits(w)
    ensures Low(Fields(w), NUM_DIGITS) == Decimal(w) <==> Decimal(w) < TWO_TO_32 * PowLimit(4)
    ensures Canonical(Fields(w)) && Low(Fields(w), NUM_DIGITS) == Decimal(w) <==> Decimal(w) < PowLimit(NUM_DIGITS)
  {
    hide Decimal, Field, Low;
    var top, p := Decimal(Group(w, 4)), PowLimit(4);
    Front(w, 4);
    LowerGroups(w, 4);
    LowNext(Fields(w), 4);
    FieldOfDigits(Group(w, 4));
    LowIsBounded(Fields(w), 4);
    if Field(Group(w, 4)) < top { MulMonotonic(Field(Group(w, 4)) + 1, top, p); }
    Quotient(top, Low(Fields(w), 4), p, TWO_TO_32);
    Quotient(top, Low(Fields(w), 4), p, LIMIT);
    assert Canonical(Fields(w)) <==> Field(Group(w, 4)) < LIMIT;
  }

  lemma Quotient(q: nat, r: nat, p: nat, m: nat)
    requires r < p
    ensures q * p + r < m * p <==> q < m
  {
    if q < m { MulMonotonic(q + 1, m, p); } else { MulMonotonic(m, q, p); }
  }

  lemma StripDecimal(s: string)
    requires AllDigits(s)
    ensures AllDigits(Strip(s)) && Decimal(Strip(s)) == Decimal(s)
  {
    ZerosCountNothing(s, |s| - |Strip(s)|);
  }

  /** Parsing an optional sign and decimal digits gives the number written exactly below 2^32 * 10^36,
      and as a proper number exactly below 10^45. */
  lemma ParsedExactly(text: string)
    requires AllDigits(Unsigned(text))
    ensures Magnitude(Parsed(text)) == Decimal(Unsigned(text)) <==> Decimal(Unsigned(text)) < TWO_TO_32 * PowLimit(4)
    ensures Proper(Parsed(text)) && Magnitude(Parsed(text)) == Decimal(Unsigned(text))
      <==> Decimal(Unsigned(text)) < PowLimit(NUM_DIGITS)
  {
    hide Decimal, Low, Fields, Strip;
    StripDecimal(Unsigned(text));
    FieldsAreDecimal(Strip(Unsigned(text)));
  }

  method SkipZeros(s: string) returns (t: string)
    ensures t == Strip(s)
  {
    t := s;
    while t != [] && t[0] == '0'
      invariant Strip(t) == Strip(s)
    {
      t := t[1..];
    }
  }

  /** Any text without a NUL. */
  method FromCString(r: BigNum, text: string)
    requires r.digits.Length == NUM_DIGITS && '\0' !in text
    modifies r, r.digits
    ensures r.View() == Parsed(text)
  {
    hide Strip, Field;
    r.sign := 0;
    forall i | 0 <= i < NUM_DIGITS { r.digits[i] := 0; }
    var working := text;
    if working != [] && working[0] == '-' {
      r.sign := -1;
      working := working[1..];
    } else if working != [] && working[0] == '+' {
      working := working[1..];
    }
    working := SkipZeros(working);
    if |working| == 0 {
      NothingToRead(working);
      return;
    }
    ReadDigits(r, working);
  }

  lemma NothingToRead(w: string)
    ensures Field("") == 0
    ensures forall n :: 0 <= n < NUM_DIGITS && |w| <= 9 * n ==> Fields(w)[n] == 0
  {
    hide Decimal;
    AtolOfDigits("");
    AllZeros("");
    assert forall n :: 0 <= n < NUM_DIGITS && |w| <= 9 * n ==> Group(w, n) == "";
  }

  /** Nine characters at a time, from the end; what has been read is cut off. */
  method ReadDigits(r: BigNum, text: string)
    requires r.digits.Length == NUM_DIGITS && forall k :: 0 <= k < NUM_DIGITS ==> r.digits[k] == 0
    requires text != ""
    modifies r.digits
    ensures r.digits[..] == Fields(text)
  {
    hide Field;
    var working, curDigit := text, 0;
    while curDigit + 1 < NUM_DIGITS && 9 < |working|
      invariant curDigit < NUM_DIGITS && 0 < |working| == |text| - 9 * curDigit && working == text[..|working|]
      invariant forall k :: 0 <= k < NUM_DIGITS ==> r.digits[k] == if k < curDigit then Fields(text)[k] else 0
    {
      r.digits[curDigit] := Field(working[|working| - 9..]);
      assert working[|working| - 9..] == Group(text, curDigit);
      working := working[..|working| - 9];
      curDigit := curDigit + 1;
    }
    r.digits[curDigit] := Field(working);
    assert working == Group(text, curDigit);
    NothingToRead(text);
    assert forall k :: 0 <= k < NUM_DIGITS ==> r.digits[..][k] == Fields(text)[k];
  }

  // ---------- Round trip ----------

  /** Printed digits that say something. */
  function Significant(x: Num): nat
    requires |x.digits| == NUM_DIGITS
  {
    |Strip(Tmp(x.digits))|
  }

  /** What goes into the buffer stands for what is in the text buffer exactly if there is room for its
      significant digits, and for less otherwise. */
  lemma BodyOfTmp(d: seq<nat>, leadingZeros: bool, room: nat)
    requires |d| == NUM_DIGITS
    ensures Decimal(Body(d, leadingZeros, room)) <= Decimal(Tmp(d))
    ensures Decimal(Body(d, leadingZeros, room)) == Decimal(Tmp(d)) <==> |Strip(Tmp(d))| <= room
    ensures |Strip(Body(d, leadingZeros, room))| <= TMP_DIGITS
  {
    hide Decimal, Strip, Tmp;
    var s := Tmp(d);
    if leadingZeros {
      if TMP_DIGITS <= room { ZerosInFront(room - TMP_DIGITS, s); } else { CutInFront(s, TMP_DIGITS - room); }
    } else {
      StripDecimal(s);
      CutBehind(s, room);
    }
  }

  /** Asked for leading zeros, the text fills its room and keeps the lowest digits. */
  lemma PaddedShape(d: seq<nat>, room: nat)
    requires |d| == NUM_DIGITS
    ensures var s := Body(d, true, room);
      |s| == room && Decimal(s) == Decimal(Tmp(d)) % Pow10(room)
  {
    hide Decimal, Strip, Tmp, Pow10;
    var t := Tmp(d);
    if TMP_DIGITS <= room {
      ZerosInFront(room - TMP_DIGITS, t);
      ShortDecimal(t, room);
    } else {
      LowestDigits(t, room);
    }
  }

  lemma ShortDecimal(t: string, room: nat)
    requires AllDigits(t) && |t| <= room
    ensures Decimal(t) % Pow10(room) == Decimal(t)
  {
    hide Decimal, Pow10;
    DecimalBounded(t);
    Pow10Monotone(|t|, room);
    Remainder(0, Decimal(t), Pow10(room));
  }

  /** Otherwise it begins with its first digit that counts, or is a zero, and keeps the highest digits. */
  lemma StrippedShape(d: seq<nat>, room: nat)
    requires |d| == NUM_DIGITS
    ensures var s, n := Body(d, false, room), if Decimal(Tmp(d)) == 0 then 1 else |Strip(Tmp(d))|;
      && |s| == Min(n, room) && (s != "" ==> s[0] != '0' || Decimal(Tmp(d)) == 0)
      && Decimal(s) == Decimal(Tmp(d)) / Pow10(n - |s|)
  {
    hide Decimal, Strip, Tmp, Pow10;
    var t := Tmp(d);
    StripDecimal(t);
    AllZeros("");
    AllZeros("0");
    if Strip(t) != [] { SomeNonZero(Strip(t), 0); }
    var u := if Strip(t) == [] then "0" else Strip(t);
    HighestDigits(u, Min(|u|, room));
    assert u[..|u|] == u;
  }

  lemma LowestDigits(t: string, room: nat)
    requires AllDigits(t) && room <= |t|
    ensures AllDigits(t[|t| - room..]) && Decimal(t[|t| - room..]) == Decimal(t) % Pow10(room)
  {
    hide Decimal, Pow10;
    CutDecimal(t, |t| - room);
    Remainder(Decimal(t[..|t| - room]), Decimal(t[|t| - room..]), Pow10(room));
  }

  lemma HighestDigits(t: string, n: nat)
    requires AllDigits(t) && n <= |t|
    ensures AllDigits(t[..n]) && Decimal(t[..n]) == Decimal(t) / Pow10(|t| - n)
  {
    hide Decimal, Pow10;
    CutDecimal(t, n);
    Remainder(Decimal(t[..n]), Decimal(t[n..]), Pow10(|t| - n));
  }

  lemma CutDecimal(t: string, n: nat)
    requires AllDigits(t) && n <= |t|
    ensures Decimal(t) == Decimal(t[..n]) * Pow10(|t| - n) + Decimal(t[n..]) && Decimal(t[n..]) < Pow10(|t| - n)
  {
    hide Decimal, Pow10;
    assert t[..n] + t[n..] == t;
    DecimalConcat(t[..n], t[n..]);
    DecimalBounded(t[n..]);
  }

  lemma Remainder(q: nat, r: nat, p: nat)
    requires r < p
    ensures (q * p + r) / p == q && (q * p + r) % p == r
  {
    var x := q * p + r;
    assert x == p * (x / p) + x % p;
    if x / p < q { MulMonotonic(x / p + 1, q, p); }
    if q < x / p { MulMonotonic(q + 1, x / p, p); }
  }

  /** What is printed stands for the number exactly if all digits are below 10^9 and there is room for the
      significant ones. */
  lemma BodyDecimal(x: Num, leadingZeros: bool, room: nat)
    requires Words(x.digits)
    ensures Decimal(Body(x.digits, leadingZeros, room)) == Magnitude(x)
      <==> Canonical(x.digits) && Significant(x) <= room
  {
    hide Decimal, Strip, Body, Low, Printed;
    PrintedDecimal(x.digits, NUM_DIGITS);
    BodyOfTmp(x.digits, leadingZeros, room);
  }

  lemma StripHead(s: string)
    ensures Strip(s) != [] ==> s[|s| - |Strip(s)|] != '0'
  {
  }

  lemma ZerosInFront(n: nat, d: string)
    requires AllDigits(d)
    ensures AllDigits(seq(n, _ => '0') + d) && Decimal(seq(n, _ => '0') + d) == Decimal(d)
    ensures |Strip(seq(n, _ => '0') + d)| <= |d|
  {
    var z := seq(n, _ => '0') + d;
    ZerosCountNothing(z, n);
    assert z[n..] == d;
    StripHead(z);
    if |Strip(z)| > |d| { assert false; }
  }

  lemma CutInFront(d: string, n: nat)
    requires AllDigits(d) && n <= |d|
    ensures AllDigits(d[n..]) && Decimal(d[n..]) <= Decimal(d)
    ensures Decimal(d[n..]) == Decimal(d) <==> |Strip(d)| <= |d| - n
    ensures |Strip(d[n..])| <= |d|
  {
    hide Decimal, Strip;
    var m := |d| - |Strip(d)|;
    if n <= m {
      ZerosCountNothing(d, n);
    } else {
      assert d[m] == Strip(d)[0];
      DecimalConcat(d[..n], d[n..]);
      assert d[..n] + d[n..] == d;
      SomeNonZero(d[..n], m);
      MulMonotonic(1, Decimal(d[..n]), Pow10(|d| - n));
      DecimalBounded(d[n..]);
    }
  }

  lemma CutBehind(d: string, room: nat)
    requires AllDigits(d) && AllDigits(Strip(d)) && |d| <= TMP_DIGITS
    ensures var t := if Strip(d) == [] then "0" else Strip(d); var s := if |t| <= room then t else t[..room];
      && Decimal(s) <= Decimal(Strip(d)) && (Decimal(s) == Decimal(Strip(d)) <==> |Strip(d)| <= room)
      && |Strip(s)| <= TMP_DIGITS
  {
    hide Decimal, Strip;
    var t := Strip(d);
    if t == [] {
      AllZeros("0");
      AllZeros("");
      if room == 0 { assert "0"[..0] == ""; }
    } else if room < |t| {
      ShorterIsLess(t, room);
    }
  }

  lemma ShorterIsLess(t: string, room: nat)
    requires AllDigits(t) && room < |t| && t[0] != '0'
    ensures Decimal(t[..room]) < Decimal(t)
  {
    hide Decimal, Pow10;
    DecimalConcat(t[..room], t[room..]);
    assert t[..room] + t[room..] == t;
    SomeNonZero(t, 0);
    if room > 0 { SomeNonZero(t[..room], 0); } else { AllZeros(t[..0]); }
    Pow10Monotone(1, |t| - room);
    TenAtLeast(|t| - room);
    MulMonotonic(10, Pow10(|t| - room), Decimal(t[..room]));
  }

  lemma TenAtLeast(n: nat)
    requires n > 0
    ensures 10 <= Pow10(n)
  {
  }

  /** Parsing undoes printing exactly if all digits are below 10^9 and the buffer has room for the sign, the
      significant digits and the NUL, whatever the flags. */
  method PrintAndParse(v: BigNum, r: BigNum, leadingZeros: bool, leadingPlus: bool, buffer: array<char>)
    requires Formed(v.View()) && r.digits.Length == NUM_DIGITS && r != v && r.digits != v.digits
    requires |SignText(v.View(), leadingPlus)| < buffer.Length
    modifies r, r.digits, buffer
    ensures r.View() == v.View() <==>
      && Proper(v.View())
      && |SignText(v.View(), leadingPlus)| + Significant(v.View()) + 1 <= buffer.Length
  {
    hide Decimal, Low, Strip, Tmp, Body, CString, SignText, Unsigned, AllDigits, Parsed;
    ghost var x := v.View();
    ghost var sign := SignText(x, leadingPlus);
    ghost var room := buffer.Length - |sign| - 1;
    ToCString(v, leadingZeros, leadingPlus, buffer);
    BodyDecimal(x, leadingZeros, room);
    BodyOfTmp(x.digits, leadingZeros, room);
    SignedText(x, leadingPlus, Body(x.digits, leadingZeros, room));
    FromCString(r, CString(buffer[..]));
    if Proper(x) { SameNumber(x, r.View()); }
  }

  lemma SameNumber(x: Num, y: Num)
    requires Proper(x) && Proper(y)
    ensures x == y <==> Magnitude(x) == Magnitude(y) && x.sign == y.sign
  {
    if Magnitude(x) == Magnitude(y) {
      LowIsInjective(x.digits, y.digits, NUM_DIGITS);
      assert x.digits == y.digits;
    }
  }

  lemma SignIsRead(x: Num, leadingPlus: bool, body: string)
    requires AllDigits(body)
    ensures var text := SignText(x, leadingPlus) + body;
      Unsigned(text) == body && (text != [] && text[0] == '-' <==> x.sign < 0)
  {
    var sign := SignText(x, leadingPlus);
    if sign == "" {
      assert sign + body == body;
    } else {
      assert (sign + body)[0] == sign[0] && (sign + body)[1..] == body;
    }
  }

  lemma SignedText(x: Num, leadingPlus: bool, body: string)
    requires Formed(x) && AllDigits(body) && |Strip(body)| <= TMP_DIGITS
    ensures var text := SignText(x, leadingPlus) + body;
      Proper(Parsed(text)) && Magnitude(Parsed(text)) == Decimal(body) && Parsed(text).sign == x.sign
  {
    hide Decimal, Strip, Fields, Low, SignText, Unsigned, AllDigits, PowLimit, Pow10;
    SignIsRead(x, leadingPlus, body);
    StripDecimal(body);
    DecimalBounded(Strip(body));
    Pow10Monotone(|Strip(body)|, TMP_DIGITS);
    LimitsAreTens(NUM_DIGITS);
    ParsedExactly(SignText(x, leadingPlus) + body);
  }
}
