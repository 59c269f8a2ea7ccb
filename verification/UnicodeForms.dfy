/** UTF-8 after RFC 3629 and UTF-16 after RFC 2781, as encodings of sequences of scalar values. */
module UnicodeForms {
  import opened Bytes

  type Scalar = ch: int | 0 <= ch < 0xD800 || 0xE000 <= ch < 0x11_0000

  const REPLACEMENT: Scalar := 0xFFFD

  // ---------- One scalar value ----------

  /** The low six bits of a value, marked as a byte that continues a sequence. */
  function Continuation(v: nat): Byte {
    0x80 + v % 0x40
  }

  /** Section 3 of RFC 3629: six bits to each continuation byte, the others to the first. */
  function Utf8Of(ch: nat): (b: seq<Byte>)
    requires ch < 0x11_0000
    ensures |b| == Utf8Size(ch)
  {
    var q1 := ch / 0x40;
    var q2 := q1 / 0x40;
    var q3 := q2 / 0x40;
    if ch < 0x80 then [ch]
    else if ch < 0x800 then [0xC0 + q1, Continuation(ch)]
    else if ch < 0x1_0000 then [0xE0 + q2, Continuation(q1), Continuation(ch)]
    else [0xF0 + q3, Continuation(q2), Continuation(q1), Continuation(ch)]
  }

  function Utf8Size(ch: nat): (k: nat)
    requires ch < 0x11_0000
    ensures 1 <= k <= 4
  {
    if ch < 0x80 then 1 else if ch < 0x800 then 2 else if ch < 0x1_0000 then 3 else 4
  }

  /** Section 2.1 of RFC 2781. */
  function Utf16Of(ch: Scalar): (u: seq<UInt16>)
    ensures 1 <= |u| <= 2
  {
    if ch < 0x1_0000 then [HighUnit(ch)] else [HighUnit(ch), LowUnit(ch)]
  }

  /** The only unit, or the first of two. */
  function HighUnit(ch: Scalar): UInt16 {
    if ch < 0x1_0000 then ch else 0xD800 + (ch - 0x1_0000) / 0x400
  }

  function LowUnit(ch: int): UInt16 {
    0xDC00 + (ch - 0x1_0000) % 0x400
  }

  predicate Tail(b: Byte) {
    0x80 <= b <= 0xBF
  }

  /** The byte sequences of section 4 of RFC 3629. */
  predicate WellFormed(b: seq<Byte>) {
    match |b|
    case 1 => b[0] <= 0x7F
    case 2 => 0xC2 <= b[0] <= 0xDF && Tail(b[1])
    case 3 =>
      && Tail(b[2])
      && ((b[0] == 0xE0 && 0xA0 <= b[1] <= 0xBF) || (0xE1 <= b[0] <= 0xEC && Tail(b[1])) ||
          (b[0] == 0xED && 0x80 <= b[1] <= 0x9F) || (0xEE <= b[0] <= 0xEF && Tail(b[1])))
    case 4 =>
      && Tail(b[2]) && Tail(b[3])
      && ((b[0] == 0xF0 && 0x90 <= b[1] <= 0xBF) || (0xF1 <= b[0] <= 0xF3 && Tail(b[1])) ||
          (b[0] == 0xF4 && 0x80 <= b[1] <= 0x8F))
    case _ => false
  }

  /** The bits that a sequence carries. */
  function ScalarOf(b: seq<Byte>): Scalar
    requires WellFormed(b)
  {
    if |b| == 1 then b[0]
    else
      var b0: int, b1: int := b[0], b[1] - 0x80;
      if |b| == 2 then (b0 - 0xC0) * 0x40 + b1
      else
        var b2: int := b[2] - 0x80;
        if |b| == 3 then ((b0 - 0xE0) * 0x40 + b1) * 0x40 + b2
        else
          var b3: int := b[3] - 0x80;
          (((b0 - 0xF0) * 0x40 + b1) * 0x40 + b2) * 0x40 + b3
  }

  lemma SixBits(v: nat)
    ensures v == v / 0x40 * 0x40 + v % 0x40
  {
  }

  /** The well-formed sequences are the encodings of scalar values, each of one. */
  lemma EncodingIsWellFormed(ch: Scalar)
    ensures WellFormed(Utf8Of(ch)) && ScalarOf(Utf8Of(ch)) == ch
  {
    SixBits(ch);
    SixBits(ch / 0x40);
    SixBits(ch / 0x40 / 0x40);
  }

  lemma WellFormedIsEncoding(b: seq<Byte>)
    requires WellFormed(b)
    ensures Utf8Of(ScalarOf(b)) == b
  {
    var b0: int := b[0];
    if |b| == 2 {
      Divides(b0 - 0xC0, b[1]);
    } else if |b| == 3 {
      Divides(b0 - 0xE0, b[1]);
      Divides((b0 - 0xE0) * 0x40 + (b[1] as int - 0x80), b[2]);
    } else if |b| == 4 {
      Divides(b0 - 0xF0, b[1]);
      Divides((b0 - 0xF0) * 0x40 + (b[1] as int - 0x80), b[2]);
      Divides(((b0 - 0xF0) * 0x40 + (b[1] as int - 0x80)) * 0x40 + (b[2] as int - 0x80), b[3]);
    }
  }

  lemma Divides(q: int, tail: Byte)
    requires Tail(tail) && 0 <= q
    ensures (q * 0x40 + (tail as int - 0x80)) / 0x40 == q && Continuation(q * 0x40 + (tail as int - 0x80)) == tail
  {
  }

  // ---------- Texts ----------

  function Utf8(text: seq<Scalar>): seq<Byte> {
    if text == [] then [] else Utf8Of(text[0]) + Utf8(text[1..])
  }

  function Utf16(text: seq<Scalar>): seq<UInt16> {
    if text == [] then [] else Utf16Of(text[0]) + Utf16(text[1..])
  }

  predicate IsHigh(u: UInt16) {
    0xD800 <= u <= 0xDBFF
  }

  predicate IsLow(u: UInt16) {
    0xDC00 <= u <= 0xDFFF
  }

  /** How many units make up the first character; none if that is a lone surrogate. */
  function CharLen(u: seq<UInt16>): (k: nat)
    ensures k <= |u| && k <= 2
  {
    if u == [] then 0
    else if IsHigh(u[0]) then (if 1 < |u| && IsLow(u[1]) then 2 else 0)
    else if IsLow(u[0]) then 0
    else 1
  }

  function FirstChar(u: seq<UInt16>): Scalar
    requires CharLen(u) > 0
  {
    if CharLen(u) == 1 then u[0] else (u[0] as int - 0xD800) * 0x400 + (u[1] as int - 0xDC00) + 0x1_0000
  }

  lemma FirstCharIs(u: seq<UInt16>)
    requires CharLen(u) > 0
    ensures Utf16Of(FirstChar(u)) == u[..CharLen(u)]
  {
  }

  lemma CharOf(ch: Scalar, rest: seq<UInt16>)
    ensures CharLen(Utf16Of(ch) + rest) == |Utf16Of(ch)| && FirstChar(Utf16Of(ch) + rest) == ch
  {
  }

  /** Without lone surrogates. */
  predicate WellFormed16(u: seq<UInt16>) {
    u == [] || (CharLen(u) > 0 && WellFormed16(u[CharLen(u)..]))
  }

  function Text16(u: seq<UInt16>): seq<Scalar>
    requires WellFormed16(u)
  {
    if u == [] then [] else [FirstChar(u)] + Text16(u[CharLen(u)..])
  }

  /** The well-formed unit strings are the encodings of texts, each of one. */
  lemma {:induction false} UnitsReturn(u: seq<UInt16>)
    requires WellFormed16(u)
    ensures Utf16(Text16(u)) == u
  {
    if u != [] {
      UnitsReturn(u[CharLen(u)..]);
      FirstCharIs(u);
    }
  }

  lemma {:induction false} TextReturns(text: seq<Scalar>)
    ensures WellFormed16(Utf16(text)) && Text16(Utf16(text)) == text
  {
    if text != [] {
      var u := Utf16Of(text[0]) + Utf16(text[1..]);
      TextReturns(text[1..]);
      CharOf(text[0], Utf16(text[1..]));
      assert u[CharLen(u)..] == Utf16(text[1..]);
    }
  }

  // ---------- Byte strings with segments ----------

  /** What the decoder takes in one step: a well-formed sequence, or the byte 0xA9 on its own. */
  predicate Segment(s: seq<Byte>) {
    WellFormed(s) || s == [0xA9]
  }

  function SegmentChar(s: seq<Byte>): Scalar
    requires Segment(s)
  {
    if s == [0xA9] then REPLACEMENT else ScalarOf(s)
  }

  /** Segments, one after the other. */
  ghost predicate Segmented(b: seq<Byte>) {
    b == [] || exists k :: 0 < k <= |b| && Segment(b[..k]) && Segmented(b[k..])
  }

  /** How long a sequence its first byte announces. */
  function Announced(b: Byte): nat {
    if b < 0xC0 then 1 else if b < 0xE0 then 2 else if b < 0xF0 then 3 else 4
  }

  lemma SegmentLength(s: seq<Byte>)
    requires Segment(s)
    ensures 0 < |s| == Announced(s[0])
  {
  }

  /** The length of the segment a string starts with, if any. */
  function SegLen(b: seq<Byte>): (k: nat)
    ensures k <= |b| && (k > 0 ==> Segment(b[..k]))
  {
    if b == [] || |b| < Announced(b[0]) || !Segment(b[..Announced(b[0])]) then 0 else Announced(b[0])
  }

  lemma SegLenIs(b: seq<Byte>, k: nat)
    requires 0 < k <= |b| && Segment(b[..k])
    ensures SegLen(b) == k
  {
    SegmentLength(b[..k]);
  }

  /** The characters of a segmented string; 0xA9 stands for the replacement character. */
  function Text8(b: seq<Byte>): seq<Scalar>
    requires Segmented(b)
  {
    if b == [] then [] else
      Resegment(b);
      [SegmentChar(b[..SegLen(b)])] + Text8(b[SegLen(b)..])
  }

  lemma Resegment(b: seq<Byte>)
    requires b != []
    ensures Segmented(b) <==> SegLen(b) > 0 && Segmented(b[SegLen(b)..])
  {
    if Segmented(b) {
      var k :| 0 < k <= |b| && Segment(b[..k]) && Segmented(b[k..]);
      SegLenIs(b, k);
    }
  }

  /** Well-formed text only, which is what RFC 3629 allows. */
  predicate WellFormed8(b: seq<Byte>) {
    b == [] || (SegLen(b) > 0 && WellFormed(b[..SegLen(b)]) && WellFormed8(b[SegLen(b)..]))
  }

  lemma {:induction false} WellFormedIsSegmented(b: seq<Byte>)
    requires WellFormed8(b)
    ensures Segmented(b)
  {
    if b != [] {
      WellFormedIsSegmented(b[SegLen(b)..]);
      Resegment(b);
    }
  }

  /** The encoding of a text is well-formed and decodes to it. */
  lemma {:induction false} EncodedText(text: seq<Scalar>)
    ensures WellFormed8(Utf8(text)) && Segmented(Utf8(text)) && Text8(Utf8(text)) == text
  {
    var b := Utf8(text);
    if text != [] {
      var s, rest := Utf8Of(text[0]), Utf8(text[1..]);
      EncodedText(text[1..]);
      EncodingIsWellFormed(text[0]);
      assert b[..|s|] == s && b[|s|..] == rest;
      SegLenIs(b, |s|);
      Resegment(b);
    }
  }

  /** Well-formed bytes are the encoding of what they decode to. */
  lemma {:induction false} BytesReturn(b: seq<Byte>)
    requires WellFormed8(b)
    ensures Segmented(b) && Utf8(Text8(b)) == b
  {
    WellFormedIsSegmented(b);
    if b != [] {
      Resegment(b);
      BytesReturn(b[SegLen(b)..]);
      WellFormedIsEncoding(b[..SegLen(b)]);
    }
  }

  // ---------- What the standards and the converter fix in numbers ----------

  /** The examples in section 7 of RFC 3629 and section 5 of RFC 2781, and the ends of the ranges. */
  lemma StandardExamples()
    ensures Utf8Of(0x41) == [0x41] && Utf8Of(0x391) == [0xCE, 0x91] && Utf8Of(0x2262) == [0xE2, 0x89, 0xA2]
    ensures Utf8Of(0x233B4) == [0xF0, 0xA3, 0x8E, 0xB4]
    ensures Utf8Of(0x7FF) == [0xDF, 0xBF] && Utf8Of(0xFFFF) == [0xEF, 0xBF, 0xBF]
    ensures Utf8Of(0x10_FFFF) == [0xF4, 0x8F, 0xBF, 0xBF]
    ensures Utf16Of(0x12345) == [0xD808, 0xDF45] && Utf16Of(0xFFFF) == [0xFFFF]
    ensures Utf16Of(0x1_0000) == [0xD800, 0xDC00] && Utf16Of(0x10_FFFF) == [0xDBFF, 0xDFFF]
  {
  }

  /** Segments of two strings are those of the strings one after the other. */
  lemma {:induction false} SegmentsConcat(a: seq<Byte>, b: seq<Byte>)
    requires Segmented(a) && Segmented(b)
    ensures Segmented(a + b) && Text8(a + b) == Text8(a) + Text8(b)
  {
    hide Segment, WellFormed, SegmentChar, SegLen, Segmented;
    NoSegments();
    if a == [] {
      assert a + b == b;
    } else {
      Resegment(a);
      var k := SegLen(a);
      assert (a + b)[..k] == a[..k] && (a + b)[k..] == a[k..] + b;
      SegLenIs(a + b, k);
      SegmentsConcat(a[k..], b);
      Resegment(a + b);
    }
  }

  lemma NoSegments()
    ensures Segmented([]) && Text8([]) == []
  {
  }

  lemma {:induction false} Utf16Concat(x: seq<Scalar>, y: seq<Scalar>)
    ensures Utf16(x + y) == Utf16(x) + Utf16(y)
  {
    if x == [] {
      assert x + y == y;
    } else {
      assert (x + y)[1..] == x[1..] + y;
      Utf16Concat(x[1..], y);
    }
  }

  /** A lone byte 0xA9 stands for the unit 0xFFFD, wherever it is; no other lone byte from 0x80 up stands for
      anything. */
  lemma LoneByte(a: seq<Byte>, b: seq<Byte>)
    requires Segmented(a) && Segmented(b)
    ensures Segmented(a + [0xA9] + b)
    ensures Utf16(Text8(a + [0xA9] + b)) == Utf16(Text8(a)) + [0xFFFD] + Utf16(Text8(b))
  {
    hide Segmented, Text8, Utf16;
    LoneByteAlone();
    SegmentsConcat(a, [0xA9]);
    SegmentsConcat(a + [0xA9], b);
    Utf16Concat(Text8(a), Text8([0xA9]));
    Utf16Concat(Text8(a + [0xA9]), Text8(b));
  }

  lemma LoneByteAlone()
    ensures Segmented([0xA9]) && Utf16(Text8([0xA9])) == [0xFFFD]
  {
    SegLenIs([0xA9], 1);
    NoSegments();
    assert [0xA9][1..] == [];
    Resegment([0xA9]);
  }

  lemma OtherLoneBytes(x: Byte, rest: seq<Byte>)
    requires 0x80 <= x < 0xC0 && x != 0xA9
    ensures SegLen([x] + rest) == 0
  {
  }
}
