/** The converter between UTF-16 strings and UTF-8 bytes, in its strict form without decomposition. */
module Utf8Converter {
  import opened Bytes
  import opened UnicodeForms

  // ---------- Encoding into limited room ----------

  /** Room for bytes. Without a limit bytes are only counted. */
  datatype Room = Unlimited | Limited(bytes: nat) {
    /** A byte of ASCII needs one byte of room. Any other character is offered the room left as a 32-bit
        number. */
    predicate Fits(ch: Scalar) {
      Unlimited? || (if ch < 0x80 then 0 < bytes else Utf8Size(ch) <= bytes % TWO_TO_32)
    }

    predicate Holds(n: nat) {
      Unlimited? || n <= bytes
    }

    function Less(n: nat): Room
      requires Holds(n)
    {
      if Unlimited? then this else Limited(bytes - n)
    }
  }

  lemma FitsHolds(room: Room, ch: Scalar)
    ensures room.Fits(ch) ==> room.Holds(Utf8Size(ch))
    ensures room.Limited? && room.bytes < TWO_TO_32 ==> (room.Fits(ch) <==> room.Holds(Utf8Size(ch)))
  {
  }

  /** How many units of a string are encoded: those of whole characters, until one does not fit or is a lone
      surrogate. */
  function EncodedUnits(u: seq<UInt16>, room: Room): (n: nat)
    ensures n <= |u|
  {
    if CharLen(u) == 0 || !room.Fits(FirstChar(u)) then 0
    else CharLen(u) + EncodedUnits(u[CharLen(u)..], room.Less(Utf8Size(FirstChar(u))))
  }

  function EncodedBytes(u: seq<UInt16>, room: Room): (b: seq<Byte>)
    ensures room.Holds(|b|)
  {
    if CharLen(u) == 0 || !room.Fits(FirstChar(u)) then []
    else Utf8Of(FirstChar(u)) + EncodedBytes(u[CharLen(u)..], room.Less(Utf8Size(FirstChar(u))))
  }

  lemma EncodingStep(u: seq<UInt16>, room: Room)
    requires 0 < CharLen(u) && room.Fits(FirstChar(u))
    ensures room.Holds(Utf8Size(FirstChar(u)))
    ensures var rest, left := u[CharLen(u)..], room.Less(Utf8Size(FirstChar(u)));
      && EncodedUnits(u, room) == CharLen(u) + EncodedUnits(rest, left)
      && EncodedBytes(u, room) == Utf8Of(FirstChar(u)) + EncodedBytes(rest, left)
  {
  }

  lemma NothingEncoded(u: seq<UInt16>, room: Room)
    ensures EncodedUnits(u, room) == 0 <==> CharLen(u) == 0 || !room.Fits(FirstChar(u))
    ensures EncodedUnits(u, room) == 0 ==> EncodedBytes(u, room) == []
  {
  }

  lemma TextStep(u: seq<UInt16>)
    requires 0 < CharLen(u)
    ensures WellFormed16(u) <==> WellFormed16(u[CharLen(u)..])
    ensures WellFormed16(u) ==> Utf8(Text16(u)) == Utf8Of(FirstChar(u)) + Utf8(Text16(u[CharLen(u)..]))
  {
  }

  /** A prefix of a string begins with the same character, unless it splits it. */
  lemma FirstOfPrefix(u: seq<UInt16>, m: nat)
    requires m <= |u|
    ensures 0 < CharLen(u) <= m ==> CharLen(u[..m]) == CharLen(u) && FirstChar(u[..m]) == FirstChar(u)
                                    && u[..m][CharLen(u)..] == u[CharLen(u)..][..m - CharLen(u)]
    ensures m < CharLen(u) || CharLen(u) == 0 ==> CharLen(u[..m]) == 0
  {
  }

  /** With any limit, whole characters are encoded, and the bytes are those of the units consumed. */
  lemma {:induction false} EncodedIsPrefix(u: seq<UInt16>, room: Room)
    ensures WellFormed16(u[..EncodedUnits(u, room)])
    ensures EncodedBytes(u, room) == Utf8(Text16(u[..EncodedUnits(u, room)]))
  {
    var k, n := CharLen(u), EncodedUnits(u, room);
    if 0 < n {
      hide EncodedUnits, EncodedBytes, WellFormed16, Text16, Utf8;
      NothingEncoded(u, room);
      EncodingStep(u, room);
      FirstOfPrefix(u, n);
      TextStep(u[..n]);
      EncodedIsPrefix(u[k..], room.Less(Utf8Size(FirstChar(u))));
    }
  }

  /** Without a limit, or below 2^32, no longer prefix of whole characters would have fitted. */
  lemma {:induction false} EncodedIsLongest(u: seq<UInt16>, room: Room, m: nat)
    requires room.Limited? ==> room.bytes < TWO_TO_32
    requires m <= |u| && WellFormed16(u[..m]) && room.Holds(|Utf8(Text16(u[..m]))|)
    ensures m <= EncodedUnits(u, room)
  {
    if m > 0 {
      hide EncodedUnits, EncodedBytes, WellFormed16, Text16, Utf8, CharLen, FirstChar;
      FirstOfPrefix(u, m);
      StartsWell(u[..m]);
      TextStep(u[..m]);
      FitsHolds(room, FirstChar(u));
      EncodingStep(u, room);
      EncodedIsLongest(u[CharLen(u)..], room.Less(Utf8Size(FirstChar(u))), m - CharLen(u));
    }
  }

  lemma StartsWell(u: seq<UInt16>)
    requires WellFormed16(u) && u != []
    ensures 0 < CharLen(u)
  {
  }

  lemma {:induction false} ThreeBytesEach(u: seq<UInt16>)
    requires WellFormed16(u)
    ensures |Utf8(Text16(u))| <= 3 * |u|
  {
    if u != [] { ThreeBytesEach(u[CharLen(u)..]); }
  }

  /** Three bytes for each unit are always enough, unless the limit is 2^32 or more. */
  lemma EnoughRoom(u: seq<UInt16>, room: Room)
    requires WellFormed16(u) && room.Holds(3 * |u|) && (room.Limited? ==> room.bytes < TWO_TO_32)
    ensures EncodedUnits(u, room) == |u| && EncodedBytes(u, room) == Utf8(Text16(u))
  {
    hide *;
    assert u[..|u|] == u;
    ThreeBytesEach(u);
    Roomier(room, |Utf8(Text16(u))|, 3 * |u|);
    EncodedIsLongest(u, room, |u|);
    EncodedIsPrefix(u, room);
  }

  lemma Roomier(room: Room, m: nat, n: nat)
    requires m <= n && room.Holds(n)
    ensures room.Holds(m)
  {
  }

  // ---------- Limits of 2^32 and more ----------

  /** A string that leaves exactly a multiple of 2^32 bytes for a character that needs two. */
  function Filler(r: nat): seq<UInt16> {
    if r >= 3 then [0x800] + Filler(r - 3) else if r > 0 then [0x41] + Filler(r - 1) else [0xE9]
  }

  lemma {:induction false} FillerStops(base: nat, r: nat)
    requires base % TWO_TO_32 == 0 && r < TWO_TO_32
    ensures var u := Filler(r);
      && EncodedUnits(u, Limited(base + r)) == |u| - 1
      && WellFormed16(u) && |Utf8(Text16(u))| == r + 2 && |u| == r / 3 + r % 3 + 1
  {
    hide *;
    var u, room := Filler(r), Limited(base + r);
    FillerFits(base, r);
    NothingEncoded(u, room);
    TextStep(u);
    if r > 0 {
      var size := if r >= 3 then 3 else 1;
      EncodingStep(u, room);
      FillerStops(base, r - size);
    } else {
      NoText(u[1..]);
    }
  }

  lemma FillerFits(base: nat, r: nat)
    requires base % TWO_TO_32 == 0 && r < TWO_TO_32
    ensures var u, room := Filler(r), Limited(base + r);
      && u != [] && CharLen(u) == 1 && |Utf8Of(FirstChar(u))| == Utf8Size(FirstChar(u))
      && (r == 0 ==> |u| == 1 && !room.Fits(FirstChar(u)) && Utf8Size(FirstChar(u)) == 2)
      && (r > 0 ==> var size := if r >= 3 then 3 else 1;
            && room.Fits(FirstChar(u)) && Utf8Size(FirstChar(u)) == size && u[1..] == Filler(r - size)
            && room.Less(size) == Limited(base + (r - size)))
  {
    assert (base + r) % TWO_TO_32 == r;
  }

  lemma NoText(u: seq<UInt16>)
    requires u == []
    ensures WellFormed16(u) && Utf8(Text16(u)) == []
  {
  }

  /** A buffer of 2^32 bytes takes nothing of a string of one character. */
  lemma NothingFitsIn32Bits()
    ensures EncodedUnits([0xE9], Limited(TWO_TO_32)) == 0
    ensures WellFormed16([0xE9]) && |Utf8(Text16([0xE9]))| == 2
  {
    FillerStops(TWO_TO_32, 0);
  }

  /** The encoder stops as late as it can. */
  ghost predicate StopsAtLongest(u: seq<UInt16>, limit: nat, m: nat) {
    m <= |u| && WellFormed16(u[..m]) && |Utf8(Text16(u[..m]))| <= limit ==> m <= EncodedUnits(u, Limited(limit))
  }

  /** It does for every string exactly if the limit is below 2^32. */
  lemma LongestExactly(limit: nat)
    ensures (forall u, m: nat :: StopsAtLongest(u, limit, m)) <==> limit < TWO_TO_32
  {
    hide EncodedUnits, WellFormed16, Text16, Utf8;
    if limit < TWO_TO_32 {
      forall u, m: nat ensures StopsAtLongest(u, limit, m) {
        if m <= |u| && WellFormed16(u[..m]) && |Utf8(Text16(u[..m]))| <= limit {
          EncodedIsLongest(u, Limited(limit), m);
        }
      }
    } else {
      var u := WitnessFor(limit);
      assert u[..|u|] == u;
      assert !StopsAtLongest(u, limit, |u|);
    }
  }

  /** The encoder consumes a string whose characters all fit. */
  ghost predicate EncodedWhole(u: seq<UInt16>, limit: nat) {
    WellFormed16(u) && 3 * |u| <= limit ==> EncodedUnits(u, Limited(limit)) == |u|
  }

  /** Three bytes for each unit are enough for every string exactly if the limit is below 2^32. */
  lemma EnoughExactly(limit: nat)
    ensures (forall u :: EncodedWhole(u, limit)) <==> limit < TWO_TO_32
  {
    hide EncodedUnits, WellFormed16, Text16, Utf8;
    if limit < TWO_TO_32 {
      forall u ensures EncodedWhole(u, limit) {
        if WellFormed16(u) && 3 * |u| <= limit { EnoughRoom(u, Limited(limit)); }
      }
    } else {
      var u := WitnessFor(limit);
      assert !EncodedWhole(u, limit);
    }
  }

  lemma WitnessFor(limit: nat) returns (u: seq<UInt16>)
    requires TWO_TO_32 <= limit
    ensures EncodedUnits(u, Limited(limit)) < |u|
    ensures WellFormed16(u) && |Utf8(Text16(u))| <= limit && 3 * |u| <= limit
  {
    hide EncodedUnits, WellFormed16, Text16, Utf8;
    var r := limit % TWO_TO_32;
    FillerStops(limit - r, r);
    u := Filler(r);
  }

  // ---------- Restarting ----------

  /** What repeated calls give, each with a limit of its own and starting where the last one stopped. */
  function Restarted(u: seq<UInt16>, limits: nat -> nat, call: nat): seq<Byte>
    decreases |u|
  {
    var n := EncodedUnits(u, Limited(limits(call)));
    if n == 0 then [] else EncodedBytes(u, Limited(limits(call))) + Restarted(u[n..], limits, call + 1)
  }

  lemma {:induction false} RestSplits(u: seq<UInt16>, room: Room)
    requires WellFormed16(u)
    ensures var n := EncodedUnits(u, room);
      WellFormed16(u[n..]) && Utf8(Text16(u)) == EncodedBytes(u, room) + Utf8(Text16(u[n..]))
  {
    hide *;
    var n, k := EncodedUnits(u, room), CharLen(u);
    NothingEncoded(u, room);
    if n == 0 {
      assert u[n..] == u;
    } else {
      EncodingStep(u, room);
      var left := room.Less(Utf8Size(FirstChar(u)));
      TextStep(u);
      RestSplits(u[k..], left);
      assert u[k..][n - k..] == u[n..];
      Associate(Utf8Of(FirstChar(u)), EncodedBytes(u[k..], left), Utf8(Text16(u[n..])));
    }
  }

  lemma DropDrop<T>(s: seq<T>, m: nat, n: nat)
    requires m + n <= |s|
    ensures s[m..][n..] == s[m + n..]
  {
  }

  lemma Associate(a: seq<Byte>, b: seq<Byte>, c: seq<Byte>)
    ensures a + (b + c) == a + b + c
  {
  }

  /** Any character fits. */
  predicate TakesAny(limit: nat) {
    4 <= limit % TWO_TO_32
  }

  lemma TakesFirst(u: seq<UInt16>, limit: nat)
    requires WellFormed16(u) && u != [] && TakesAny(limit)
    ensures 0 < EncodedUnits(u, Limited(limit))
  {
  }

  /** When every call takes any character, a well-formed string is encoded whole. Limits of 4 up to 2^32 - 1
      do. */
  lemma {:induction false} RestartingEncodesAll(u: seq<UInt16>, limits: nat -> nat, call: nat)
    requires WellFormed16(u) && forall i :: TakesAny(limits(i))
    ensures Restarted(u, limits, call) == Utf8(Text16(u))
    decreases |u|
  {
    hide EncodedUnits, EncodedBytes, WellFormed16, Text16, Utf8;
    var n := EncodedUnits(u, Limited(limits(call)));
    RestSplits(u, Limited(limits(call)));
    if u != [] {
      assert TakesAny(limits(call));
      TakesFirst(u, limits(call));
      RestartingEncodesAll(u[n..], limits, call + 1);
    } else {
      NoText(u);
    }
  }

  ghost predicate RestartsWhole(u: seq<UInt16>, limit: nat) {
    WellFormed16(u) ==> Restarted(u, _ => limit, 0) == Utf8(Text16(u))
  }

  /** Chunks of one size do for every string exactly if any character fits. */
  lemma RestartingExactly(limit: nat)
    ensures (forall u :: RestartsWhole(u, limit)) <==> TakesAny(limit)
  {
    if TakesAny(limit) {
      forall u ensures RestartsWhole(u, limit) {
        if WellFormed16(u) { RestartingEncodesAll(u, _ => limit, 0); }
      }
    } else {
      var u := [0xD800, 0xDC00];
      assert u[2..] == [];
      assert !RestartsWhole(u, limit);
    }
  }

  // ---------- Encoding ----------

  function BytesToWriteForCharacter(ch: UInt32): (n: nat)
    ensures ch < 0x11_0000 ==> n == Utf8Size(ch)
  {
    if ch < 0x80 then 1
    else if ch < 0x800 then 2
    else if ch < 0x1_0000 then 3
    else if ch < 0x20_0000 then 4
    else if ch < 0x400_0000 then 5
    else if ch <= 0x7FFF_FFFF then 6
    else 0
  }

  function FirstByteMark(n: nat): Byte {
    if n <= 1 then 0 else if n == 2 then 0xC0 else if n == 3 then 0xE0 else 0xF0
  }

  /** The bytes of a character as they are met from the last to the first. */
  lemma BytesOf(ch: nat)
    requires ch < 0x11_0000
    ensures var n, e, q1 := Utf8Size(ch), Utf8Of(ch), ch / 0x40;
      && 1 <= n <= 4
      && (n == 1 ==> e[0] == ch + FirstByteMark(n))
      && (n == 2 ==> e[1] == Continuation(ch) && e[0] == q1 + FirstByteMark(n))
      && (n == 3 ==> e[2] == Continuation(ch) && e[1] == Continuation(q1) && e[0] == q1 / 0x40 + FirstByteMark(n))
      && (n == 4 ==> e[3] == Continuation(ch) && e[2] == Continuation(q1) && e[1] == Continuation(q1 / 0x40)
                     && e[0] == q1 / 0x40 / 0x40 + FirstByteMark(n))
  {
  }

  /** Writes a character from the last byte to the first, or nothing if it does not fit. */
  method ToUTF8Core(ch: UInt32, bytes: array<Byte>, at: nat, maxByteLen: nat) returns (written: nat)
    requires ch < 0x11_0000 && at + maxByteLen <= bytes.Length
    modifies bytes
    ensures written == if maxByteLen < Utf8Size(ch) then 0 else Utf8Size(ch)
    ensures written > 0 ==> bytes[..at + written] == old(bytes[..at]) + Utf8Of(ch)
    ensures bytes[at + written..] == old(bytes[at + written..])
    ensures written == 0 ==> bytes[..at] == old(bytes[..at])
  {
    hide Utf8Of, Continuation;
    written := BytesToWriteForCharacter(ch);
    if maxByteLen < written { return 0; }
    BytesOf(ch);
    var rest: nat := ch;
    if written >= 4 { bytes[at + 3] := Continuation(rest); rest := rest / 0x40; }
    if written >= 3 { bytes[at + 2] := Continuation(rest); rest := rest / 0x40; }
    if written >= 2 { bytes[at + 1] := Continuation(rest); rest := rest / 0x40; }
    bytes[at] := rest + FirstByteMark(written);
    assert bytes[at..at + written] == Utf8Of(ch);
    assert bytes[..at + written] == bytes[..at] + bytes[at..at + written] && bytes[..at] == old(bytes[..at]);
  }

  /** The character at a place and its number of units; 0 units for a lone surrogate. */
  method NextCharacter(characters: seq<UInt16>, at: nat) returns (ch: UInt32, units: nat)
    requires at < |characters|
    ensures units == CharLen(characters[at..]) && (units > 0 ==> ch == FirstChar(characters[at..]))
  {
    ch, units := characters[at], 1;
    if ch >= 0xD800 {
      if ch <= 0xDBFF {
        if at + 1 < |characters| && IsLow(characters[at + 1]) {
          ch := (ch - 0xD800) * 0x400 + (characters[at + 1] - 0xDC00) + 0x1_0000;
          units := 2;
        } else {
          units := 0;
        }
      } else if ch <= 0xDFFF {
        units := 0;
      }
    }
  }

  /** What lies beyond all that has been written is as it was. */
  lemma TailStays<T>(now: seq<T>, before: seq<T>, was: seq<T>, used: nat, more: nat)
    requires used + more <= |now| == |before| == |was|
    requires before[used..] == was[used..] && now[used + more..] == before[used + more..]
    ensures now[used + more..] == was[used + more..]
  {
    DropDrop(before, used, more);
    DropDrop(was, used, more);
  }

  /** Encodes as much as fits; with a limit of 0 it only counts, and there is no limit. */
  method ToUTF8(characters: seq<UInt16>, bytes: array<Byte>, maxByteLen: nat) returns (consumed: nat, used: nat)
    requires maxByteLen <= bytes.Length
    modifies bytes
    ensures var room := if maxByteLen == 0 then Unlimited else Limited(maxByteLen);
      consumed == EncodedUnits(characters, room) && used == |EncodedBytes(characters, room)|
      && (if maxByteLen == 0 then bytes[..] == old(bytes[..])
          else bytes[..used] == EncodedBytes(characters, room) && bytes[used..] == old(bytes[used..]))
  {
    hide *;
    ghost var left := if maxByteLen == 0 then Unlimited else Limited(maxByteLen);
    ghost var room, out, was := left, [], bytes[..];
    consumed, used := 0, 0;
    assert characters[0..] == characters;
    while consumed < |characters| && (maxByteLen == 0 || used < maxByteLen)
      invariant consumed <= |characters| && used == |out|
      invariant maxByteLen == 0 ==> left == Unlimited && bytes[..] == old(bytes[..])
      invariant maxByteLen != 0 ==> used <= maxByteLen && left == Limited(maxByteLen - used)
      invariant maxByteLen != 0 ==> bytes[..used] == out && bytes[used..] == old(bytes[used..])
      invariant EncodedUnits(characters, room) == consumed + EncodedUnits(characters[consumed..], left)
      invariant EncodedBytes(characters, room) == out + EncodedBytes(characters[consumed..], left)
    {
      ghost var rest, before := characters[consumed..], bytes[..];
      NothingEncoded(rest, left);
      var ch, units := NextCharacter(characters, consumed);
      if units == 0 { break; }
      FittingIs(left, ch);
      var written := BytesToWriteForCharacter(ch);
      if maxByteLen != 0 {
        var offered := if ch < 0x80 then maxByteLen - used else (maxByteLen - used) % 0x1_0000_0000;
        written := ToUTF8Core(ch, bytes, used, offered);
      }
      if written == 0 { break; }
      if maxByteLen != 0 { TailStays(bytes[..], before, was, used, written); }
      EncodingStep(rest, left);
      DropDrop(characters, consumed, units);
      left := left.Less(written);
      Associate(out, Utf8Of(ch), EncodedBytes(rest[units..], left));
      out := out + Utf8Of(ch);
      consumed, used := consumed + units, used + written;
    }
    NothingLeft(characters[consumed..], left);
  }

  lemma FittingIs(room: Room, ch: Scalar)
    ensures room.Unlimited? ==> room.Fits(ch) && room.Holds(Utf8Size(ch)) && room.Less(Utf8Size(ch)) == room
    ensures room.Limited? ==>
      && (room.Fits(ch) <==> Utf8Size(ch) <= if ch < 0x80 then room.bytes else room.bytes % 0x1_0000_0000)
      && (room.Fits(ch) ==>
            room.Holds(Utf8Size(ch)) && room.Less(Utf8Size(ch)) == Limited(room.bytes - Utf8Size(ch)))
  {
  }

  lemma NothingLeft(u: seq<UInt16>, room: Room)
    requires u == [] || room == Limited(0) || EncodedUnits(u, room) == 0
    ensures EncodedUnits(u, room) == 0 && EncodedBytes(u, room) == []
  {
  }

  // ---------- Decoding into limited room ----------

  /** How many bytes of a string are decoded into so many units: those of whole segments, until one does
      not fit or none follows. */
  function DecodedBytes(b: seq<Byte>, room: nat): (n: nat)
    ensures n <= |b|
  {
    var k := SegLen(b);
    if k == 0 || room < |Utf16Of(SegmentChar(b[..k]))| then 0
    else k + DecodedBytes(b[k..], room - |Utf16Of(SegmentChar(b[..k]))|)
  }

  function DecodedUnits(b: seq<Byte>, room: nat): (u: seq<UInt16>)
    ensures |u| <= room
  {
    var k := SegLen(b);
    if k == 0 || room < |Utf16Of(SegmentChar(b[..k]))| then []
    else Utf16Of(SegmentChar(b[..k])) + DecodedUnits(b[k..], room - |Utf16Of(SegmentChar(b[..k]))|)
  }

  /** The units of the first segment. */
  function FirstUnits(b: seq<Byte>): (u: seq<UInt16>)
    requires SegLen(b) > 0
    ensures 1 <= |u| <= 2
  {
    Utf16Of(SegmentChar(b[..SegLen(b)]))
  }

  lemma DecodingStep(b: seq<Byte>, room: nat)
    requires 0 < SegLen(b) && |FirstUnits(b)| <= room
    ensures var rest, left := b[SegLen(b)..], room - |FirstUnits(b)|;
      && DecodedBytes(b, room) == SegLen(b) + DecodedBytes(rest, left)
      && DecodedUnits(b, room) == FirstUnits(b) + DecodedUnits(rest, left)
  {
  }

  lemma NothingDecoded(b: seq<Byte>, room: nat)
    ensures DecodedBytes(b, room) == 0 <==> SegLen(b) == 0 || room < |FirstUnits(b)|
    ensures DecodedBytes(b, room) == 0 ==> DecodedUnits(b, room) == []
  {
  }

  lemma SegmentStep(b: seq<Byte>)
    requires 0 < SegLen(b)
    ensures Segmented(b) <==> Segmented(b[SegLen(b)..])
    ensures Segmented(b) ==> Utf16(Text8(b)) == FirstUnits(b) + Utf16(Text8(b[SegLen(b)..]))
  {
    Resegment(b);
  }

  /** A prefix of a string begins with the same segment, unless it splits it. */
  lemma SegmentOfPrefix(b: seq<Byte>, m: nat)
    requires m <= |b|
    ensures 0 < SegLen(b) <= m ==> SegLen(b[..m]) == SegLen(b) && FirstUnits(b[..m]) == FirstUnits(b)
                                   && b[..m][SegLen(b)..] == b[SegLen(b)..][..m - SegLen(b)]
    ensures m < SegLen(b) || SegLen(b) == 0 ==> SegLen(b[..m]) == 0
  {
    if 0 < SegLen(b) <= m {
      assert b[..m][..SegLen(b)] == b[..SegLen(b)];
      SegLenIs(b[..m], SegLen(b));
    }
    if 0 < SegLen(b[..m]) {
      assert b[..m][..SegLen(b[..m])] == b[..SegLen(b[..m])];
      SegLenIs(b, SegLen(b[..m]));
    }
  }

  lemma NoSegments(b: seq<Byte>)
    requires b == []
    ensures Segmented(b) && Utf16(Text8(b)) == []
  {
  }

  /** Whole segments are decoded, and the units are those of the bytes consumed. */
  lemma {:induction false} DecodedIsPrefix(b: seq<Byte>, room: nat)
    ensures Segmented(b[..DecodedBytes(b, room)])
    ensures DecodedUnits(b, room) == Utf16(Text8(b[..DecodedBytes(b, room)]))
  {
    hide *;
    var k, n := SegLen(b), DecodedBytes(b, room);
    NothingDecoded(b, room);
    if n == 0 {
      NoSegments(b[..n]);
    } else {
      DecodingStep(b, room);
      SegmentOfPrefix(b, n);
      SegmentStep(b[..n]);
      DecodedIsPrefix(b[k..], room - |FirstUnits(b)|);
    }
  }

  /** No longer prefix made of segments would have fitted. */
  lemma {:induction false} DecodedIsLongest(b: seq<Byte>, room: nat, m: nat)
    requires m <= |b| && Segmented(b[..m]) && |Utf16(Text8(b[..m]))| <= room
    ensures m <= DecodedBytes(b, room)
  {
    hide *;
    if m > 0 {
      var k := SegLen(b);
      SegmentOfPrefix(b, m);
      Resegment(b[..m]);
      assert 0 < k <= m;
      SegmentStep(b[..m]);
      assert |FirstUnits(b)| <= room;
      DecodingStep(b, room);
      DecodedIsLongest(b[k..], room - |FirstUnits(b)|, m - k);
    }
  }

  /** One unit for each byte is always enough: then the longest prefix made of segments is decoded. */
  lemma {:induction false} SegmentsFit(b: seq<Byte>)
    requires Segmented(b)
    ensures |Utf16(Text8(b))| <= |b|
  {
    if b != [] {
      Resegment(b);
      SegmentStep(b);
      SegmentsFit(b[SegLen(b)..]);
      UnitsOfSegment(b);
    }
  }

  lemma UnitsOfSegment(b: seq<Byte>)
    requires 0 < SegLen(b)
    ensures |FirstUnits(b)| == if SegLen(b) == 4 then 2 else 1
  {
  }

  /** What the decoder consumes without a limit is the longest prefix made of well-formed sequences and
      lone bytes 0xA9. */
  lemma LongestSegmented(b: seq<Byte>, m: nat)
    requires m <= |b| && Segmented(b[..m])
    ensures m <= DecodedBytes(b, |b|)
  {
    SegmentsFit(b[..m]);
    DecodedIsLongest(b, |b|, m);
  }

  // ---------- Decoding ----------

  function TrailingBytes(b: Byte): nat {
    if b < 0xC0 then 0 else if b < 0xE0 then 1 else if b < 0xF0 then 2
    else if b < 0xF8 then 3 else if b < 0xFC then 4 else 5
  }

  /** For a sequence as long as its first byte announces. */
  predicate IsLegalUTF8(source: seq<Byte>)
    requires 0 < |source|
  {
    var head := source[0];
    && |source| <= 4
    && (forall i :: 1 <= i < |source| ==> 0x80 <= source[i] < 0xC0)
    && !((0x80 <= head < 0xC2) || head > 0xF4)
    && (1 < |source| ==>
          !((head == 0xE0 && source[1] < 0xA0) || (head == 0xED && source[1] > 0x9F) ||
            (head == 0xF0 && source[1] < 0x90) || (head == 0xF4 && source[1] > 0x8F)))
  }

  /** The checks amount to the grammar of RFC 3629. */
  lemma LegalIsWellFormed(s: seq<Byte>)
    requires 0 < |s| == TrailingBytes(s[0]) + 1
    ensures IsLegalUTF8(s) <==> WellFormed(s)
    ensures IsLegalUTF8(s) ==> |s| <= 4
  {
  }

  function OffsetFromUTF8(extra: nat): UInt32 {
    if extra == 0 then 0 else if extra == 1 then 0x3080 else if extra == 2 then 0xE2080 else 0x3C82080
  }

  /** Bytes added up with shifts of six, marks and all; the offset takes the marks away. */
  function Accumulated(s: seq<Byte>): nat
    requires 0 < |s|
  {
    if |s| == 1 then s[0] else Accumulated(s[..|s| - 1]) * 0x40 + s[|s| - 1]
  }

  lemma AccumulatedScalar(s: seq<Byte>)
    requires WellFormed(s)
    ensures Accumulated(s) - OffsetFromUTF8(|s| - 1) == ScalarOf(s)
  {
    assert Accumulated(s[..1]) == s[0];
    if |s| > 1 { assert s[..2][..1] == s[..1] && Accumulated(s[..2]) == s[0] as int * 0x40 + s[1]; }
    if |s| > 2 { assert s[..3][..2] == s[..2] && Accumulated(s[..3]) == Accumulated(s[..2]) * 0x40 + s[2]; }
    if |s| > 3 { assert s[..4][..3] == s[..3] && Accumulated(s[..4]) == Accumulated(s[..3]) * 0x40 + s[3]; }
    assert s[..|s|] == s;
  }

  /** The segment at a place: its length and character. The values that are refused once decoded, surrogates
      and those past 0x10FFFF, never come out of a legal sequence. */
  method NextSegment(source: seq<Byte>, at: nat) returns (len: nat, ch: int)
    requires at < |source|
    ensures len == SegLen(source[at..])
    ensures len > 0 ==> ch == SegmentChar(source[at..][..len])
  {
    hide WellFormed, IsLegalUTF8, Accumulated, OffsetFromUTF8, ScalarOf;
    ghost var rest := source[at..];
    var extra := TrailingBytes(source[at]);
    if extra > |source| - at - 1 {
      AnnouncedTooLong(rest);
      return 0, 0;
    }
    var s := source[at..at + extra + 1];
    assert s == rest[..extra + 1];
    LegalIsWellFormed(s);
    if extra > 3 || !IsLegalUTF8(s) {
      NotWellFormed(rest, extra + 1);
      if source[at] == 0xA9 { return 1, REPLACEMENT; }
      return 0, 0;
    }
    SegLenIs(rest, extra + 1);
    AccumulatedScalar(s);
    NotA9(s);
    return extra + 1, Accumulated(s) - OffsetFromUTF8(extra);
  }

  lemma NotA9(s: seq<Byte>)
    requires WellFormed(s)
    ensures s != [0xA9]
  {
  }

  lemma AnnouncedTooLong(b: seq<Byte>)
    requires 0 < |b| <= TrailingBytes(b[0])
    ensures SegLen(b) == 0
  {
  }

  lemma NotWellFormed(b: seq<Byte>, k: nat)
    requires 0 < k <= |b| && k == TrailingBytes(b[0]) + 1 && !WellFormed(b[..k])
    ensures SegLen(b) == if b[0] == 0xA9 then 1 else 0
    ensures b[0] == 0xA9 ==> b[..1] == [0xA9]
  {
  }

  /** A supplementary character when room is left for one unit only: its bytes are passed over. */
  predicate Spills(rest: seq<Byte>, left: nat) {
    left == 1 && SegLen(rest) == 4
  }

  /** Writes a character, if anything is to be written at all. */
  method PutUnits(ch: Scalar, characters: array<UInt16>, at: nat, write: bool)
    requires write ==> at + |Utf16Of(ch)| <= characters.Length
    modifies characters
    ensures if write
      then characters[..at + |Utf16Of(ch)|] == old(characters[..at]) + Utf16Of(ch)
           && characters[at + |Utf16Of(ch)|..] == old(characters[at + |Utf16Of(ch)|..])
      else characters[..] == old(characters[..])
  {
    if write {
      if ch <= 0xFFFF {
        characters[at] := ch;
      } else {
        characters[at] := (ch - 0x1_0000) / 0x400 + 0xD800;
        characters[at + 1] := (ch - 0x1_0000) % 0x400 + 0xDC00;
      }
    }
  }

  /** Decodes as much as fits; with a limit of 0 it only counts, and there is no limit. */
  method FromUTF8(source: seq<Byte>, characters: array<UInt16>, maxCharLen: nat) returns (consumed: nat, used: nat)
    requires maxCharLen <= characters.Length
    modifies characters
    ensures var room := if maxCharLen == 0 then |source| else maxCharLen;
      var n := DecodedBytes(source, room);
      used == |DecodedUnits(source, room)|
      && consumed == n + (if Spills(source[n..], room - used) then 4 else 0)
      && (if maxCharLen == 0 then characters[..] == old(characters[..])
          else characters[..used] == DecodedUnits(source, room) && characters[used..] == old(characters[used..]))
  {
    hide *;
    ghost var room := if maxCharLen == 0 then |source| else maxCharLen;
    ghost var out, whole, was := [], 0, characters[..];
    consumed, used := 0, 0;
    NothingReached(source, room);
    while consumed < |source| && (maxCharLen == 0 || used < maxCharLen)
      invariant consumed == whole <= |source| && used == |out| <= room
      invariant maxCharLen == 0 ==> used <= consumed && characters[..] == old(characters[..])
      invariant maxCharLen != 0 ==> characters[..used] == out && characters[used..] == old(characters[used..])
      invariant Reached(source, room, whole, out)
    {
      ghost var rest := source[whole..];
      var len, ch := NextSegment(source, consumed);
      if len == 0 { break; }
      UnitsOfSegment(rest);
      UnitsOf(rest, ch);
      consumed := consumed + len;
      var units := if ch <= 0xFFFF then 1 else 2;
      if maxCharLen != 0 && used + units > maxCharLen { break; }
      ghost var before := characters[..];
      PutUnits(ch, characters, used, maxCharLen != 0);
      if maxCharLen != 0 { TailStays(characters[..], before, was, used, units); }
      ReachedNext(source, room, whole, out);
      used, out, whole := used + units, out + Utf16Of(ch), consumed;
    }
    Stopped(source[whole..], room - used);
    ReachedAll(source, room, whole, out);
  }

  /** Decoding has come to `at` and given out `out`; what is left to decode decides the rest. */
  ghost predicate Reached(source: seq<Byte>, room: nat, at: nat, out: seq<UInt16>) {
    && at <= |source| && |out| <= room
    && DecodedBytes(source, room) == at + DecodedBytes(source[at..], room - |out|)
    && DecodedUnits(source, room) == out + DecodedUnits(source[at..], room - |out|)
  }

  lemma NothingReached(source: seq<Byte>, room: nat)
    ensures Reached(source, room, 0, [])
  {
    assert source[0..] == source;
  }

  lemma ReachedNext(source: seq<Byte>, room: nat, at: nat, out: seq<UInt16>)
    requires Reached(source, room, at, out) && SegLen(source[at..]) > 0
    requires |out| + |FirstUnits(source[at..])| <= room
    ensures Reached(source, room, at + SegLen(source[at..]), out + FirstUnits(source[at..]))
  {
    hide DecodedBytes, DecodedUnits, SegLen, FirstUnits;
    var rest := source[at..];
    DecodingStep(rest, room - |out|);
    DropDrop(source, at, SegLen(rest));
    AssociateUnits(out, FirstUnits(rest), DecodedUnits(rest[SegLen(rest)..], room - |out| - |FirstUnits(rest)|));
  }

  lemma ReachedAll(source: seq<Byte>, room: nat, at: nat, out: seq<UInt16>)
    requires Reached(source, room, at, out)
    requires DecodedBytes(source[at..], room - |out|) == 0 && DecodedUnits(source[at..], room - |out|) == []
    ensures DecodedBytes(source, room) == at && DecodedUnits(source, room) == out
  {
  }

  lemma UnitsOf(b: seq<Byte>, ch: int)
    requires SegLen(b) > 0 && ch == SegmentChar(b[..SegLen(b)])
    ensures FirstUnits(b) == Utf16Of(ch) && |FirstUnits(b)| == if ch <= 0xFFFF then 1 else 2
  {
  }

  lemma AssociateUnits(a: seq<UInt16>, b: seq<UInt16>, c: seq<UInt16>)
    ensures a + (b + c) == a + b + c
  {
  }

  lemma Stopped(rest: seq<Byte>, left: nat)
    requires rest == [] || left == 0 || SegLen(rest) == 0 || left < |FirstUnits(rest)|
    ensures DecodedBytes(rest, left) == 0 && DecodedUnits(rest, left) == []
    ensures Spills(rest, left) <==> SegLen(rest) > 0 && 0 < left < |FirstUnits(rest)|
  {
    if SegLen(rest) > 0 { UnitsOfSegment(rest); }
  }

  /** Decoding goes through any segmented prefix whose units fit, and on from there. */
  lemma {:induction false} DecodesPast(b: seq<Byte>, room: nat, m: nat)
    requires m <= |b| && Segmented(b[..m]) && |Utf16(Text8(b[..m]))| <= room
    ensures DecodedBytes(b, room) == m + DecodedBytes(b[m..], room - |Utf16(Text8(b[..m]))|)
  {
    hide *;
    if m == 0 {
      assert b[0..] == b;
      NoSegments(b[..0]);
    } else {
      var k := SegLen(b);
      SegmentOfPrefix(b, m);
      Resegment(b[..m]);
      assert 0 < k <= m;
      SegmentStep(b[..m]);
      assert |FirstUnits(b)| <= room;
      DecodingStep(b, room);
      DecodesPast(b[k..], room - |FirstUnits(b)|, m - k);
      DropDrop(b, k, m - k);
    }
  }

  /** When room is left for one unit only, a supplementary character follows. */
  ghost predicate MeetsSupplementary(b: seq<Byte>, room: nat, m: nat) {
    m <= |b| && Segmented(b[..m]) && |Utf16(Text8(b[..m]))| + 1 == room && SegLen(b[m..]) == 4
  }

  lemma SpillsWhere(b: seq<Byte>, room: nat, m: nat)
    requires MeetsSupplementary(b, room, m)
    ensures m == DecodedBytes(b, room) && |DecodedUnits(b, room)| + 1 == room
  {
    hide DecodedBytes, DecodedUnits, Segmented, Text8, Utf16, SegLen, FirstUnits;
    DecodesPast(b, room, m);
    UnitsOfSegment(b[m..]);
    NothingDecoded(b[m..], 1);
    DecodedIsPrefix(b, room);
  }

  /** The bytes consumed are those of the units given out if and only if no prefix of segments leaves room for
      one unit before a supplementary character. */
  lemma ConsumedAreDecoded(b: seq<Byte>, room: nat)
    ensures var n, u := DecodedBytes(b, room), DecodedUnits(b, room);
      var consumed := n + if Spills(b[n..], room - |u|) then 4 else 0;
      && consumed <= |b| && Segmented(b[..consumed])
      && (Utf16(Text8(b[..consumed])) == u <==> !exists m: nat :: MeetsSupplementary(b, room, m))
  {
    hide DecodedBytes, DecodedUnits, Segmented, Text8, SegLen, Utf16, FirstUnits;
    var n, u := DecodedBytes(b, room), DecodedUnits(b, room);
    DecodedIsPrefix(b, room);
    if Spills(b[n..], room - |u|) {
      assert MeetsSupplementary(b, room, n);
      AppendSegment(b, n);
      UnitsOfSegment(b[n..]);
    } else {
      forall m: nat ensures !MeetsSupplementary(b, room, m) {
        if MeetsSupplementary(b, room, m) { SpillsWhere(b, room, m); }
      }
    }
  }

  /** With any room, a lone byte 0xA9 is given out as U+FFFD. */
  lemma LoneByteDecoded(room: nat)
    requires 0 < room
    ensures DecodedBytes([0xA9], room) == 1 && DecodedUnits([0xA9], room) == [0xFFFD]
  {
    SegLenIs([0xA9], 1);
    assert [0xA9][..1] == [0xA9] && [0xA9][1..] == [];
    DecodingStep([0xA9], room);
  }

  /** U+10000 is passed over when there is room for one unit. */
  lemma FourBytesPassedOver()
    ensures var b := [0xF0, 0x90, 0x80, 0x80];
      DecodedBytes(b, 1) == 0 && DecodedUnits(b, 1) == [] && Spills(b, 1)
  {
    var b := [0xF0, 0x90, 0x80, 0x80];
    assert b[..0] == [] && b[0..] == b;
    assert SegLen(b) == 4;
    NothingDecoded(b, 1);
    UnitsOfSegment(b);
  }

  lemma {:induction false} AppendSegment(b: seq<Byte>, n: nat)
    requires n <= |b| && Segmented(b[..n]) && 0 < SegLen(b[n..])
    ensures var m := n + SegLen(b[n..]);
      Segmented(b[..m]) && |Utf16(Text8(b[..m]))| == |Utf16(Text8(b[..n]))| + |FirstUnits(b[n..])|
    decreases n
  {
    hide *;
    var m := n + SegLen(b[n..]);
    if n == 0 {
      assert b[0..] == b;
      SegmentOfPrefix(b, m);
      SegmentStep(b[..m]);
      NoSegments(b[..m][SegLen(b)..]);
      NoSegments(b[..0]);
    } else {
      var k := SegLen(b);
      SegmentOfPrefix(b, n);
      Resegment(b[..n]);
      assert 0 < k <= n;
      SegmentStep(b[..n]);
      DropDrop(b, k, n - k);
      AppendSegment(b[k..], n - k);
      SegmentOfPrefix(b, m);
      SegmentStep(b[..m]);
    }
  }

  // ---------- Lengths ----------

  /** Counts as decoding without a limit does. */
  method FromUTF8Len(source: seq<Byte>) returns (used: nat)
    ensures used == |DecodedUnits(source, |source|)|
  {
    hide *;
    var at := 0;
    used := 0;
    assert source[0..] == source;
    while at < |source|
      invariant at <= |source| && used <= at
      invariant |DecodedUnits(source, |source|)| == used + |DecodedUnits(source[at..], |source| - used)|
    {
      ghost var rest := source[at..];
      var len, ch := NextSegment(source, at);
      if len == 0 { break; }
      UnitsOfSegment(rest);
      UnitsOf(rest, ch);
      DecodingStep(rest, |source| - used);
      DropDrop(source, at, len);
      at, used := at + len, used + if ch <= 0xFFFF then 1 else 2;
    }
    Stopped(source[at..], |source| - used);
  }

  /** Three bytes for a lone surrogate. */
  function UnitsLength(u: seq<UInt16>): nat {
    if u == [] then 0
    else if CharLen(u) == 0 then BytesToWriteForCharacter(u[0]) + UnitsLength(u[1..])
    else Utf8Size(FirstChar(u)) + UnitsLength(u[CharLen(u)..])
  }

  /** A surrogate pair counts four; any other unit counts for itself. */
  lemma LengthStep(u: seq<UInt16>, units: nat)
    requires u != [] && units == if CharLen(u) == 2 then 2 else 1
    ensures UnitsLength(u)
         == BytesToWriteForCharacter(if units == 2 then FirstChar(u) else u[0]) + UnitsLength(u[units..])
    ensures units == 2 <==> IsHigh(u[0]) && 1 < |u| && IsLow(u[1])
    ensures units == 2 ==> FirstChar(u) == (u[0] as int - 0xD800) * 0x400 + (u[1] as int - 0xDC00) + 0x1_0000
  {
    if CharLen(u) == 1 { assert FirstChar(u) == u[0]; }
  }

  lemma CutAgain(sum: int, n: int)
    ensures (sum % TWO_TO_32 + n) % TWO_TO_32 == (sum + n) % TWO_TO_32
  {
  }

  /** Counts in 32 bits, and does not stop at lone surrogates. */
  method ToUTF8Len(characters: seq<UInt16>) returns (bytesToWrite: UInt32)
    ensures bytesToWrite == UnitsLength(characters) % TWO_TO_32
  {
    hide UnitsLength, CharLen, FirstChar, BytesToWriteForCharacter;
    var at := 0;
    bytesToWrite := 0;
    ghost var sum := 0;
    assert characters[0..] == characters;
    while at < |characters|
      invariant at <= |characters| && UnitsLength(characters) == sum + UnitsLength(characters[at..])
      invariant bytesToWrite == sum % TWO_TO_32
    {
      ghost var rest := characters[at..];
      var ch: UInt32 := characters[at];
      var units := 1;
      if IsHigh(ch) && at + 1 < |characters| && IsLow(characters[at + 1]) {
        ch := (ch - 0xD800) * 0x400 + (characters[at + 1] - 0xDC00) + 0x1_0000;
        units := 2;
      }
      LengthStep(rest, if CharLen(rest) == 2 then 2 else 1);
      DropDrop(characters, at, units);
      CutAgain(sum, BytesToWriteForCharacter(ch));
      sum := sum + BytesToWriteForCharacter(ch);
      bytesToWrite := (bytesToWrite + BytesToWriteForCharacter(ch)) % TWO_TO_32;
      at := at + units;
    }
    NoUnits(characters[at..]);
  }

  lemma NoUnits(u: seq<UInt16>)
    ensures u == [] ==> UnitsLength(u) == 0
  {
  }

  /** Before it is cut to 32 bits, the length is that of the bytes encoded without a limit and of the units
      the encoder stops at. It stops at nothing exactly in strings without lone surrogates. */
  lemma {:induction false} LengthSplits(u: seq<UInt16>)
    ensures UnitsLength(u) == |EncodedBytes(u, Unlimited)| + UnitsLength(u[EncodedUnits(u, Unlimited)..])
    ensures WellFormed16(u) <==> UnitsLength(u[EncodedUnits(u, Unlimited)..]) == 0
  {
    hide UnitsLength, EncodedUnits, EncodedBytes, WellFormed16, CharLen, FirstChar;
    var k, n := CharLen(u), EncodedUnits(u, Unlimited);
    if k == 0 {
      StoppedAt(u);
      assert u[0..] == u;
    } else {
      EncodingStep(u, Unlimited);
      TextStep(u);
      CharacterLength(u);
      LengthSplits(u[k..]);
      DropDrop(u, k, n - k);
    }
  }

  lemma CharacterLength(u: seq<UInt16>)
    requires 0 < CharLen(u)
    ensures UnitsLength(u) == |Utf8Of(FirstChar(u))| + UnitsLength(u[CharLen(u)..])
  {
  }

  lemma StoppedAt(u: seq<UInt16>)
    requires CharLen(u) == 0
    ensures EncodedUnits(u, Unlimited) == 0 && EncodedBytes(u, Unlimited) == []
    ensures WellFormed16(u) <==> UnitsLength(u) == 0
  {
  }

  /** The length pass agrees with encoding without a limit exactly if the bytes encoded count less than 2^32
      and those of the units the encoder stops at a multiple of it. */
  lemma LengthAgrees(u: seq<UInt16>)
    ensures var n, rest := |EncodedBytes(u, Unlimited)|, UnitsLength(u[EncodedUnits(u, Unlimited)..]);
      UnitsLength(u) % TWO_TO_32 == n <==> n < TWO_TO_32 && rest % TWO_TO_32 == 0
    ensures WellFormed16(u) ==>
      (UnitsLength(u) % TWO_TO_32 == |EncodedBytes(u, Unlimited)| <==> UnitsLength(u) < TWO_TO_32)
    ensures UnitsLength(u) < TWO_TO_32 ==>
      (UnitsLength(u) % TWO_TO_32 == |EncodedBytes(u, Unlimited)| <==> WellFormed16(u))
  {
    hide UnitsLength, EncodedUnits, EncodedBytes, WellFormed16;
    LengthSplits(u);
  }

  /** `n` times the letter A. */
  function Letters(n: nat): seq<UInt16> {
    if n == 0 then [] else [0x41] + Letters(n - 1)
  }

  lemma {:induction false} LettersLength(n: nat)
    ensures UnitsLength(Letters(n)) == n && WellFormed16(Letters(n)) && |EncodedBytes(Letters(n), Unlimited)| == n
  {
    if n > 0 {
      LettersLength(n - 1);
      LetterFirst(n);
    }
  }

  lemma LetterFirst(n: nat)
    requires n > 0
    ensures var u := Letters(n);
      && UnitsLength(u) == 1 + UnitsLength(Letters(n - 1))
      && (WellFormed16(u) <==> WellFormed16(Letters(n - 1)))
      && |EncodedBytes(u, Unlimited)| == 1 + |EncodedBytes(Letters(n - 1), Unlimited)|
  {
    hide UnitsLength, EncodedUnits, EncodedBytes, WellFormed16;
    var u := Letters(n);
    assert CharLen(u) == 1 && FirstChar(u) == 0x41 && u[1..] == Letters(n - 1);
    LengthStep(u, 1);
    TextStep(u);
    EncodingStep(u, Unlimited);
  }

  /** 2^32 letters are well-formed, and their length passes for 0. */
  lemma LengthWrapsToNothing()
    ensures WellFormed16(Letters(TWO_TO_32))
    ensures UnitsLength(Letters(TWO_TO_32)) % TWO_TO_32 == 0 && |EncodedBytes(Letters(TWO_TO_32), Unlimited)| == TWO_TO_32
  {
    hide Letters, UnitsLength, EncodedBytes, WellFormed16;
    LettersLength(TWO_TO_32);
  }

  /** A lone surrogate before 2^32 - 3 letters is not noticed: nothing is encoded, and nothing counted. */
  lemma LoneSurrogateWraps()
    ensures var u := [0xD800] + Letters(TWO_TO_32 - 3);
      !WellFormed16(u) && UnitsLength(u) % TWO_TO_32 == 0 && EncodedBytes(u, Unlimited) == []
  {
    hide Letters, UnitsLength;
    var n := TWO_TO_32 - 3;
    var u := [0xD800] + Letters(n);
    LettersLength(n);
    assert u[1..] == Letters(n);
    StartsWithLetter(n);
    LengthStep(u, 1);
  }

  lemma StartsWithLetter(n: nat)
    requires n > 0
    ensures Letters(n) != [] && Letters(n)[0] == 0x41
  {
  }

  // ---------- Round trips ----------

  /** Decoding what a well-formed string is encoded to gives it back, whole. */
  lemma UnitsRoundTrip(u: seq<UInt16>, limit: nat, room: nat)
    requires WellFormed16(u) && 3 * |u| <= limit < TWO_TO_32 && |u| <= room
    ensures EncodedUnits(u, Limited(limit)) == |u|
    ensures var b := EncodedBytes(u, Limited(limit));
      DecodedBytes(b, room) == |b| && DecodedUnits(b, room) == u
  {
    hide EncodedUnits, EncodedBytes, DecodedBytes, DecodedUnits, Text16, Text8, Utf8, Utf16, Segmented, WellFormed8;
    var b := EncodedBytes(u, Limited(limit));
    EnoughRoom(u, Limited(limit));
    EncodedText(Text16(u));
    UnitsReturn(u);
    assert b[..|b|] == b;
    DecodedIsLongest(b, room, |b|);
    DecodedIsPrefix(b, room);
  }

  /** Encoding what well-formed bytes decode to gives them back, whole. */
  lemma BytesRoundTrip(b: seq<Byte>, room: nat, limit: nat)
    requires WellFormed8(b) && |b| <= room && 3 * |b| <= limit < TWO_TO_32
    ensures DecodedBytes(b, room) == |b|
    ensures var u := DecodedUnits(b, room);
      EncodedUnits(u, Limited(limit)) == |u| && EncodedBytes(u, Limited(limit)) == b
  {
    hide EncodedUnits, EncodedBytes, DecodedBytes, DecodedUnits, Text16, Text8, Utf8, Utf16, Segmented, WellFormed8;
    BytesReturn(b);
    SegmentsFit(b);
    assert b[..|b|] == b;
    DecodedIsLongest(b, room, |b|);
    DecodedIsPrefix(b, room);
    var u := DecodedUnits(b, room);
    TextReturns(Text8(b));
    EnoughRoom(u, Limited(limit));
  }
}
