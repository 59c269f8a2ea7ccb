/** Reading a file: the trailer checks, the object table the bytes hold, and the whole reader. */
module PlistReader {
  import opened Bytes
  import opened PlistFormat
  import opened PlistGraph

  /** The objects of a file whose trailer has been checked. */
  function ObjectsOf(d: seq<Byte>, t: Trailer): Objects
    requires Layout(d, t)
  {
    Objects(t.offsetTableOffset, off => if 8 <= off < t.offsetTableOffset then HeadAt(d, t, off) else Bad)
  }

  function TrailerOf(d: seq<Byte>): Trailer
    requires TRAILER_SIZE <= |d|
  {
    var at := |d| - TRAILER_SIZE;
    Trailer(d[at + 6], d[at + 7], SizedInt(d[at + 8..at + 16]), SizedInt(d[at + 16..at + 24]),
            SizedInt(d[at + 24..at + 32]))
  }

  /** What the checks on the trailer amount to, on data no longer than a signed 64-bit length. */
  predicate TrailerFits(d: seq<Byte>, t: Trailer) {
    && Layout(d, t)
    && t.topObject < t.numObjects
    && (t.objectRefSize < 8 ==> t.numObjects < Pow256(t.objectRefSize))
    && (t.offsetIntSize < 8 ==> t.offsetTableOffset < Pow256(t.offsetIntSize))
  }

  predicate Accepted(d: seq<Byte>) {
    && TRAILER_SIZE + 8 + 1 <= |d|
    && d[..7] == HEADER[..7]
    && var t := TrailerOf(d);
    && TrailerFits(d, t)
    && (forall ref :: 0 <= ref < t.numObjects ==> OffsetOf(d, t, ref) < t.offsetTableOffset)
    && 8 <= OffsetOf(d, t, t.topObject)
  }

  /** Reading a whole file without a cache. */
  function ReadPlist(d: seq<Byte>): Option<Value> {
    if !Accepted(d) then None
    else
      var t := TrailerOf(d);
      Decode(ObjectsOf(d, t), OffsetOf(d, t, t.topObject), None, 0)
  }

  function CheckedAdd(x: UInt64, y: UInt64): Option<UInt64> {
    if ULLONG_MAX - y < x then None else Some(x + y)
  }

  function CheckedMul(x: UInt64, y: UInt64): (r: Option<UInt64>)
    ensures r.Some? <==> x * y <= ULLONG_MAX
    ensures r.Some? ==> r.value == x * y
  {
    if x == 0 then Some(0)
    else
      QuotientBound(x, y);
      if ULLONG_MAX / x < y then None else Some(x * y)
  }

  lemma QuotientBound(x: nat, y: nat)
    requires x > 0
    ensures ULLONG_MAX / x < y <==> x * y > ULLONG_MAX
  {
    var q := ULLONG_MAX / x;
    assert q * x <= ULLONG_MAX < q * x + x;
    if y <= q {
      MulMonotonic(y, q, x);
    } else {
      MulMonotonic(q + 1, y, x);
      assert (q + 1) * x == q * x + x;
    }
    assert x * y == y * x;
  }

  /** The chain of checks as coded, overflow checks included. */
  method CheckTrailer(d: seq<Byte>, trail: Trailer) returns (ok: bool)
    requires TRAILER_SIZE + 8 + 1 <= |d| <= LONG_MAX
    requires trail.numObjects <= ULLONG_MAX && trail.offsetTableOffset <= ULLONG_MAX
    ensures ok <==> TrailerFits(d, trail)
  {
    if trail.offsetIntSize >= 1 { ProductAtLeast(trail.numObjects, trail.offsetIntSize); }
    if LONG_MAX < trail.numObjects { return false; }
    if LONG_MAX < trail.offsetTableOffset { return false; }
    if trail.numObjects < 1 { return false; }
    if trail.numObjects <= trail.topObject { return false; }
    if trail.offsetTableOffset < 9 { return false; }
    if |d| - TRAILER_SIZE <= trail.offsetTableOffset { return false; }
    if trail.offsetIntSize < 1 { return false; }
    if trail.objectRefSize < 1 { return false; }
    var offsetTableSize := CheckedMul(trail.numObjects, trail.offsetIntSize);
    if offsetTableSize.None? || offsetTableSize.value < 1 { return false; }
    var tmpSum := CheckedAdd(8, trail.offsetTableOffset - 8);
    if tmpSum.None? { return false; }
    tmpSum := CheckedAdd(tmpSum.value, offsetTableSize.value);
    if tmpSum.None? { return false; }
    tmpSum := CheckedAdd(tmpSum.value, TRAILER_SIZE);
    if tmpSum.None? { return false; }
    if |d| != tmpSum.value { return false; }
    if trail.objectRefSize < 8 && Pow256(trail.objectRefSize) <= trail.numObjects { return false; }
    if trail.offsetIntSize < 8 && Pow256(trail.offsetIntSize) <= trail.offsetTableOffset { return false; }
    ok := true;
  }

  lemma ProductAtLeast(n: nat, size: nat)
    requires size >= 1
    ensures n * size >= n
  {
    MulMonotonic(1, size, n);
    assert n * size == size * n;
  }

  method TableEntry(d: seq<Byte>, t: Trailer, ref: nat) returns (off: UInt64)
    requires Layout(d, t) && ref < t.numObjects
    ensures off == OffsetOf(d, t, ref)
  {
    TableEntryInside(ref, t.numObjects, t.offsetIntSize);
    off := GetSizedInt(d, t.offsetTableOffset + ref * t.offsetIntSize, t.offsetIntSize);
  }

  method CheckOffsets(d: seq<Byte>, t: Trailer) returns (ok: bool)
    requires Layout(d, t)
    ensures ok <==> forall ref :: 0 <= ref < t.numObjects ==> OffsetOf(d, t, ref) < t.offsetTableOffset
  {
    var at := t.offsetTableOffset;
    var maxOffset := t.offsetTableOffset - 1;
    for idx := 0 to t.numObjects
      invariant at == t.offsetTableOffset + idx * t.offsetIntSize
      invariant forall ref :: 0 <= ref < idx ==> OffsetOf(d, t, ref) <= maxOffset
    {
      TableEntryInside(idx, t.numObjects, t.offsetIntSize);
      var off := GetSizedInt(d, at, t.offsetIntSize);
      assert off == OffsetOf(d, t, idx);
      if maxOffset < off { return false; }
      at := at + t.offsetIntSize;
    }
    ok := true;
  }

  /** The whole test accepts exactly the files that are `Accepted`. */
  method GetTopLevelInfo(d: seq<Byte>) returns (ok: bool, marker: Byte, offset: nat, t: Trailer)
    requires |d| <= LONG_MAX
    ensures ok <==> Accepted(d)
    ensures ok ==> t == TrailerOf(d) && offset == OffsetOf(d, t, t.topObject) && marker == d[offset]
  {
    ok, marker, offset, t := false, 0, 0, Trailer(0, 0, 0, 0, 0);
    if |d| < TRAILER_SIZE + 8 + 1 { return; }
    if d[..7] != HEADER[..7] { return; }
    var trail := TrailerOf(d);
    var fits := CheckTrailer(d, trail);
    if !fits { return; }
    var bounded := CheckOffsets(d, trail);
    if !bounded { return; }
    var off := TableEntry(d, trail, trail.topObject);
    if off < 8 || trail.offsetTableOffset <= off { return; }
    ok, marker, offset, t := true, d[off], off, trail;
  }

  /** Reading a file through the cache gives what reading it without one gives, mutable as asked; and no
      mutable object is in the result twice, whatever the file shares. */
  method TryParseBinaryPlist(d: seq<Byte>, option: Mutability) returns (ok: bool, plist: Made)
    requires |d| <= LONG_MAX
    ensures ok <==> ReadPlist(d).Some?
    ensures ok ==> ReadPlist(d) == Some(Erase(plist)) && AsAsked(option, plist)
    ensures ok ==> var ids := MutableIds(plist); forall i, j :: 0 <= i < j < |ids| ==> ids[i] != ids[j]
  {
    plist := Single(Null, None);
    var accepted, _, offset, t := GetTopLevelInfo(d);
    if !accepted { return false, plist; }
    var reader := new Reader(ObjectsOf(d, t), option);
    ok, plist := reader.CreateObject(offset, 0);
  }
}
