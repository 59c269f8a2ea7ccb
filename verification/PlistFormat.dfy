/** The binary property list format: values, the object markers and what one object's bytes say. */
module PlistFormat {
  import opened Bytes
  import opened Capacities

  type Bytes4 = s: seq<Byte> | |s| == 4 witness [0, 0, 0, 0]
  type Bytes8 = s: seq<Byte> | |s| == 8 witness [0, 0, 0, 0, 0, 0, 0, 0]

  datatype Kind = Array | Set | Dict

  /** A property list as the reader hands it out. Floating point payloads stay byte strings.
      A dictionary's elements are its keys followed by its values. */
  datatype Value =
    | Null
    | Bool(b: bool)
    | Int(v: Int64)
    | WideInt(high: Int64, low: UInt64)
    | Real32(payload4: Bytes4)
    | Real64(payload8: Bytes8)
    | Date(payload8: Bytes8)
    | Data(bytes: seq<Byte>)
    | Str(units: seq<UInt16>)
    | Uid(id: UInt32)
    | Coll(kind: Kind, elems: seq<Value>)

  predicate Primitive(v: Value) {
    !v.Coll?
  }

  datatype Trailer = Trailer(offsetIntSize: Byte, objectRefSize: Byte,
                             numObjects: nat, topObject: nat, offsetTableOffset: nat)

  const NULL_MARK: Byte := 0x00
  const FALSE_MARK: Byte := 0x08
  const TRUE_MARK: Byte := 0x09
  const INT_MARK: Byte := 0x10
  const REAL_MARK: Byte := 0x20
  const DATE_MARK: Byte := 0x33
  const DATA_MARK: Byte := 0x40
  const ASCII_MARK: Byte := 0x50
  const UNICODE_MARK: Byte := 0x60
  const UID_MARK: Byte := 0x80
  const ARRAY_MARK: Byte := 0xA0
  const SET_MARK: Byte := 0xC0
  const DICT_MARK: Byte := 0xD0

  const HEADER: seq<Byte> := [0x62, 0x70, 0x6C, 0x69, 0x73, 0x74, 0x30, 0x30]
  const TRAILER_SIZE := 32

  /** What the checks on the trailer leave the decoder to rely on. */
  predicate Layout(d: seq<Byte>, t: Trailer) {
    && 9 <= t.offsetTableOffset
    && 1 <= t.offsetIntSize
    && 1 <= t.objectRefSize
    && t.offsetTableOffset + TRAILER_SIZE <= |d|
    && |d| == t.offsetTableOffset + t.numObjects * t.offsetIntSize + TRAILER_SIZE
  }

  function IntSize(marker: Byte): nat {
    Pow2(marker % 16)
  }

  /** An integer object used as a count: its value and the position after it. The accumulator
      takes an eight-bit size, so from 2^8 bytes on nothing is read. */
  function ReadInt(d: seq<Byte>, ptr: nat, last: nat): (r: Option<(UInt64, nat)>)
    requires last < |d|
    ensures r.Some? ==> ptr < r.value.1 <= last + 1
  {
    if last < ptr || d[ptr] / 16 != 1 then None
    else
      var cnt := IntSize(d[ptr]);
      if last < ptr + cnt then None
      else
        assert cnt % 256 <= cnt;
        Some((SizedInt(d[ptr + 1..ptr + 1 + cnt % 256]), ptr + 1 + cnt))
  }

  /** The element count of the object at `off` and the position of its contents. */
  function CountAt(d: seq<Byte>, off: nat, last: nat): (r: Option<(nat, nat)>)
    requires off <= last < |d|
    ensures r.Some? ==> off < r.value.1 <= last + 1 && r.value.0 <= LONG_MAX
  {
    if d[off] % 16 != 15 then Some((d[off] % 16, off + 1))
    else
      var r := ReadInt(d, off + 1, last);
      if r.None? || LONG_MAX < r.value.0 then None else Some((r.value.0 as nat, r.value.1))
  }

  const NO_OFFSET: nat := ULLONG_MAX

  lemma TableEntryInside(ref: nat, num: nat, size: nat)
    requires ref < num
    ensures ref * size + size <= num * size
  {
    MulMonotonic(ref + 1, num, size);
    assert (ref + 1) * size == ref * size + size;
  }

  /** The offset table entry `ref` names. */
  function OffsetOf(d: seq<Byte>, t: Trailer, ref: nat): UInt64
    requires Layout(d, t) && ref < t.numObjects
  {
    TableEntryInside(ref, t.numObjects, t.offsetIntSize);
    var at := t.offsetTableOffset + ref * t.offsetIntSize;
    SizedInt(d[at..at + t.offsetIntSize])
  }

  /** The offset of the object whose reference stands at `p`. */
  function OffsetOfRefAt(d: seq<Byte>, t: Trailer, p: nat): UInt64
    requires Layout(d, t)
  {
    if p < 8 || t.offsetTableOffset < p + t.objectRefSize then NO_OFFSET
    else
      var ref := SizedInt(d[p..p + t.objectRefSize]);
      if t.numObjects <= ref then NO_OFFSET else OffsetOf(d, t, ref)
  }

  function RefsAt(d: seq<Byte>, t: Trailer, p: nat, n: nat): (offs: seq<nat>)
    requires Layout(d, t)
    ensures |offs| == n
    decreases n
  {
    if n == 0 then [] else [OffsetOfRefAt(d, t, p)] + RefsAt(d, t, p + t.objectRefSize, n - 1)
  }

  function UnitsAt(d: seq<Byte>, p: nat, n: nat): (s: seq<UInt16>)
    requires p + 2 * n <= |d|
    ensures |s| == n
    decreases n
  {
    if n == 0 then [] else [256 * (d[p] as int) + d[p + 1]] + UnitsAt(d, p + 2, n - 1)
  }

  predicate IsAscii(s: seq<int>) {
    forall i :: 0 <= i < |s| ==> s[i] < 0x80
  }

  /** One object's own bytes: a leaf value, or a collection and where its elements stand. */
  datatype Head = Bad | Leaf(v: Value) | Node(kind: Kind, offs: seq<nat>)

  function HeadAt(d: seq<Byte>, t: Trailer, off: nat): Head
    requires Layout(d, t) && off < t.offsetTableOffset
  {
    var last := t.offsetTableOffset - 1;
    var marker := d[off];
    match marker / 16
    case 0 => if marker == NULL_MARK then Leaf(Null)
              else if marker == FALSE_MARK then Leaf(Bool(false))
              else if marker == TRUE_MARK then Leaf(Bool(true))
              else Bad
    case 1 => IntHead(d, off, last)
    case 2 => if marker % 16 == 2 && off + 4 <= last then Leaf(Real32(d[off + 1..off + 5]))
              else if marker % 16 == 3 && off + 8 <= last then Leaf(Real64(d[off + 1..off + 9]))
              else Bad
    case 3 => if marker == DATE_MARK && off + 8 <= last then Leaf(Date(d[off + 1..off + 9]))
              else Bad
    case 4 => DataHead(d, off, last)
    case 5 => AsciiHead(d, off, last)
    case 6 => UnicodeHead(d, off, last)
    case 8 => UidHead(d, off, last)
    case 10 => NodeHead(d, t, off, Array)
    case 12 => NodeHead(d, t, off, Set)
    case 13 => NodeHead(d, t, off, Dict)
    case _ => Bad
  }

  function IntHead(d: seq<Byte>, off: nat, last: nat): Head
    requires off <= last < |d|
  {
    var cnt := IntSize(d[off]);
    if last < off + cnt || 16 < cnt then Bad
    else
      var big := SizedInt(d[off + 1..off + 1 + cnt]);
      if 8 < cnt then Leaf(WideInt(0, big)) else Leaf(Int(Signed64(big)))
  }

  function DataHead(d: seq<Byte>, off: nat, last: nat): Head
    requires off <= last < |d|
  {
    match CountAt(d, off, last)
    case None => Bad
    case Some((cnt, ptr)) => if last + 1 < ptr + cnt then Bad else Leaf(Data(d[ptr..ptr + cnt]))
  }

  /** The ASCII converter refuses a byte with its top bit set. */
  function AsciiHead(d: seq<Byte>, off: nat, last: nat): Head
    requires off <= last < |d|
  {
    match CountAt(d, off, last)
    case None => Bad
    case Some((cnt, ptr)) =>
      if last + 1 < ptr + cnt || !IsAscii(d[ptr..ptr + cnt]) then Bad
      else Leaf(Str(seq(cnt, i requires 0 <= i < cnt => d[ptr + i])))
  }

  function UnicodeHead(d: seq<Byte>, off: nat, last: nat): Head
    requires off <= last < |d|
  {
    match CountAt(d, off, last)
    case None => Bad
    case Some((cnt, ptr)) =>
      if last + 1 < ptr + 2 * cnt then Bad else Leaf(Str(UnitsAt(d, ptr, cnt)))
  }

  function UidHead(d: seq<Byte>, off: nat, last: nat): Head
    requires off <= last < |d|
  {
    var cnt := d[off] % 16 + 1;
    if last < off + cnt then Bad
    else
      var big := SizedInt(d[off + 1..off + 1 + cnt]);
      if 0xFFFF_FFFF < big then Bad else Leaf(Uid(big))
  }

  function NodeHead(d: seq<Byte>, t: Trailer, off: nat, kind: Kind): Head
    requires Layout(d, t) && off < t.offsetTableOffset
  {
    match CountAt(d, off, t.offsetTableOffset - 1)
    case None => Bad
    case Some((cnt, ptr)) =>
      var n := if kind == Dict then 2 * cnt else cnt;
      if t.offsetTableOffset < ptr + n * t.objectRefSize then Bad
      else Node(kind, RefsAt(d, t, ptr, n))
  }
}
