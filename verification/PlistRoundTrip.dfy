/** Reading back what the writer wrote. */
module PlistRoundTrip {
  import opened Bytes
  import Capacities
  import F = PlistFormat
  import opened PlistGraph
  import opened PlistReader
  import opened PlistWriter

  type Value = F.Value
  type Trailer = F.Trailer

  // ---------- What should come back ----------

  /** The high half of a 128-bit integer is dropped by the reader. */
  function ReadBackAtom(v: Value): Value {
    if v.WideInt? then F.WideInt(0, v.low) else v
  }

  function ReadBack(o: Obj): Value {
    match o
    case Atom(_, v) => ReadBackAtom(v)
    case Container(_, kind, elems) =>
      F.Coll(kind, seq(|elems|, i requires 0 <= i < |elems| => ReadBack(elems[i])))
  }

  /** The property list an object graph denotes, addresses forgotten. */
  function Contents(o: Obj): Value {
    match o
    case Atom(_, v) => v
    case Container(_, kind, elems) =>
      F.Coll(kind, seq(|elems|, i requires 0 <= i < |elems| => Contents(elems[i])))
  }

  /** The first half of a dictionary's elements are its keys; nothing else has any. */
  predicate KeysPrimitive(o: Obj) {
    o.Container? ==>
      (o.kind == F.Dict ==> forall i :: 0 <= i < |o.elems| / 2 ==> o.elems[i].Atom?)
      && forall e :: e in o.elems ==> KeysPrimitive(e)
  }

  predicate NarrowInts(o: Obj) {
    match o
    case Atom(_, v) => v.WideInt? ==> v.high == 0
    case Container(_, _, elems) => forall e :: e in elems ==> NarrowInts(e)
  }

  lemma {:induction false} ReadBackIsContents(o: Obj)
    ensures ReadBack(o) == Contents(o) <==> NarrowInts(o)
  {
    if o.Container? {
      forall e | e in o.elems ensures ReadBack(e) == Contents(e) <==> NarrowInts(e) {
        ReadBackIsContents(e);
      }
      if NarrowInts(o) {
        assert ReadBack(o).elems == Contents(o).elems;
      } else {
        var e :| e in o.elems && !NarrowInts(e);
        var i :| 0 <= i < |o.elems| && o.elems[i] == e;
        assert ReadBack(o).elems[i] != Contents(o).elems[i];
      }
    }
  }

  // ---------- Counts and atoms ----------

  /** The marker of an integer object gives the size of what follows. */
  lemma IntBytesShape(n: UInt64)
    ensures var s := IntBytes(n);
            s[0] / 16 == 1 && F.IntSize(s[0]) == |s| - 1 <= 8
            && s[1..] == BigEndian(n, |s| - 1) && n < Pow256(|s| - 1)
  {
    Pow256Values();
    assert Capacities.Pow2(2) == 4 && Capacities.Pow2(3) == 8;
  }

  lemma IntBytesRead(d: seq<Byte>, off: nat, n: UInt64)
    requires At(d, off, IntBytes(n))
    ensures d[off] / 16 == 1 && F.IntSize(d[off]) == |IntBytes(n)| - 1 <= 8
    ensures SizedInt(d[off + 1..off + |IntBytes(n)|]) == n
  {
    IntBytesShape(n);
    var s := IntBytes(n);
    assert d[off] == d[off..off + |s|][0];
    assert d[off + 1..off + |s|] == d[off..off + |s|][1..];
    SizedIntOfBigEndian(n, |s| - 1);
  }

  lemma LowNibble(marker: Marker, low: nat)
    requires low <= 15
    ensures (marker + low) % 16 == low && (marker + low) / 16 == marker / 16
  {
  }

  lemma CountIntRead(d: seq<Byte>, ptr: nat, last: nat, n: UInt64)
    requires At(d, ptr, IntBytes(n)) && ptr + |IntBytes(n)| <= last + 1 <= |d|
    ensures F.ReadInt(d, ptr, last) == Some((n, ptr + |IntBytes(n)|))
  {
    IntBytesRead(d, ptr, n);
  }

  lemma ShortCountRead(d: seq<Byte>, off: nat, last: nat, marker: Marker, n: nat)
    requires n < 15 && At(d, off, [marker + n]) && off <= last < |d|
    ensures d[off] / 16 == marker / 16 && F.CountAt(d, off, last) == Some((n, off + 1))
  {
    assert d[off] == d[off..off + 1][0] == marker + n;
    LowNibble(marker, n);
  }

  lemma LongCountRead(d: seq<Byte>, off: nat, last: nat, marker: Marker, n: nat)
    requires 15 <= n <= LONG_MAX && At(d, off, [marker + 15]) && At(d, off + 1, IntBytes(n))
    requires off + 1 + |IntBytes(n)| <= last + 1 <= |d|
    ensures d[off] / 16 == marker / 16 && F.CountAt(d, off, last) == Some((n, off + 1 + |IntBytes(n)|))
  {
    assert d[off] == d[off..off + 1][0] == marker + 15;
    LowNibble(marker, 15);
    CountIntRead(d, off + 1, last, n);
  }

  lemma CountRead(d: seq<Byte>, off: nat, last: nat, marker: Marker, n: nat)
    requires At(d, off, CountBytes(marker, n)) && n <= LONG_MAX
    requires off + |CountBytes(marker, n)| <= last + 1 <= |d|
    ensures d[off] / 16 == marker / 16
    ensures F.CountAt(d, off, last) == Some((n, off + |CountBytes(marker, n)|))
  {
    if n < 15 {
      ShortCountRead(d, off, last, marker, n);
    } else {
      AtSplit(d, off, [marker + 15], IntBytes(n));
      LongCountRead(d, off, last, marker, n);
    }
  }

  lemma IntRead(d: seq<Byte>, off: nat, last: nat, v: Int64)
    requires At(d, off, IntBytes(Unsigned64(v))) && off + |IntBytes(Unsigned64(v))| <= last + 1 <= |d|
    ensures d[off] / 16 == 1 && F.IntHead(d, off, last) == F.Leaf(F.Int(v))
  {
    IntBytesRead(d, off, Unsigned64(v));
    assert Signed64(Unsigned64(v)) == v;
  }

  /** Sixteen bytes leave only the last eight in the accumulator. */
  lemma WideIntRead(d: seq<Byte>, off: nat, last: nat, high: Int64, low: UInt64)
    requires At(d, off, AtomBytes(F.WideInt(high, low))) && off + 17 <= last + 1 <= |d|
    ensures d[off] / 16 == 1 && F.IntHead(d, off, last) == F.Leaf(F.WideInt(0, low))
  {
    var h, l := BigEndian(Unsigned64(high), 8), BigEndian(low, 8);
    AtSplit(d, off, [F.INT_MARK + 4], h + l);
    assert d[off] == F.INT_MARK + 4 by { assert d[off..off + 1] == [F.INT_MARK + 4]; }
    assert Capacities.Pow2(3) == 8 && F.IntSize(d[off]) == 16;
    assert d[off + 1..off + 17] == h + l;
    NumberOfConcat(h, l);
    Pow256Values();
    NumberOfBigEndian(low, 8);
    LowWord(Number(h), low);
  }

  lemma LowWord(h: nat, l: UInt64)
    ensures (h * TWO_TO_64 + l) % TWO_TO_64 == l
  {
  }

  lemma {:induction false} NumberOfConcat(a: seq<Byte>, b: seq<Byte>)
    ensures Number(a + b) == Number(a) * Pow256(|b|) + Number(b)
  {
    if b == [] {
      assert a + b == a;
    } else {
      var front, last := b[..|b| - 1], b[|b| - 1];
      assert (a + b)[..|a + b| - 1] == a + front;
      assert Number(a + b) == 256 * Number(a + front) + last;
      NumberOfConcat(a, front);
      MulAssociative(Number(a), Pow256(|front|));
      assert Number(a + b) == Number(a) * (256 * Pow256(|front|)) + (256 * Number(front) + last);
    }
  }

  lemma MulAssociative(a: nat, p: nat)
    ensures 256 * (a * p) == a * (256 * p)
  {
  }

  lemma DataRead(d: seq<Byte>, off: nat, last: nat, bytes: seq<Byte>)
    requires |bytes| <= LONG_MAX && At(d, off, CountBytes(F.DATA_MARK, |bytes|) + bytes)
    requires off + |CountBytes(F.DATA_MARK, |bytes|)| + |bytes| <= last + 1 <= |d|
    ensures d[off] / 16 == 4 && F.DataHead(d, off, last) == F.Leaf(F.Data(bytes))
  {
    hide F.CountAt;
    AtSplit(d, off, CountBytes(F.DATA_MARK, |bytes|), bytes);
    CountRead(d, off, last, F.DATA_MARK, |bytes|);
  }

  lemma AsciiRead(d: seq<Byte>, off: nat, last: nat, units: seq<UInt16>)
    requires F.IsAscii(units) && |units| <= LONG_MAX
    requires At(d, off, CountBytes(F.ASCII_MARK, |units|) + AsciiBytes(units))
    requires off + |CountBytes(F.ASCII_MARK, |units|)| + |units| <= last + 1 <= |d|
    ensures d[off] / 16 == 5 && F.AsciiHead(d, off, last) == F.Leaf(F.Str(units))
  {
    hide F.CountAt;
    var head := CountBytes(F.ASCII_MARK, |units|);
    AtSplit(d, off, head, AsciiBytes(units));
    CountRead(d, off, last, F.ASCII_MARK, |units|);
    var ptr := off + |head|;
    var bytes := d[ptr..ptr + |units|];
    assert bytes == AsciiBytes(units);
    forall i | 0 <= i < |units| ensures d[ptr + i] == units[i] { assert bytes[i] == units[i]; }
    assert units == seq(|units|, i requires 0 <= i < |units| => d[ptr + i]);
  }

  lemma UnicodeRead(d: seq<Byte>, off: nat, last: nat, units: seq<UInt16>)
    requires |units| <= LONG_MAX && At(d, off, CountBytes(F.UNICODE_MARK, |units|) + UnitBytes(units))
    requires off + |CountBytes(F.UNICODE_MARK, |units|)| + 2 * |units| <= last + 1 <= |d|
    ensures d[off] / 16 == 6 && F.UnicodeHead(d, off, last) == F.Leaf(F.Str(units))
  {
    hide F.CountAt, F.UnitsAt, UnitBytes;
    var head := CountBytes(F.UNICODE_MARK, |units|);
    AtSplit(d, off, head, UnitBytes(units));
    CountRead(d, off, last, F.UNICODE_MARK, |units|);
    UnitsRead(d, off + |head|, units);
  }

  lemma {:induction false} UnitsRead(d: seq<Byte>, ptr: nat, units: seq<UInt16>)
    requires At(d, ptr, UnitBytes(units))
    ensures F.UnitsAt(d, ptr, |units|) == units
    decreases units
  {
    if units != [] {
      var u: UInt16 := units[0];
      AtSplit(d, ptr, [u / 256, u % 256], UnitBytes(units[1..]));
      assert d[ptr..ptr + 2] == [u / 256, u % 256];
      assert d[ptr] == d[ptr..ptr + 2][0] && d[ptr + 1] == d[ptr..ptr + 2][1];
      UnitsRead(d, ptr + 2, units[1..]);
    }
  }

  lemma UidRead(d: seq<Byte>, off: nat, last: nat, id: UInt32)
    requires At(d, off, AtomBytes(F.Uid(id))) && off + |AtomBytes(F.Uid(id))| <= last + 1 <= |d|
    ensures d[off] / 16 == 8 && F.UidHead(d, off, last) == F.Leaf(F.Uid(id))
  {
    var size := UidSize(id);
    var mark: Byte := F.UID_MARK + size - 1;
    AtSplit(d, off, [mark], BigEndian(id, size));
    assert d[off] == mark by { assert d[off..off + 1] == [mark]; }
    Pow256Values();
    SizedIntOfBigEndian(id, size);
  }

  lemma PayloadRead(d: seq<Byte>, off: nat, mark: Byte, payload: seq<Byte>)
    requires At(d, off, [mark] + payload)
    ensures d[off] == mark && d[off + 1..off + 1 + |payload|] == payload
  {
    AtSplit(d, off, [mark], payload);
    assert d[off..off + 1] == [mark];
  }

  lemma FixedRead(d: seq<Byte>, t: Trailer, off: nat, v: Value)
    requires F.Layout(d, t) && (v.Bool? || v.Real32? || v.Real64? || v.Date?)
    requires At(d, off, AtomBytes(v)) && off + |AtomBytes(v)| <= t.offsetTableOffset
    ensures off < t.offsetTableOffset && F.HeadAt(d, t, off) == F.Leaf(v)
  {
    match v
    case Bool(b) => PayloadRead(d, off, if b then F.TRUE_MARK else F.FALSE_MARK, []);
    case Real32(payload) => PayloadRead(d, off, F.REAL_MARK + 2, payload);
    case Real64(payload) => PayloadRead(d, off, F.REAL_MARK + 3, payload);
    case Date(payload) => PayloadRead(d, off, F.DATE_MARK, payload);
  }

  /** The bytes of an atom are read as that atom, the high half of a wide integer aside. */
  lemma AtomRead(d: seq<Byte>, t: Trailer, off: nat, v: Value)
    requires F.Layout(d, t) && F.Primitive(v) && v != F.Null && Sized(v)
    requires At(d, off, AtomBytes(v)) && off + |AtomBytes(v)| <= t.offsetTableOffset
    ensures off < t.offsetTableOffset && F.HeadAt(d, t, off) == F.Leaf(ReadBackAtom(v))
  {
    hide F.IntHead, F.DataHead, F.AsciiHead, F.UnicodeHead, F.UidHead, F.NodeHead,
         IntBytes, BigEndian, UnitBytes, AsciiBytes, UidSize, Unsigned64;
    var last := t.offsetTableOffset - 1;
    match v
    case Int(n) => IntRead(d, off, last, n);
    case WideInt(high, low) => WideIntRead(d, off, last, high, low);
    case Data(bytes) => DataRead(d, off, last, bytes);
    case Str(units) => StrRead(d, t, off, units);
    case Uid(id) => UidRead(d, off, last, id);
    case _ => FixedRead(d, t, off, v);
  }

  lemma StrRead(d: seq<Byte>, t: Trailer, off: nat, units: seq<UInt16>)
    requires F.Layout(d, t) && |units| <= LONG_MAX
    requires At(d, off, AtomBytes(F.Str(units))) && off + |AtomBytes(F.Str(units))| <= t.offsetTableOffset
    ensures off < t.offsetTableOffset && F.HeadAt(d, t, off) == F.Leaf(F.Str(units))
  {
    hide F.IntHead, F.DataHead, F.AsciiHead, F.UnicodeHead, F.UidHead, F.NodeHead, IntBytes, UnitBytes, AsciiBytes;
    var last := t.offsetTableOffset - 1;
    if F.IsAscii(units) { AsciiRead(d, off, last, units); } else { UnicodeRead(d, off, last, units); }
  }

  // ---------- Containers ----------

  /** A file that holds the flattened objects `f`: where each one's bytes are, and that the offset
      table says so. */
  ghost predicate Holds(d: seq<Byte>, t: Trailer, f: Flat, offs: seq<nat>) {
    var refSize := ByteCount(|f.objlist|);
    && F.Layout(d, t)
    && t.numObjects == |f.objlist| == |offs| && t.objectRefSize == refSize
    && Tabled(f) && Closed(f, 0) && AllWritable(f, 0)
    && |f.objlist| < 0x1_0000_0000
    && forall i :: 0 <= i < |offs| ==>
         && F.OffsetOf(d, t, i) == offs[i]
         && 8 <= offs[i]
         && At(d, offs[i], ObjectBytes(f.objlist[i], f.objtable, refSize))
         && offs[i] + |ObjectBytes(f.objlist[i], f.objtable, refSize)| <= t.offsetTableOffset
  }

  /** The least of 1, 2, 4 and 8 bytes that holds a number. */
  lemma ByteCountFits(n: UInt64)
    ensures n < Pow256(ByteCount(n))
    ensures forall size :: size == 1 || size == 2 || size == 4 || size == 8 ==>
              (n < Pow256(size) <==> ByteCount(n) <= size)
  {
    Pow256Values();
  }

  /** Consecutive references lead to the offsets of the objects they number. */
  lemma {:induction false} RefsRead(d: seq<Byte>, t: Trailer, p: nat, refs: seq<nat>)
    requires F.Layout(d, t) && 8 <= p
    requires t.numObjects <= ULLONG_MAX && t.numObjects <= Pow256(t.objectRefSize)
    requires forall i :: 0 <= i < |refs| ==> refs[i] < t.numObjects
    requires At(d, p, Concat(NumberChunks(refs, t.objectRefSize)))
    requires p + |Concat(NumberChunks(refs, t.objectRefSize))| <= t.offsetTableOffset
    ensures forall i :: 0 <= i < |refs| ==> F.RefsAt(d, t, p, |refs|)[i] == F.OffsetOf(d, t, refs[i])
    decreases refs
  {
    hide F.OffsetOf, Pow256, SizedInt, BigEndian;
    if refs != [] {
      var size := t.objectRefSize;
      var first, rest := BigEndian(refs[0], size), NumberChunks(refs[1..], size);
      assert NumberChunks(refs, size)[1..] == rest;
      AtSplit(d, p, first, Concat(rest));
      SizedIntOfBigEndian(refs[0], size);
      RefsRead(d, t, p + size, refs[1..]);
      forall i | 0 < i < |refs| ensures F.RefsAt(d, t, p, |refs|)[i] == F.OffsetOf(d, t, refs[i]) {
        assert F.RefsAt(d, t, p, |refs|)[i] == F.RefsAt(d, t, p + size, |refs| - 1)[i - 1];
      }
    }
  }

  lemma RefsSize(refs: seq<nat>, size: nat)
    ensures |Concat(NumberChunks(refs, size))| == |refs| * size
  {
    EqualChunks(NumberChunks(refs, size), size, 0);
  }

  function ContainerBytes(kind: F.Kind, refs: seq<nat>, size: nat): seq<Byte> {
    CountBytes(ContainerMark(kind), ContainerCount(kind, |refs|)) + Concat(NumberChunks(refs, size))
  }

  lemma NodeRead(d: seq<Byte>, t: Trailer, off: nat, kind: F.Kind, refs: seq<nat>)
    requires F.Layout(d, t) && 8 <= off && |refs| <= LONG_MAX && (kind == F.Dict ==> |refs| % 2 == 0)
    requires t.numObjects <= ULLONG_MAX && t.numObjects <= Pow256(t.objectRefSize)
    requires forall i :: 0 <= i < |refs| ==> refs[i] < t.numObjects
    requires At(d, off, ContainerBytes(kind, refs, t.objectRefSize))
    requires off + |ContainerBytes(kind, refs, t.objectRefSize)| <= t.offsetTableOffset
    ensures off < t.offsetTableOffset
    ensures var h := F.HeadAt(d, t, off);
            h.Node? && h.kind == kind && |h.offs| == |refs|
            && forall i :: 0 <= i < |refs| ==> h.offs[i] == F.OffsetOf(d, t, refs[i])
  {
    hide F.CountAt, F.IntHead, F.DataHead, F.AsciiHead, F.UnicodeHead, F.UidHead, F.RefsAt, F.OffsetOf,
         NumberChunks, Concat, CountBytes, Pow256;
    var size, last := t.objectRefSize, t.offsetTableOffset - 1;
    var marker, count := ContainerMark(kind), ContainerCount(kind, |refs|);
    var head, body := CountBytes(marker, count), Concat(NumberChunks(refs, size));
    AtSplit(d, off, head, body);
    CountRead(d, off, last, marker, count);
    RefsRead(d, t, off + |head|, refs);
    RefsSize(refs, size);
  }

  lemma ContainerRead(d: seq<Byte>, t: Trailer, f: Flat, offs: seq<nat>, k: nat)
    requires Holds(d, t, f, offs) && k < |offs| && f.objlist[k].Container?
    ensures offs[k] < t.offsetTableOffset && F.HeadAt(d, t, offs[k]).Node?
    ensures var o := f.objlist[k];
            var h := F.HeadAt(d, t, offs[k]);
            h.kind == o.kind && |h.offs| == |o.elems|
            && forall i :: 0 <= i < |o.elems| ==> o.elems[i] in f.objtable && h.offs[i] == offs[f.objtable[o.elems[i]]]
  {
    hide F.HeadAt, F.OffsetOf, NumberChunks, Concat, CountBytes, Pow256;
    var o := f.objlist[k];
    assert o in f.objlist && WellFormed(o) && Writable(o) && ElementsTabled(f, o);
    var refs := Refs(o.elems, f.objtable);
    ByteCountFits(|f.objlist|);
    assert ObjectBytes(o, f.objtable, t.objectRefSize) == ContainerBytes(o.kind, refs, t.objectRefSize);
    NodeRead(d, t, offs[k], o.kind, refs);
  }

  /** An object's place stands for exactly the read-back value, provided its dictionary keys are
      primitive, and for nothing otherwise. */
  lemma {:induction false} ObjectMeaning(d: seq<Byte>, t: Trailer, f: Flat, offs: seq<nat>, o: Obj, v: Value)
    requires Holds(d, t, f, offs) && o in f.objtable
    ensures Represents(ObjectsOf(d, t), offs[f.objtable[o]], v) <==> KeysPrimitive(o) && v == ReadBack(o)
    decreases o
  {
    hide F.HeadAt, F.OffsetOf, Concat, Pow256, ObjectBytes;
    var k := f.objtable[o];
    assert o == f.objlist[k] && o in f.objlist;
    match o {
      case Atom(_, w) =>
        AtomPlace(d, t, f, offs, k);
      case Container(_, kind, elems) =>
        ContainerRead(d, t, f, offs, k);
        if v.Coll? && |v.elems| == |elems| {
          forall i | 0 <= i < |elems|
            ensures Represents(ObjectsOf(d, t), offs[f.objtable[elems[i]]], v.elems[i])
                    <==> KeysPrimitive(elems[i]) && v.elems[i] == ReadBack(elems[i])
          {
            ObjectMeaning(d, t, f, offs, elems[i], v.elems[i]);
          }
          CollMeaning(o, v);
        }
    }
  }

  lemma AtomPlace(d: seq<Byte>, t: Trailer, f: Flat, offs: seq<nat>, k: nat)
    requires Holds(d, t, f, offs) && k < |offs| && f.objlist[k].Atom?
    ensures offs[k] < t.offsetTableOffset
    ensures F.HeadAt(d, t, offs[k]) == F.Leaf(ReadBackAtom(f.objlist[k].v))
  {
    hide F.HeadAt, AtomBytes, Concat, Pow256;
    var o := f.objlist[k];
    assert o in f.objlist && WellFormed(o) && Writable(o);
    AtomRead(d, t, offs[k], o.v);
  }

  /** When each element reads as its object and keys are primitive, the collection reads as its object. */
  lemma CollMeaning(o: Obj, v: Value)
    requires WellFormed(o) && o.Container? && v.Coll? && |v.elems| == |o.elems|
    ensures (v.kind == o.kind
             && (forall i :: 0 <= i < |o.elems| ==> KeysPrimitive(o.elems[i]) && v.elems[i] == ReadBack(o.elems[i]))
             && (forall i :: 0 <= i < |o.elems| && IsKey(o.kind, i, |o.elems|) ==> F.Primitive(v.elems[i])))
        <==> KeysPrimitive(o) && v == ReadBack(o)
  {
    forall i | 0 <= i < |o.elems| ensures F.Primitive(ReadBack(o.elems[i])) <==> o.elems[i].Atom? {
      assert o.elems[i] in o.elems && WellFormed(o.elems[i]);
    }
    if v.kind == o.kind && forall i :: 0 <= i < |o.elems| ==> v.elems[i] == ReadBack(o.elems[i]) {
      assert v.elems == ReadBack(o).elems;
    }
  }

  // ---------- The whole file ----------

  lemma TrailerRead(d: seq<Byte>, t: Trailer, front: seq<Byte>)
    requires d == front + TrailerBytes(t)
    requires t.numObjects <= ULLONG_MAX && t.topObject <= ULLONG_MAX && t.offsetTableOffset <= ULLONG_MAX
    ensures |d| >= F.TRAILER_SIZE && TrailerOf(d) == t
  {
    hide BigEndian, SizedInt, Pow256;
    Pow256Values();
    var s, at := TrailerBytes(t), |front|;
    assert d[at..] == s;
    SizedIntOfBigEndian(t.numObjects, 8);
    SizedIntOfBigEndian(t.topObject, 8);
    SizedIntOfBigEndian(t.offsetTableOffset, 8);
    assert d[at + 8..at + 16] == s[8..16] == BigEndian(t.numObjects, 8);
    assert d[at + 16..at + 24] == s[16..24] == BigEndian(t.topObject, 8);
    assert d[at + 24..at + 32] == s[24..32] == BigEndian(t.offsetTableOffset, 8);
    assert d[at + 6] == s[6] && d[at + 7] == s[7];
  }

  /** Every emitted table entry is read as the offset recorded for it. */
  lemma TableRead(d: seq<Byte>, t: Trailer, offs: seq<nat>, i: nat)
    requires F.Layout(d, t) && t.numObjects == |offs| && i < |offs|
    requires At(d, t.offsetTableOffset, Concat(NumberChunks(offs, t.offsetIntSize)))
    requires offs[i] < Pow256(t.offsetIntSize) && offs[i] <= ULLONG_MAX
    ensures F.OffsetOf(d, t, i) == offs[i]
  {
    hide BigEndian, Number, Pow256;
    var chunks := NumberChunks(offs, t.offsetIntSize);
    ChunksAt(d, t.offsetTableOffset, chunks, i);
    EqualChunks(chunks, t.offsetIntSize, t.offsetTableOffset);
    SizedIntOfBigEndian(offs[i], t.offsetIntSize);
  }

  lemma ObjectBytesNonempty(o: Obj, table: map<Obj, nat>, refSize: nat)
    requires Writable(o)
    ensures |ObjectBytes(o, table, refSize)| >= 1
  {
    hide BigEndian, Concat;
  }

  lemma RootFirst(o: Obj)
    requires WellFormed(o) && FewObjects(o)
    ensures var f := Flatten(EMPTY, o);
            |f.objlist| > 0 && o in f.objtable && f.objtable[o] == 0
            && Tabled(f) && Closed(f, 0) && (Supported(o) <==> AllWritable(f, 0))
  {
    FlattenInvariant(EMPTY, o);
    var g := Append(EMPTY, o);
    AppendInvariant(EMPTY, o);
    if o.Container? && o.kind != F.Set {
      FlattenGrows(EMPTY, o);
      FlattenAllInvariant(g, o.elems);
    }
  }

  /** Where the parts of an image stand. */
  lemma ImageParts(im: Image)
    requires im.trailer.offsetTableOffset == 8 + |im.objects| && im.trailer.numObjects == |im.offsets|
    ensures var d := im.Bytes();
            var t := im.trailer;
            At(d, 8, im.objects)
            && At(d, t.offsetTableOffset, Concat(NumberChunks(im.offsets, t.offsetIntSize)))
            && d[..8] == F.HEADER
            && |d| == t.offsetTableOffset + t.numObjects * t.offsetIntSize + F.TRAILER_SIZE
            && t.offsetTableOffset + F.TRAILER_SIZE <= |d|
  {
    hide TrailerBytes, NumberChunks, Concat;
    var d, t := im.Bytes(), im.trailer;
    var table, trailer := Concat(NumberChunks(im.offsets, t.offsetIntSize)), TrailerBytes(t);
    AtSplit(d, 0, F.HEADER + im.objects + table, trailer);
    AtSplit(d, 0, F.HEADER + im.objects, table);
    AtSplit(d, 0, F.HEADER, im.objects);
    RefsSize(im.offsets, t.offsetIntSize);
  }

  /** Every file the writer emits holds the flattened objects and passes every check on the trailer. */
  lemma ImageAccepted(o: Obj)
    requires WellFormed(o) && Supported(o) && FewObjects(o) && |ImageOf(o).Bytes()| <= LONG_MAX
    ensures var d := ImageOf(o).Bytes();
            Accepted(d) && TrailerOf(d) == ImageOf(o).trailer
            && Holds(d, TrailerOf(d), Flatten(EMPTY, o), ImageOf(o).offsets)
  {
    hide TrailerBytes, NumberChunks, Concat, Starts, ObjectBytes, Flatten, Pow256, F.OffsetOf;
    var im, f := ImageOf(o), Flatten(EMPTY, o);
    var d, t, offs := im.Bytes(), im.trailer, im.offsets;
    var chunks := ObjectChunks(f.objlist, f.objtable, t.objectRefSize);
    RootFirst(o);
    ImageParts(im);
    TrailerRead(d, t, F.HEADER + im.objects + Concat(NumberChunks(offs, t.offsetIntSize)));
    ByteCountFits(|f.objlist|);
    ByteCountFits(t.offsetTableOffset);
    forall i | 0 <= i < |offs|
      ensures 8 <= offs[i] < t.offsetTableOffset && At(d, offs[i], chunks[i])
      ensures offs[i] + |chunks[i]| <= t.offsetTableOffset
    {
      ChunksAt(d, 8, chunks, i);
      ObjectBytesNonempty(f.objlist[i], f.objtable, t.objectRefSize);
    }
    assert 9 <= t.offsetTableOffset by { assert offs[0] >= 8; }
    assert F.Layout(d, t);
    forall i | 0 <= i < |offs| ensures F.OffsetOf(d, t, i) == offs[i] {
      TableRead(d, t, offs, i);
    }
  }

  lemma {:induction false} StartsApart(chunks: seq<seq<Byte>>, start: nat, i: nat, j: nat)
    requires i < j < |chunks| && forall k :: 0 <= k < |chunks| ==> 0 < |chunks[k]|
    ensures start <= Starts(chunks, start)[i] < Starts(chunks, start)[j]
  {
    if i > 0 {
      StartsApart(chunks[1..], start + |chunks[0]|, i - 1, j - 1);
    } else if j > 1 {
      StartsApart(chunks[1..], start + |chunks[0]|, 0, j - 1);
    }
  }

  /** Recorded offsets ascend, and at each of them stands the object of that number. */
  lemma OffsetsAscend(o: Obj, i: nat, j: nat)
    requires WellFormed(o) && Supported(o) && FewObjects(o) && |ImageOf(o).Bytes()| <= LONG_MAX
    requires i < j < |ImageOf(o).offsets|
    ensures 8 <= ImageOf(o).offsets[i] < ImageOf(o).offsets[j]
    ensures var f := Flatten(EMPTY, o);
      At(ImageOf(o).Bytes(), ImageOf(o).offsets[i],
         ObjectBytes(f.objlist[i], f.objtable, ImageOf(o).trailer.objectRefSize))
  {
    hide Flatten, ObjectBytes, Concat, Starts, NumberChunks, TrailerBytes, Accepted;
    var f := Flatten(EMPTY, o);
    ImageAccepted(o);
    RootFirst(o);
    var chunks := ObjectChunks(f.objlist, f.objtable, ByteCount(|f.objlist|));
    forall k | 0 <= k < |chunks| ensures 0 < |chunks[k]| {
      assert f.objlist[k] in f.objlist;
      ObjectBytesNonempty(f.objlist[k], f.objtable, ByteCount(|f.objlist|));
    }
    StartsApart(chunks, 8, i, j);
  }

  /** Reading back what was written: the same property list, for every object graph whose dictionary
      keys are primitive; a file with any other key is refused. */
  lemma RoundTrip(o: Obj)
    requires WellFormed(o) && Supported(o) && FewObjects(o) && |ImageOf(o).Bytes()| <= LONG_MAX
    ensures ReadPlist(ImageOf(o).Bytes()) == if KeysPrimitive(o) then Some(ReadBack(o)) else None
  {
    hide Flatten, F.HeadAt, F.OffsetOf, Decode, Represents;
    var d, f := ImageOf(o).Bytes(), Flatten(EMPTY, o);
    ImageAccepted(o);
    RootFirst(o);
    var t, offs := TrailerOf(d), ImageOf(o).offsets;
    var g := ObjectsOf(d, t);
    DecodeIsMeaning(g, offs[0], None, 0);
    ObjectMeaning(d, t, f, offs, o, ReadBack(o));
    MeaningIs(g, offs[0], ReadBack(o));
    if Meaning(g, offs[0]).Some? {
      MeaningIs(g, offs[0], Meaning(g, offs[0]).value);
      ObjectMeaning(d, t, f, offs, o, Meaning(g, offs[0]).value);
    }
  }

  /** The round trip is exact precisely when, besides, no 128-bit integer needs its high half. */
  lemma RoundTripExact(o: Obj)
    requires WellFormed(o) && Supported(o) && FewObjects(o) && |ImageOf(o).Bytes()| <= LONG_MAX
    ensures ReadPlist(ImageOf(o).Bytes()) == Some(Contents(o)) <==> KeysPrimitive(o) && NarrowInts(o)
  {
    RoundTrip(o);
    ReadBackIsContents(o);
  }

  // ---------- Two lists that do not come back ----------

  /** A dictionary with an empty array for its only key. */
  const KEYED_BY_ARRAY: Obj := Container(0, F.Dict, [Container(1, F.Array, []), Atom(2, F.Bool(true))])

  lemma KeyedFlat()
    ensures var f := Flatten(EMPTY, KEYED_BY_ARRAY);
      f.objlist == [KEYED_BY_ARRAY, Container(1, F.Array, []), Atom(2, F.Bool(true))]
  {
    var o, key, value := KEYED_BY_ARRAY, Container(1, F.Array, []), Atom(2, F.Bool(true));
    var f := Append(EMPTY, o);
    var g := Append(f, key);
    assert Flatten(f, key) == FlattenAll(g, []) == g;
    assert o.elems[1..] == [value] && [value][1..] == [];
    assert FlattenAll(g, [value]) == FlattenAll(Flatten(g, value), []) == Append(g, value);
    assert FlattenAll(f, o.elems) == FlattenAll(g, [value]);
  }

  /** The length of a file with at most three objects of a few bytes each. */
  lemma SmallFile(o: Obj, n: nat)
    requires |Flatten(EMPTY, o).objlist| <= 3 && n <= 20
    requires var f := Flatten(EMPTY, o);
      forall k :: 0 <= k < |f.objlist| ==> |ObjectBytes(f.objlist[k], f.objtable, 1)| <= n
    ensures FewObjects(o) && |ImageOf(o).Bytes()| <= LONG_MAX
  {
    hide Flatten, ObjectBytes, TrailerBytes, NumberChunks;
    var f := Flatten(EMPTY, o);
    ShortChunks(ObjectChunks(f.objlist, f.objtable, 1), n);
    var image := ImageOf(o);
    NumberChunksAre(image.offsets, image.trailer.offsetIntSize);
    ShortChunks(NumberChunks(image.offsets, image.trailer.offsetIntSize), 8);
  }

  lemma NumberChunksAre(ns: seq<nat>, size: nat)
    ensures forall k :: 0 <= k < |ns| ==> |NumberChunks(ns, size)[k]| == size
  {
  }

  lemma ShortChunks(chunks: seq<seq<Byte>>, n: nat)
    requires |chunks| <= 3 && forall k :: 0 <= k < |chunks| ==> |chunks[k]| <= n
    ensures |Concat(chunks)| <= 3 * n
  {
    if |chunks| > 0 { assert Concat(chunks) == chunks[0] + Concat(chunks[1..]); }
    if |chunks| > 1 { assert Concat(chunks[1..]) == chunks[1] + Concat(chunks[1..][1..]); }
    if |chunks| > 2 { assert Concat(chunks[1..][1..]) == chunks[2] + Concat(chunks[1..][1..][1..]); }
  }

  /** It is written, and what is written is refused. */
  lemma KeyedByArrayIsRefused()
    ensures WellFormed(KEYED_BY_ARRAY) && Supported(KEYED_BY_ARRAY)
    ensures ReadPlist(ImageOf(KEYED_BY_ARRAY).Bytes()) == None
  {
    hide Flatten, ReadPlist, ImageOf;
    KeyedFlat();
    KeyedBytes(Flatten(EMPTY, KEYED_BY_ARRAY).objtable);
    SmallFile(KEYED_BY_ARRAY, 3);
    assert IsKey(F.Dict, 0, 2) && !KEYED_BY_ARRAY.elems[0].Atom?;
    RoundTrip(KEYED_BY_ARRAY);
  }

  lemma KeyedBytes(table: map<Obj, nat>)
    ensures |ObjectBytes(KEYED_BY_ARRAY, table, 1)| <= 3 && |ObjectBytes(Container(1, F.Array, []), table, 1)| <= 3
    ensures |ObjectBytes(Atom(2, F.Bool(true)), table, 1)| <= 3
  {
    var refs := Refs(KEYED_BY_ARRAY.elems, table);
    NumberChunksAre(refs, 1);
    PairLength(NumberChunks(refs, 1));
    assert Concat([]) == [];
  }

  /** A dictionary with an empty array for its only value, under the key "a". */
  const HOLDING_ARRAY: Obj := Container(0, F.Dict, [Atom(1, F.Str([0x61])), Container(2, F.Array, [])])

  /** A collection may be a value: this one is written, and what is written is read. */
  lemma ArrayAsValueIsRead()
    ensures WellFormed(HOLDING_ARRAY) && Supported(HOLDING_ARRAY)
    ensures ReadPlist(ImageOf(HOLDING_ARRAY).Bytes())
         == Some(F.Coll(F.Dict, [F.Str([0x61]), F.Coll(F.Array, [])]))
  {
    hide Flatten, ReadPlist, ImageOf;
    var o := HOLDING_ARRAY;
    HoldingFlat();
    HoldingBytes(Flatten(EMPTY, o).objtable);
    SmallFile(o, 3);
    RoundTrip(o);
    assert ReadBack(o).elems == [ReadBack(o.elems[0]), ReadBack(o.elems[1])];
    assert ReadBack(o.elems[1]).elems == [];
  }

  lemma HoldingFlat()
    ensures var f := Flatten(EMPTY, HOLDING_ARRAY);
      f.objlist == [HOLDING_ARRAY, Atom(1, F.Str([0x61])), Container(2, F.Array, [])]
  {
    var o, key, value := HOLDING_ARRAY, Atom(1, F.Str([0x61])), Container(2, F.Array, []);
    var f := Append(EMPTY, o);
    var g := Append(f, key);
    var h := Append(g, value);
    assert o.elems[1..] == [value] && [value][1..] == [];
    assert Flatten(f, key) == g;
    assert Flatten(g, value) == FlattenAll(h, []) == h;
    assert FlattenAll(g, [value]) == FlattenAll(h, []) == h;
    assert FlattenAll(f, o.elems) == FlattenAll(g, [value]);
  }

  lemma HoldingBytes(table: map<Obj, nat>)
    ensures |ObjectBytes(HOLDING_ARRAY, table, 1)| <= 3 && |ObjectBytes(Container(2, F.Array, []), table, 1)| <= 3
    ensures |ObjectBytes(Atom(1, F.Str([0x61])), table, 1)| <= 3
  {
    var refs := Refs(HOLDING_ARRAY.elems, table);
    NumberChunksAre(refs, 1);
    PairLength(NumberChunks(refs, 1));
    assert Concat([]) == [];
  }

  lemma PairLength(chunks: seq<seq<Byte>>)
    requires |chunks| == 2 && |chunks[0]| == |chunks[1]| == 1
    ensures |Concat(chunks)| == 2
  {
    assert Concat(chunks[1..]) == chunks[1] + Concat(chunks[1..][1..]);
  }

  /** The integer 2^64 comes back as 0. */
  lemma WideIntegerIsCut()
    ensures var o := Atom(0, F.WideInt(1, 0));
      WellFormed(o) && Supported(o) && ReadPlist(ImageOf(o).Bytes()) == Some(F.WideInt(0, 0))
  {
    var o := Atom(0, F.WideInt(1, 0));
    assert Flatten(EMPTY, o).objlist == [o];
    SmallFile(o, 17);
    RoundTrip(o);
  }
}
