/** The binary property list format in numbers: what each byte of a file says, stated apart from the
    reader and the writer, and proved of both. */
module PlistTable {
  import opened Bytes
  import Capacities
  import F = PlistFormat
  import opened PlistGraph
  import opened PlistReader
  import opened PlistRoundTrip
  import opened PlistWriter

  // ---------- Numbers ----------

  /** Big-endian: the last byte has the units, the one before it the 256s, and so on. */
  predicate Spells(s: seq<Byte>, n: nat) {
    forall i :: 0 <= i < |s| ==> s[i] == n / Pow256(|s| - 1 - i) % 256
  }

  lemma DivideTwice(n: nat, p: nat)
    requires p > 0
    ensures n / 256 / p == n / (256 * p)
  {
    var q, r := n / 256 / p, n / 256 % p;
    assert n == 256 * (n / 256) + n % 256;
    assert n / 256 == p * q + r;
    assert 256 * (p * q) == 256 * p * q;
    assert n == 256 * p * q + (256 * r + n % 256);
    Quotient(n, 256 * p, q, 256 * r + n % 256);
  }

  lemma Quotient(n: nat, p: nat, q: nat, r: nat)
    requires p > 0 && n == p * q + r && r < p
    ensures n / p == q
  {
    var k := n / p;
    assert n == p * k + n % p;
    if k < q { MulMonotonic(k + 1, q, p); }
    if q < k { MulMonotonic(q + 1, k, p); }
  }

  lemma {:induction false} BigEndianSpells(n: nat, size: nat)
    ensures Spells(BigEndian(n, size), n)
  {
    if size > 0 {
      BigEndianSpells(n / 256, size - 1);
      var s := BigEndian(n, size);
      forall i | 0 <= i < |s| ensures s[i] == n / Pow256(|s| - 1 - i) % 256 {
        if i < size - 1 {
          assert s[i] == BigEndian(n / 256, size - 1)[i];
          DivideTwice(n, Pow256(size - 2 - i));
        }
      }
    }
  }

  // ---------- Objects as they are written ----------

  /** An unsigned number: 0001 00nn and 1, 2, 4 or 8 bytes, as few as hold it. */
  predicate IntRow(n: UInt64, s: seq<Byte>) {
    if n < 0x100 then s == [0x10, n]
    else if n < 0x1_0000 then |s| == 3 && s[0] == 0x11 && Spells(s[1..], n)
    else if n < 0x1_0000_0000 then |s| == 5 && s[0] == 0x12 && Spells(s[1..], n)
    else |s| == 9 && s[0] == 0x13 && Spells(s[1..], n)
  }

  /** A marker with a count in its low half, or 1111 there and the count as a number, and then `body`. */
  predicate Counted(mark: nat, n: UInt64, s: seq<Byte>, body: seq<Byte>) {
    && |body| < |s| && s[|s| - |body|..] == body
    && s[0] == mark + (if n < 15 then n else 15)
    && (if n < 15 then |s| == |body| + 1 else IntRow(n, s[1..|s| - |body|]))
  }

  /** A 64-bit word for a signed number. */
  function TwosComplement(v: Int64): UInt64 {
    if v < 0 then 0x1_0000_0000_0000_0000 + v else v
  }

  predicate AtomRow(v: Value, s: seq<Byte>) {
    match v
    case Null => false
    case Bool(b) => s == [if b then 0x09 else 0x08]
    case Int(n) => IntRow(TwosComplement(n), s)
    case WideInt(high, low) =>
      |s| == 17 && s[0] == 0x14 && Spells(s[1..9], TwosComplement(high)) && Spells(s[9..], low)
    case Real32(payload) => s == [0x22] + payload
    case Real64(payload) => s == [0x23] + payload
    case Date(payload) => s == [0x33] + payload
    case Data(bytes) => |bytes| <= LONG_MAX && Counted(0x40, |bytes|, s, bytes)
    case Str(units) =>
      && |units| <= LONG_MAX
      && if forall i :: 0 <= i < |units| ==> units[i] < 0x80
         then |units| < |s| && Counted(0x50, |units|, s, s[|s| - |units|..])
              && forall i :: 0 <= i < |units| ==> s[|s| - |units| + i] == units[i]
         else 2 * |units| < |s| && Counted(0x60, |units|, s, s[|s| - 2 * |units|..])
              && UnitRow(units, s[|s| - 2 * |units|..])
    case Uid(id) =>
      if id < 0x100 then s == [0x80, id]
      else if id < 0x1_0000 then |s| == 3 && s[0] == 0x81 && Spells(s[1..], id)
      else |s| == 5 && s[0] == 0x83 && Spells(s[1..], id)
    case Coll(_, _) => false
  }

  /** Two bytes for each unit, the high one first. */
  predicate UnitRow(units: seq<UInt16>, s: seq<Byte>) {
    |s| == 2 * |units| && forall i :: 0 <= i < |units| ==> s[2 * i] == units[i] / 256 && s[2 * i + 1] == units[i] % 256
  }

  lemma {:induction false} UnitBytesRow(units: seq<UInt16>)
    ensures UnitRow(units, UnitBytes(units))
  {
    if units != [] {
      UnitBytesRow(units[1..]);
      var s, rest := UnitBytes(units), UnitBytes(units[1..]);
      forall i | 0 <= i < |units| ensures s[2 * i] == units[i] / 256 && s[2 * i + 1] == units[i] % 256 {
        if i > 0 { assert s[2 * i] == rest[2 * (i - 1)] && s[2 * i + 1] == rest[2 * (i - 1) + 1]; }
      }
    }
  }

  lemma IntBytesRow(n: UInt64)
    ensures IntRow(n, IntBytes(n))
  {
    hide Spells;
    var s := IntBytes(n);
    BigEndianSpells(n, |s| - 1);
    assert s[1..] == BigEndian(n, |s| - 1);
    if n < 0x100 { assert BigEndian(n, 1) == BigEndian(n / 256, 0) + [n]; }
  }

  lemma CountBytesRow(marker: Marker, n: UInt64, body: seq<Byte>)
    ensures Counted(marker, n, CountBytes(marker, n) + body, body)
  {
    hide IntRow;
    var s := CountBytes(marker, n) + body;
    if n >= 15 {
      IntBytesRow(n);
      assert s[1..|s| - |body|] == IntBytes(n);
    }
  }

  /** Every atom is written as the table says. */
  lemma AtomBytesRow(v: Value)
    requires F.Primitive(v) && v != F.Null && Sized(v)
    ensures AtomRow(v, AtomBytes(v))
  {
    hide IntRow, Counted, Spells, UnitRow, CountBytes, IntBytes, BigEndian;
    match v
    case Int(n) => IntBytesRow(Unsigned64(n));
    case WideInt(high, low) =>
      var s := AtomBytes(v);
      BigEndianSpells(Unsigned64(high), 8);
      BigEndianSpells(low, 8);
      assert s[1..9] == BigEndian(Unsigned64(high), 8) && s[9..] == BigEndian(low, 8);
    case Data(bytes) => CountBytesRow(F.DATA_MARK, |bytes|, bytes);
    case Str(units) => StrBytesRow(units);
    case Uid(id) => UidBytesRow(id);
    case _ =>
  }

  lemma StrBytesRow(units: seq<UInt16>)
    requires |units| <= LONG_MAX
    ensures AtomRow(F.Str(units), AtomBytes(F.Str(units)))
  {
    hide Counted, UnitRow, CountBytes;
    var s := AtomBytes(F.Str(units));
    if F.IsAscii(units) {
      var body := AsciiBytes(units);
      CountBytesRow(F.ASCII_MARK, |units|, body);
      CountedLonger(F.ASCII_MARK, |units|, s, body);
      assert s[|s| - |units|..] == body;
      forall i | 0 <= i < |units| ensures s[|s| - |units| + i] == units[i] { assert body[i] == units[i]; }
    } else {
      var body := UnitBytes(units);
      CountBytesRow(F.UNICODE_MARK, |units|, body);
      CountedLonger(F.UNICODE_MARK, |units|, s, body);
      UnitBytesRow(units);
      assert s[|s| - 2 * |units|..] == body;
    }
  }

  lemma CountedLonger(mark: nat, n: UInt64, s: seq<Byte>, body: seq<Byte>)
    requires Counted(mark, n, s, body)
    ensures |body| < |s|
  {
  }

  lemma UidBytesRow(id: UInt32)
    ensures AtomRow(F.Uid(id), AtomBytes(F.Uid(id)))
  {
    hide Spells;
    var s := AtomBytes(F.Uid(id));
    BigEndianSpells(id, UidSize(id));
    assert s[1..] == BigEndian(id, UidSize(id));
    if id < 0x100 { assert BigEndian(id, 1) == BigEndian(id / 256, 0) + [id]; }
  }

  // ---------- Containers ----------

  /** The reference to an element: the number of its first place in the list of objects. */
  ghost predicate RefersTo(o: Obj, objlist: seq<Obj>, s: seq<Byte>) {
    exists r: nat :: r < |objlist| && objlist[r] == o && o !in objlist[..r] && Spells(s, r)
  }

  function Chunk(s: seq<Byte>, i: nat, size: nat): seq<Byte> {
    if i * size + size <= |s| then s[i * size..i * size + size] else []
  }

  /** One reference of `size` bytes for each element. */
  ghost predicate RefRow(elems: seq<Obj>, objlist: seq<Obj>, size: nat, s: seq<Byte>) {
    |s| == |elems| * size && forall i :: 0 <= i < |elems| ==> RefersTo(elems[i], objlist, Chunk(s, i, size))
  }

  /** The bytes of one listed object. A dictionary is counted in pairs. */
  ghost predicate ObjectRow(o: Obj, objlist: seq<Obj>, size: nat, s: seq<Byte>) {
    match o
    case Atom(_, v) => AtomRow(v, s)
    case Container(_, kind, elems) =>
      && |elems| <= LONG_MAX && |elems| * size < |s|
      && var refs := s[|s| - |elems| * size..];
      && RefRow(elems, objlist, size, refs)
      && match kind
         case Array => Counted(0xA0, |elems|, s, refs)
         case Dict => Counted(0xD0, |elems| / 2, s, refs)
         case Set => false
  }

  /** The table numbers each listed object by its first place. */
  predicate FirstPlaces(f: Flat) {
    && (forall x :: x in f.objlist ==> x in f.objtable)
    && forall x :: x in f.objtable ==> f.objtable[x] < |f.objlist| && x !in f.objlist[..f.objtable[x]]
  }

  lemma {:induction false} FlattenFirstPlaces(f: Flat, o: Obj)
    requires FirstPlaces(f) && |Flatten(f, o).objlist| <= 0x1_0000_0000
    ensures FirstPlaces(Flatten(f, o))
    decreases o, 1
  {
    if !(Uniqued(o) && o in f.uniquingset) {
      FlattenGrows(f, o);
      AppendFirstPlaces(f, o);
      if o.Container? && o.kind != F.Set { FlattenAllFirstPlaces(Append(f, o), o.elems); }
    }
  }

  lemma AppendFirstPlaces(f: Flat, o: Obj)
    requires FirstPlaces(f) && |f.objlist| < 0x1_0000_0000
    ensures FirstPlaces(Append(f, o))
  {
    hide Uniqued;
    var g := Append(f, o);
    forall x | x in g.objtable ensures g.objtable[x] < |g.objlist| && x !in g.objlist[..g.objtable[x]] {
      assert g.objlist[..g.objtable[x]] == f.objlist[..g.objtable[x]];
    }
  }

  lemma {:induction false} FlattenAllFirstPlaces(f: Flat, os: seq<Obj>)
    requires FirstPlaces(f) && |FlattenAll(f, os).objlist| <= 0x1_0000_0000
    ensures FirstPlaces(FlattenAll(f, os))
    decreases os, 0
  {
    if os != [] {
      FlattenAllGrows(Flatten(f, os[0]), os[1..]);
      FlattenFirstPlaces(f, os[0]);
      FlattenAllFirstPlaces(Flatten(f, os[0]), os[1..]);
    }
  }

  /** Numbers of one size, one after the other. */
  lemma ChunksSpell(ns: seq<nat>, size: nat, i: nat)
    requires i < |ns|
    ensures var s := Concat(NumberChunks(ns, size));
      |s| == |ns| * size && i * size + size <= |s| && Spells(Chunk(s, i, size), ns[i])
  {
    hide Spells;
    var chunks := NumberChunks(ns, size);
    var s := Concat(chunks);
    assert s[0..|s|] == s;
    ChunksAt(s, 0, chunks, i);
    EqualChunks(chunks, size, 0);
    BigEndianSpells(ns[i], size);
  }

  lemma RefBytesRow(f: Flat, elems: seq<Obj>, size: nat)
    requires Tabled(f) && FirstPlaces(f) && forall e :: e in elems ==> e in f.objtable
    ensures RefRow(elems, f.objlist, size, Concat(NumberChunks(Refs(elems, f.objtable), size)))
  {
    hide Spells, NumberChunks, Concat;
    var refs := Refs(elems, f.objtable);
    var s := Concat(NumberChunks(refs, size));
    RefsSize(refs, size);
    forall i | 0 <= i < |elems| ensures RefersTo(elems[i], f.objlist, Chunk(s, i, size)) {
      assert elems[i] in elems;
      ChunksSpell(refs, size, i);
    }
  }

  lemma ObjectBytesRow(f: Flat, o: Obj, size: nat)
    requires Tabled(f) && FirstPlaces(f) && ElementsTabled(f, o) && WellFormed(o) && Writable(o)
    ensures ObjectRow(o, f.objlist, size, ObjectBytes(o, f.objtable, size))
  {
    hide AtomRow, AtomBytes, RefRow, Counted, CountBytes, NumberChunks, Concat;
    match o
    case Atom(_, v) => AtomBytesRow(v);
    case Container(_, kind, elems) =>
      var refs := Concat(NumberChunks(Refs(elems, f.objtable), size));
      RefsSize(Refs(elems, f.objtable), size);
      RefBytesRow(f, elems, size);
      var mark, n := ContainerMark(kind), ContainerCount(kind, |elems|);
      CountBytesRow(mark, n, refs);
      var s := CountBytes(mark, n) + refs;
      CountedLonger(mark, n, s, refs);
      assert s[|s| - |elems| * size..] == refs;
  }

  // ---------- The whole file ----------

  /** As few bytes as hold a number. */
  predicate FewestBytes(n: nat, size: nat) {
    if n < 0x100 then size == 1
    else if n < 0x1_0000 then size == 2
    else if n < 0x1_0000_0000 then size == 4
    else size == 8
  }

  /** The header, and in the last 32 bytes the sizes of offsets and references, how many objects there
      are, which of them is the top one, and where the table of offsets begins. */
  predicate FrameRow(d: seq<Byte>, n: nat, end: nat, offSize: nat, refSize: nat) {
    && 41 <= |d| == end + n * offSize + 32 && 8 <= end && end + 32 <= |d|
    && d[..8] == [0x62, 0x70, 0x6C, 0x69, 0x73, 0x74, 0x30, 0x30]
    && FewestBytes(end, offSize) && FewestBytes(n, refSize)
    && var tail := d[|d| - 32..];
    && tail[..8] == [0, 0, 0, 0, 0, 0, offSize, refSize]
    && Spells(tail[8..16], n) && Spells(tail[16..24], 0) && Spells(tail[24..], end)
  }

  /** Header, objects one after the other, table of their offsets, trailer. */
  ghost predicate FileRow(d: seq<Byte>, objlist: seq<Obj>, offs: seq<nat>, end: nat, offSize: nat, refSize: nat) {
    && FrameRow(d, |objlist|, end, offSize, refSize)
    && |offs| == |objlist| > 0 && offs[0] == 8
    && forall i :: 0 <= i < |objlist| ==> PlaceRow(d, objlist, offs, i, end, offSize, refSize)
  }

  /** One object and its entry in the table. The object ends where the next one or the table begins. */
  ghost predicate PlaceRow(d: seq<Byte>, objlist: seq<Obj>, offs: seq<nat>, i: nat, end: nat, offSize: nat, refSize: nat)
    requires i < |objlist| == |offs| && end + 32 <= |d|
  {
    var next := if i + 1 < |objlist| then offs[i + 1] else end;
    && Spells(Chunk(d[end..|d| - 32], i, offSize), offs[i])
    && offs[i] <= next <= |d|
    && ObjectRow(objlist[i], objlist, refSize, d[offs[i]..next])
  }

  /** What the writer emits, byte by byte. */
  lemma WrittenFile(o: Obj)
    requires WellFormed(o) && Supported(o) && FewObjects(o) && |ImageOf(o).Bytes()| <= LONG_MAX
    ensures var im := ImageOf(o);
      FileRow(im.Bytes(), Flatten(EMPTY, o).objlist, im.offsets,
              im.trailer.offsetTableOffset, im.trailer.offsetIntSize, im.trailer.objectRefSize)
  {
    hide Flatten, FrameRow, PlaceRow, ObjectBytes, NumberChunks, TrailerBytes, Concat, Accepted, F.OffsetOf, Pow256,
         Tabled, Closed, AllWritable, FirstPlaces, Supported, WellFormed;
    var im, f := ImageOf(o), Flatten(EMPTY, o);
    var d, t, offs := im.Bytes(), im.trailer, im.offsets;
    ImageAccepted(o);
    RootFirst(o);
    FlattenFirstPlaces(EMPTY, o);
    ImageParts(im);
    WrittenFrame(im);
    forall i | 0 <= i < |offs|
      ensures PlaceRow(d, f.objlist, offs, i, t.offsetTableOffset, t.offsetIntSize, t.objectRefSize)
    {
      WrittenPlace(d, t, f, offs, i);
    }
  }

  lemma WrittenFrame(im: Image)
    requires im.trailer.offsetTableOffset == 8 + |im.objects| && im.trailer.numObjects == |im.offsets|
    requires im.trailer.topObject == 0 && 1 <= |im.objects|
    requires im.trailer.offsetIntSize == ByteCount(im.trailer.offsetTableOffset)
    requires im.trailer.objectRefSize == ByteCount(im.trailer.numObjects)
    ensures var t := im.trailer;
      FrameRow(im.Bytes(), t.numObjects, t.offsetTableOffset, t.offsetIntSize, t.objectRefSize)
  {
    hide Spells, TrailerBytes, NumberChunks, Concat;
    ImageParts(im);
    TrailerSpells(im.trailer);
    var d := im.Bytes();
    assert d[|d| - 32..] == TrailerBytes(im.trailer);
  }

  lemma WrittenPlace(d: seq<Byte>, t: Trailer, f: Flat, offs: seq<nat>, i: nat)
    requires Holds(d, t, f, offs) && FirstPlaces(f) && i < |offs|
    requires var chunks := ObjectChunks(f.objlist, f.objtable, t.objectRefSize);
      offs == Starts(chunks, 8) && t.offsetTableOffset == 8 + |Concat(chunks)|
    requires At(d, t.offsetTableOffset, Concat(NumberChunks(offs, t.offsetIntSize)))
    ensures PlaceRow(d, f.objlist, offs, i, t.offsetTableOffset, t.offsetIntSize, t.objectRefSize)
  {
    hide ObjectRow, ObjectBytes, NumberChunks, Concat, Starts, Spells, F.OffsetOf, Pow256;
    var table := Concat(NumberChunks(offs, t.offsetIntSize));
    ChunksSpell(offs, t.offsetIntSize, i);
    assert d[t.offsetTableOffset..|d| - 32] == table;
    var o, chunks := f.objlist[i], ObjectChunks(f.objlist, f.objtable, t.objectRefSize);
    StartsNext(chunks, 8, i);
    assert o in f.objlist && WellFormed(o) && Writable(o) && ElementsTabled(f, o);
    ObjectBytesRow(f, o, t.objectRefSize);
    assert chunks[i] == ObjectBytes(o, f.objtable, t.objectRefSize);
  }

  lemma TrailerSpells(t: Trailer)
    ensures var s := TrailerBytes(t);
      && |s| == 32 && s[..8] == [0, 0, 0, 0, 0, 0, t.offsetIntSize, t.objectRefSize]
      && Spells(s[8..16], t.numObjects) && Spells(s[16..24], t.topObject) && Spells(s[24..], t.offsetTableOffset)
  {
    hide Spells, BigEndian;
    var s := TrailerBytes(t);
    BigEndianSpells(t.numObjects, 8);
    BigEndianSpells(t.topObject, 8);
    BigEndianSpells(t.offsetTableOffset, 8);
    assert s[8..16] == BigEndian(t.numObjects, 8);
    assert s[16..24] == BigEndian(t.topObject, 8);
    assert s[24..] == BigEndian(t.offsetTableOffset, 8);
  }

  /** One chunk ends where the next begins. */
  lemma {:induction false} StartsNext(chunks: seq<seq<Byte>>, start: nat, i: nat)
    requires i < |chunks|
    ensures Starts(chunks, start)[0] == start
    ensures Starts(chunks, start)[i] + |chunks[i]|
            == if i + 1 < |chunks| then Starts(chunks, start)[i + 1] else start + |Concat(chunks)|
    decreases i
  {
    if i > 0 { StartsNext(chunks[1..], start + |chunks[0]|, i - 1); }
  }

  // ---------- The list of objects ----------

  /** An object, then what its elements contain, one element after the other. A set is not entered. */
  function Preorder(o: Obj): seq<Obj>
    decreases o, 1
  {
    [o] + if o.Container? && o.kind != F.Set then PreorderAll(o.elems) else []
  }

  function PreorderAll(os: seq<Obj>): seq<Obj>
    decreases os, 0
  {
    if os == [] then [] else Preorder(os[0]) + PreorderAll(os[1..])
  }

  predicate ListedOnce(o: Obj) {
    o.Atom? && match o.v
               case Null | Bool(_) | Uid(_) | Coll(_, _) => false
               case Int(_) | WideInt(_, _) | Real32(_) | Real64(_) | Date(_) | Data(_) | Str(_) => true
  }

  /** Without the later occurrences of objects that are listed once. */
  function Firsts(os: seq<Obj>): seq<Obj> {
    if os == [] then []
    else
      var front, last := os[..|os| - 1], os[|os| - 1];
      Firsts(front) + if ListedOnce(last) && last in front then [] else [last]
  }

  /** Having walked over `walked`, the flattened list has its first occurrences. */
  ghost predicate Listed(f: Flat, walked: seq<Obj>) {
    f.objlist == Firsts(walked) && forall x :: x in f.uniquingset <==> ListedOnce(x) && x in walked
  }

  lemma {:induction false} FlattenLists(f: Flat, o: Obj, walked: seq<Obj>)
    requires Listed(f, walked)
    ensures Listed(Flatten(f, o), walked + Preorder(o))
    decreases o, 1
  {
    hide Firsts;
    OneMoreListed(f, o, walked);
    if o.Container? && o.kind != F.Set {
      FlattenAllLists(Append(f, o), o.elems, walked + [o]);
      assert (walked + [o]) + PreorderAll(o.elems) == walked + Preorder(o);
    } else {
      assert walked + [o] == walked + Preorder(o);
    }
  }

  lemma OneMoreListed(f: Flat, o: Obj, walked: seq<Obj>)
    requires Listed(f, walked)
    ensures Listed(if Uniqued(o) && o in f.uniquingset then f else Append(f, o), walked + [o])
  {
    hide Uniqued, ListedOnce;
    UniquedIsListedOnce(o);
    assert (walked + [o])[..|walked|] == walked;
    assert Firsts(walked + [o]) == Firsts(walked) + if ListedOnce(o) && o in walked then [] else [o];
  }

  lemma UniquedIsListedOnce(o: Obj)
    ensures Uniqued(o) == ListedOnce(o)
  {
  }

  lemma {:induction false} FlattenAllLists(f: Flat, os: seq<Obj>, walked: seq<Obj>)
    requires Listed(f, walked)
    ensures Listed(FlattenAll(f, os), walked + PreorderAll(os))
    decreases os, 0
  {
    hide Firsts;
    if os == [] {
      assert walked + PreorderAll(os) == walked;
    } else {
      FlattenLists(f, os[0], walked);
      FlattenAllLists(Flatten(f, os[0]), os[1..], walked + Preorder(os[0]));
      assert (walked + Preorder(os[0])) + PreorderAll(os[1..]) == walked + PreorderAll(os);
    }
  }

  /** The objects are listed in the order of a walk over the property list, from the top down. */
  lemma FlattenIsPreorder(o: Obj)
    ensures Flatten(EMPTY, o).objlist == Firsts(Preorder(o))
  {
    FlattenLists(EMPTY, o, []);
    assert [] + Preorder(o) == Preorder(o);
  }

  /** Nulls and sets have no encoding; everything else has one. */
  predicate Encodable(o: Obj) {
    match o
    case Atom(_, v) => v != F.Null
    case Container(_, kind, _) => kind != F.Set
  }

  lemma {:induction false} SupportedKinds(o: Obj)
    requires WellFormed(o)
    ensures Supported(o) <==> forall x :: x in Preorder(o) ==> Encodable(x)
    decreases o, 1
  {
    if o.Container? { SupportedAllKinds(o.elems); }
    assert o in Preorder(o);
  }

  lemma {:induction false} SupportedAllKinds(os: seq<Obj>)
    requires forall o :: o in os ==> WellFormed(o)
    ensures (forall o :: o in os ==> Supported(o)) <==> forall x :: x in PreorderAll(os) ==> Encodable(x)
    decreases os, 0
  {
    if os != [] {
      SupportedKinds(os[0]);
      SupportedAllKinds(os[1..]);
      assert forall o :: o in os <==> o == os[0] || o in os[1..];
    }
  }
}
