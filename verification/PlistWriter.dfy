/** Writing: flattening an object graph into a table, encoding each object, and the buffered writer. */
module PlistWriter {
  import opened Bytes
  import opened PlistFormat

  /** An object to be written. Equality of objects is identity: two occurrences of the same `Obj`
      are the same object shared, and equal objects at different addresses differ in `addr`. A
      dictionary's elements are its keys followed by its values, in enumeration order. */
  datatype Obj =
    | Atom(addr: nat, v: Value)
    | Container(addr: nat, kind: Kind, elems: seq<Obj>)

  /** Lengths fit a CFIndex, and a dictionary has as many keys as values. */
  predicate WellFormed(o: Obj) {
    match o
    case Atom(_, v) => Primitive(v) && Sized(v)
    case Container(_, kind, elems) =>
      && |elems| <= LONG_MAX
      && (kind == Dict ==> |elems| % 2 == 0)
      && forall e :: e in elems ==> WellFormed(e)
  }

  /** Only these types have an encoding in this format version. */
  predicate Writable(o: Obj) {
    if o.Atom? then o.v != Null && Primitive(o.v) else o.kind != Set
  }

  predicate Supported(o: Obj) {
    Writable(o) && (o.Container? ==> forall e :: e in o.elems ==> Supported(e))
  }

  // ---------- Flattening ----------

  datatype Flat = Flat(objlist: seq<Obj>, objtable: map<Obj, nat>, uniquingset: set<Obj>)

  const EMPTY := Flat([], map[], {})

  /** Strings, numbers, dates and data enter the table once per object. */
  predicate Uniqued(o: Obj) {
    o.Atom? && (o.v.Str? || o.v.Int? || o.v.WideInt? || o.v.Real32? || o.v.Real64? || o.v.Date? || o.v.Data?)
  }

  function Append(f: Flat, o: Obj): Flat {
    var refnum := |f.objlist| % 0x1_0000_0000;
    Flat(f.objlist + [o],
         if o in f.objtable then f.objtable else f.objtable[o := refnum],
         if Uniqued(o) then f.uniquingset + {o} else f.uniquingset)
  }

  function Flatten(f: Flat, o: Obj): Flat
    decreases o, 1
  {
    if Uniqued(o) && o in f.uniquingset then f
    else if o.Container? && o.kind != Set then FlattenAll(Append(f, o), o.elems)
    else Append(f, o)
  }

  function FlattenAll(f: Flat, os: seq<Obj>): Flat
    decreases os, 0
  {
    if os == [] then f else FlattenAll(Flatten(f, os[0]), os[1..])
  }

  class Flattener {
    var objlist: seq<Obj>
    var objtable: map<Obj, nat>
    var uniquingset: set<Obj>

    ghost function State(): Flat
      reads this
    {
      Flat(objlist, objtable, uniquingset)
    }

    constructor ()
      ensures State() == EMPTY
    {
      objlist, objtable, uniquingset := [], map[], {};
    }

    method FlattenPlist(plist: Obj)
      modifies this
      ensures State() == Flatten(old(State()), plist)
      decreases plist
    {
      if Uniqued(plist) {
        var before := |uniquingset|;
        uniquingset := uniquingset + {plist};
        var after := |uniquingset|;
        SameSize(old(uniquingset), plist);
        if after == before {
          // The set compares identities, so the member found is the object itself.
          return;
        }
      }
      var refnum := |objlist| % 0x1_0000_0000;
      objlist := objlist + [plist];
      if plist !in objtable { objtable := objtable[plist := refnum]; }
      assert State() == Append(old(State()), plist);
      if plist.Container? && plist.kind != Set {
        for idx := 0 to |plist.elems|
          invariant FlattenAll(State(), plist.elems[idx..]) == Flatten(old(State()), plist)
        {
          assert plist.elems[idx..][1..] == plist.elems[idx + 1..];
          FlattenPlist(plist.elems[idx]);
        }
        assert plist.elems[|plist.elems|..] == [];
      }
    }
  }

  lemma SameSize<T>(s: set<T>, x: T)
    ensures |s + {x}| == |s| <==> x in s
    ensures x in s ==> s + {x} == s
  {
    if x in s { assert s + {x} == s; }
  }

  // ---------- Encoding ----------

  function IntWidth(n: nat): nat {
    if n <= 0xFF then 1 else if n <= 0xFFFF then 2 else if n <= 0xFFFF_FFFF then 4 else 8
  }

  function IntMarker(n: nat): Byte {
    INT_MARK + if n <= 0xFF then 0 else if n <= 0xFFFF then 1 else if n <= 0xFFFF_FFFF then 2 else 3
  }

  function IntBytes(n: nat): (s: seq<Byte>)
    ensures |s| == 1 + IntWidth(n)
  {
    [IntMarker(n)] + BigEndian(n, IntWidth(n))
  }

  type Marker = m: Byte | m % 16 == 0 witness 0

  function CountBytes(marker: Marker, n: nat): (s: seq<Byte>) {
    if n < 15 then [marker + n] else [marker + 15] + IntBytes(n)
  }

  function UnitBytes(units: seq<UInt16>): (s: seq<Byte>)
    ensures |s| == 2 * |units|
  {
    if units == [] then [] else [units[0] / 256, units[0] % 256] + UnitBytes(units[1..])
  }

  function AsciiBytes(units: seq<UInt16>): (s: seq<Byte>)
    requires IsAscii(units)
    ensures |s| == |units|
  {
    seq(|units|, i requires 0 <= i < |units| => units[i])
  }

  function UidSize(id: UInt32): nat {
    if id <= 0xFF then 1 else if id <= 0xFFFF then 2 else 4
  }

  predicate Sized(v: Value) {
    (v.Data? ==> |v.bytes| <= LONG_MAX) && (v.Str? ==> |v.units| <= LONG_MAX)
  }

  function AtomBytes(v: Value): (s: seq<Byte>) {
    match v
    case Bool(b) => [if b then TRUE_MARK else FALSE_MARK]
    case Int(n) => IntBytes(Unsigned64(n))
    case WideInt(high, low) => [INT_MARK + 4] + (BigEndian(Unsigned64(high), 8) + BigEndian(low, 8))
    case Real32(payload) => [REAL_MARK + 2] + payload
    case Real64(payload) => [REAL_MARK + 3] + payload
    case Date(payload) => [DATE_MARK] + payload
    case Data(bytes) => CountBytes(DATA_MARK, |bytes|) + bytes
    case Str(units) =>
      if IsAscii(units) then CountBytes(ASCII_MARK, |units|) + AsciiBytes(units)
      else CountBytes(UNICODE_MARK, |units|) + UnitBytes(units)
    case Uid(id) => [UID_MARK + UidSize(id) - 1] + BigEndian(id, UidSize(id))
    case _ => []
  }

  /** The reference written for an element; a missing key reads as 0. */
  function RefOf(table: map<Obj, nat>, o: Obj): nat {
    if o in table then table[o] else 0
  }

  function Refs(elems: seq<Obj>, table: map<Obj, nat>): (refs: seq<nat>)
    ensures |refs| == |elems|
  {
    seq(|elems|, i requires 0 <= i < |elems| => RefOf(table, elems[i]))
  }

  /** Numbers of one size, one after the other: references, and offset table entries. */
  function NumberChunks(ns: seq<nat>, size: nat): (c: seq<seq<Byte>>)
    ensures |c| == |ns|
  {
    seq(|ns|, i requires 0 <= i < |ns| => BigEndian(ns[i], size))
  }

  function ContainerMark(kind: Kind): Marker {
    match kind case Array => ARRAY_MARK case Set => SET_MARK case Dict => DICT_MARK
  }

  function ContainerCount(kind: Kind, n: nat): nat {
    if kind == Dict then n / 2 else n
  }

  predicate SizedObj(o: Obj) {
    if o.Atom? then Sized(o.v) else |o.elems| <= LONG_MAX
  }

  function ObjectBytes(o: Obj, table: map<Obj, nat>, refSize: nat): seq<Byte> {
    match o
    case Atom(_, v) => AtomBytes(v)
    case Container(_, kind, elems) =>
      CountBytes(ContainerMark(kind), ContainerCount(kind, |elems|)) + Concat(NumberChunks(Refs(elems, table), refSize))
  }

  function ObjectChunks(os: seq<Obj>, table: map<Obj, nat>, refSize: nat): (c: seq<seq<Byte>>)
    ensures |c| == |os|
  {
    seq(|os|, i requires 0 <= i < |os| => ObjectBytes(os[i], table, refSize))
  }

  function ByteCount(count: nat): (size: Byte) {
    if count <= 0xFF then 1 else if count <= 0xFFFF then 2 else if count <= 0xFFFF_FFFF then 4 else 8
  }

  function TrailerBytes(t: Trailer): (s: seq<Byte>)
    ensures |s| == TRAILER_SIZE
  {
    [0, 0, 0, 0, 0, 0, t.offsetIntSize, t.objectRefSize]
    + BigEndian(t.numObjects, 8) + BigEndian(t.topObject, 8) + BigEndian(t.offsetTableOffset, 8)
  }

  /** The layout of a written file. */
  datatype Image = Image(objects: seq<Byte>, offsets: seq<nat>, trailer: Trailer) {
    function Bytes(): seq<Byte> {
      HEADER + objects + Concat(NumberChunks(offsets, trailer.offsetIntSize)) + TrailerBytes(trailer)
    }
  }

  function ImageOfFlat(f: Flat): Image {
    var cnt := |f.objlist|;
    var refSize := ByteCount(cnt);
    var chunks := ObjectChunks(f.objlist, f.objtable, refSize);
    var end := 8 + |Concat(chunks)|;
    Image(Concat(chunks), Starts(chunks, 8), Trailer(ByteCount(end), refSize, cnt, 0, end))
  }

  /** Fewer than 2^32 objects, so that a 32-bit reference number holds each. */
  predicate FewObjects(o: Obj) {
    |Flatten(EMPTY, o).objlist| < 0x1_0000_0000
  }

  function ImageOf(o: Obj): Image {
    ImageOfFlat(Flatten(EMPTY, o))
  }

  // ---------- The buffered writer ----------

  const BUFFER_SIZE := 8192 - 32

  class WriteBuffer {
    var stream: seq<Byte>
    var written: nat
    var used: nat
    const buffer: array<Byte>

    ghost predicate Valid()
      reads this, buffer
    {
      buffer.Length == BUFFER_SIZE && used < BUFFER_SIZE && written == |stream|
    }

    /** Everything written so far, delivered or not. */
    ghost function Contents(): seq<Byte>
      reads this, buffer
      requires Valid()
    {
      stream + buffer[..used]
    }

    constructor ()
      ensures Valid() && fresh(buffer) && Contents() == []
    {
      stream, written, used := [], 0, 0;
      buffer := new Byte[BUFFER_SIZE];
    }

    method WriteBytes(bytes: seq<Byte>)
      modifies this`stream, this`written
      requires written == |stream|
      ensures stream == old(stream) + bytes && written == |stream|
    {
      stream := stream + bytes;
      written := written + |bytes|;
    }

    method Flush()
      requires Valid()
      modifies this
      ensures Valid() && used == 0 && Contents() == stream == old(Contents())
    {
      WriteBytes(buffer[..used]);
      used := 0;
    }

    method Write(bytes: seq<Byte>)
      requires Valid()
      modifies this, buffer
      ensures Valid() && Contents() == old(Contents()) + bytes
    {
      if |bytes| == 0 { return; }
      if BUFFER_SIZE <= |bytes| {
        Flush();
        WriteBytes(bytes);
        return;
      }
      var copyLen := Min(|bytes|, BUFFER_SIZE - used);
      var first, second := bytes[..copyLen], bytes[copyLen..];
      assert first + second == bytes;
      Fill(used, first);
      used := used + copyLen;
      assert buffer[..used] == old(buffer[..used]) + first;
      Concatenate(stream, old(buffer[..used]), first);
      if used == BUFFER_SIZE {
        assert buffer[..] == buffer[..used];
        WriteBytes(buffer[..]);
        Fill(0, second);
        used := |bytes| - copyLen;
        assert buffer[..used] == second;
        Concatenate(old(Contents()), first, second);
      } else {
        assert second == [];
      }
    }

    method Fill(at: nat, bytes: seq<Byte>)
      requires at + |bytes| <= buffer.Length
      modifies buffer
      ensures buffer[..] == old(buffer[..at]) + bytes + old(buffer[at + |bytes|..])
    {
      forall i | 0 <= i < |bytes| { buffer[at + i] := bytes[i]; }
    }

    method WriteTwo(a: seq<Byte>, b: seq<Byte>)
      requires Valid()
      modifies this, buffer
      ensures Valid() && Contents() == old(Contents()) + (a + b)
    {
      Write(a);
      Write(b);
      Concatenate(old(Contents()), a, b);
    }

    method AppendInt(bigint: UInt64)
      requires Valid()
      modifies this, buffer
      ensures Valid() && Contents() == old(Contents()) + IntBytes(bigint)
    {
      var nbytes, marker := 8, INT_MARK + 3;
      if bigint <= 0xFF {
        nbytes, marker := 1, INT_MARK;
      } else if bigint <= 0xFFFF {
        nbytes, marker := 2, INT_MARK + 1;
      } else if bigint <= 0xFFFF_FFFF {
        nbytes, marker := 4, INT_MARK + 2;
      }
      assert nbytes == IntWidth(bigint) && marker == IntMarker(bigint);
      WriteTwo([marker], BigEndian(bigint, nbytes));
    }

    method AppendCount(marker: Marker, count: UInt64)
      requires Valid()
      modifies this, buffer
      ensures Valid() && Contents() == old(Contents()) + CountBytes(marker, count)
    {
      Write([marker + if count < 15 then count else 0xF]);
      if 15 <= count {
        AppendInt(count);
        Concatenate(old(Contents()), [marker + 15], IntBytes(count));
      }
    }

    method AppendCounted(marker: Marker, count: UInt64, bytes: seq<Byte>)
      requires Valid()
      modifies this, buffer
      ensures Valid() && Contents() == old(Contents()) + (CountBytes(marker, count) + bytes)
    {
      AppendCount(marker, count);
      Write(bytes);
      Concatenate(old(Contents()), CountBytes(marker, count), bytes);
    }

    method AppendString(units: seq<UInt16>)
      requires Valid() && |units| <= LONG_MAX
      modifies this, buffer
      ensures Valid() && Contents() == old(Contents()) + AtomBytes(Str(units))
    {
      if IsAscii(units) {
        AppendCounted(ASCII_MARK, |units|, AsciiBytes(units));
      } else {
        AppendCounted(UNICODE_MARK, |units|, UnitBytes(units));
      }
    }

    method AppendAtom(v: Value)
      requires Valid() && v != Null && Primitive(v) && Sized(v)
      modifies this, buffer
      ensures Valid() && Contents() == old(Contents()) + AtomBytes(v)
    {
      match v
      case Bool(b) => Write([if b then TRUE_MARK else FALSE_MARK]);
      case Int(n) => AppendInt(Unsigned64(n));
      case WideInt(high, low) =>
        WriteTwo([INT_MARK + 4], BigEndian(Unsigned64(high), 8) + BigEndian(low, 8));
      case Real32(payload) => WriteTwo([REAL_MARK + 2], payload);
      case Real64(payload) => WriteTwo([REAL_MARK + 3], payload);
      case Date(payload) => WriteTwo([DATE_MARK], payload);
      case Data(bytes) => AppendCounted(DATA_MARK, |bytes|, bytes);
      case Str(units) => AppendString(units);
      case Uid(id) => WriteTwo([UID_MARK + UidSize(id) - 1], BigEndian(id, UidSize(id)));
    }

    method AppendRefs(elems: seq<Obj>, objtable: map<Obj, nat>, objRefSize: nat)
      requires Valid()
      modifies this, buffer
      ensures Valid() && Contents() == old(Contents()) + Concat(NumberChunks(Refs(elems, objtable), objRefSize))
    {
      ghost var chunks := NumberChunks(Refs(elems, objtable), objRefSize);
      for idx := 0 to |elems|
        invariant Valid() && Contents() + Concat(chunks[idx..]) == old(Contents()) + Concat(chunks)
      {
        ConcatStep(chunks, idx, Contents());
        Write(BigEndian(RefOf(objtable, elems[idx]), objRefSize));
      }
    }

    method AppendObject(o: Obj, objtable: map<Obj, nat>, objRefSize: nat) returns (ok: bool)
      requires Valid() && SizedObj(o)
      modifies this, buffer
      ensures Valid() && (ok <==> Writable(o))
      ensures ok ==> Contents() == old(Contents()) + ObjectBytes(o, objtable, objRefSize)
    {
      if !Writable(o) { return false; }
      match o {
        case Atom(_, v) => AppendAtom(v);
        case Container(_, kind, elems) =>
          var count := ContainerCount(kind, |elems|);
          AppendCount(ContainerMark(kind), count);
          AppendRefs(elems, objtable, objRefSize);
          Concatenate(old(Contents()), CountBytes(ContainerMark(kind), count),
                      Concat(NumberChunks(Refs(elems, objtable), objRefSize)));
      }
      ok := true;
    }
  
    /** Each object's position is recorded before it is appended; an object without an encoding
        stops the writer. */
    method AppendObjects(objlist: seq<Obj>, objtable: map<Obj, nat>, objRefSize: nat)
      returns (ok: bool, offsets: seq<nat>)
      requires Valid() && forall o :: o in objlist ==> SizedObj(o)
      modifies this, buffer
      ensures Valid() && (ok <==> forall o :: o in objlist ==> Writable(o))
      ensures var chunks := ObjectChunks(objlist, objtable, objRefSize);
              ok ==> Contents() == old(Contents()) + Concat(chunks)
                     && offsets == Starts(chunks, |old(Contents())|)
    {
      hide ObjectBytes, Writable, SizedObj, Starts, Concat;
      ghost var chunks := ObjectChunks(objlist, objtable, objRefSize);
      offsets := [];
      for idx := 0 to |objlist|
        invariant Valid() && |offsets| == idx
        invariant forall k :: 0 <= k < idx ==> Writable(objlist[k])
        invariant Delivered(old(Contents()), Contents(), offsets, chunks)
      {
        ghost var before := Contents();
        assert objlist[idx] in objlist;
        var offset := written + used;
        assert offset == |before|;
        var success := AppendObject(objlist[idx], objtable, objRefSize);
        if !success { return false, offsets; }
        assert Contents() == before + chunks[idx];
        DeliveredStep(old(Contents()), before, offsets, chunks);
        offsets := offsets + [offset];
      }
      DeliveredAll(old(Contents()), Contents(), offsets, chunks);
      ok := true;
    }

    method AppendOffsets(offsets: seq<nat>, offsetIntSize: nat)
      requires Valid()
      modifies this, buffer
      ensures Valid() && Contents() == old(Contents()) + Concat(NumberChunks(offsets, offsetIntSize))
    {
      ghost var chunks := NumberChunks(offsets, offsetIntSize);
      for idx := 0 to |offsets|
        invariant Valid() && Contents() + Concat(chunks[idx..]) == old(Contents()) + Concat(chunks)
      {
        ConcatStep(chunks, idx, Contents());
        Write(BigEndian(offsets[idx], offsetIntSize));
      }
    }
  
    /** The offset table, then a trailer struct of zeroed bytes, two sizes and three big-endian words. */
    method AppendTail(offsets: seq<nat>, objectRefSize: Byte) returns (length: nat)
      requires Valid() && |Contents()| <= ULLONG_MAX
      modifies this, buffer
      ensures Valid() && length == |stream|
      ensures var end := |old(Contents())|;
              var size := ByteCount(end);
              stream == old(Contents()) + Concat(NumberChunks(offsets, size))
                        + TrailerBytes(Trailer(size, objectRefSize, |offsets|, 0, end))
    {
      var lengthSoFar := written + used;
      assert lengthSoFar == |Contents()|;
      var offsetIntSize := ComputeByteCount(lengthSoFar);
      AppendOffsets(offsets, offsetIntSize);
      EqualChunks(NumberChunks(offsets, offsetIntSize), offsetIntSize, 0);
      var tableSize: int := |offsets| * offsetIntSize;
      assert tableSize == |Concat(NumberChunks(offsets, offsetIntSize))|;
      Write(TrailerBytes(Trailer(offsetIntSize, objectRefSize, |offsets|, 0, lengthSoFar)));
      Flush();
      length := lengthSoFar + tableSize + TRAILER_SIZE;
    }
  }

  // ---------- The whole writer ----------

  /** What flattening has established: the table sends an object to its own place in the list. */
  predicate Tabled(f: Flat) {
    && (forall x :: x in f.objtable ==> f.objtable[x] < |f.objlist| && f.objlist[f.objtable[x]] == x)
    && (forall x :: x in f.uniquingset ==> x in f.objtable)
    && (forall x :: x in f.objlist ==> WellFormed(x))
  }

  predicate Extends(f: Flat, f': Flat) {
    && |f.objlist| <= |f'.objlist|
    && f'.objlist[..|f.objlist|] == f.objlist
    && (forall x :: x in f.objtable ==> x in f'.objtable && f'.objtable[x] == f.objtable[x])
  }

  predicate ElementsTabled(f: Flat, o: Obj) {
    o.Container? && o.kind != Set ==> forall e :: e in o.elems ==> e in f.objtable
  }

  /** Every element of a listed array or dictionary, from place `k` on, has an entry. */
  predicate Closed(f: Flat, k: nat) {
    forall i :: k <= i < |f.objlist| ==> ElementsTabled(f, f.objlist[i])
  }

  predicate AllWritable(f: Flat, k: nat) {
    forall i :: k <= i < |f.objlist| ==> Writable(f.objlist[i])
  }

  lemma {:induction false} FlattenInvariant(f: Flat, o: Obj)
    requires Tabled(f) && WellFormed(o) && |Flatten(f, o).objlist| <= 0x1_0000_0000
    ensures var f' := Flatten(f, o);
            Tabled(f') && Extends(f, f') && o in f'.objtable && Closed(f', |f.objlist|)
            && (Supported(o) <==> AllWritable(f', |f.objlist|))
    decreases o, 1
  {
    if !(Uniqued(o) && o in f.uniquingset) {
      var g := Append(f, o);
      FlattenGrows(f, o);
      AppendInvariant(f, o);
      if o.Container? && o.kind != Set {
        FlattenAllInvariant(g, o.elems);
        ExtendsTransitive(f, g, Flatten(f, o));
      }
      FirstThenRest(g, Flatten(f, o), |f.objlist|, o);
    }
  }

  lemma AppendInvariant(f: Flat, o: Obj)
    requires Tabled(f) && WellFormed(o) && |f.objlist| < 0x1_0000_0000
    ensures var g := Append(f, o);
            Tabled(g) && Extends(f, g) && o in g.objtable && g.objlist == f.objlist + [o]
  {
    hide WellFormed, Uniqued;
    var g, n := Append(f, o), |f.objlist|;
    assert g.objlist == f.objlist + [o] && g.objlist[n] == o && g.objlist[..n] == f.objlist;
    forall x | x in g.objtable ensures g.objtable[x] < |g.objlist| && g.objlist[g.objtable[x]] == x {
      if x in f.objtable { assert g.objlist[f.objtable[x]] == f.objlist[f.objtable[x]]; }
    }
  }

  lemma ExtendsTransitive(f: Flat, g: Flat, f': Flat)
    requires Extends(f, g) && Extends(g, f')
    ensures Extends(f, f')
  {
    assert f'.objlist[..|f.objlist|] == g.objlist[..|f.objlist|];
  }

  lemma FirstThenRest(g: Flat, f': Flat, k: nat, o: Obj)
    requires Extends(g, f') && k + 1 == |g.objlist| && g.objlist[k] == o
    ensures f'.objlist[k] == o
    ensures Closed(f', k) <==> ElementsTabled(f', o) && Closed(f', k + 1)
    ensures AllWritable(f', k) <==> Writable(o) && AllWritable(f', k + 1)
  {
    assert f'.objlist[..k + 1][k] == f'.objlist[k];
  }

  lemma {:induction false} FlattenAllInvariant(f: Flat, os: seq<Obj>)
    requires Tabled(f) && (forall o :: o in os ==> WellFormed(o))
    requires |FlattenAll(f, os).objlist| <= 0x1_0000_0000
    ensures var f' := FlattenAll(f, os);
            Tabled(f') && Extends(f, f') && (forall o :: o in os ==> o in f'.objtable) && Closed(f', |f.objlist|)
            && ((forall o :: o in os ==> Supported(o)) <==> AllWritable(f', |f.objlist|))
    decreases os, 0
  {
    if os != [] {
      var g := Flatten(f, os[0]);
      FlattenAllGrows(g, os[1..]);
      FlattenInvariant(f, os[0]);
      FlattenAllInvariant(g, os[1..]);
      Compose(f, g, FlattenAll(f, os));
      assert forall o :: o in os <==> o == os[0] || o in os[1..];
    }
  }

  lemma Compose(f: Flat, g: Flat, f': Flat)
    requires Extends(f, g) && Extends(g, f') && Closed(g, |f.objlist|) && Closed(f', |g.objlist|)
    ensures Extends(f, f') && Closed(f', |f.objlist|)
    ensures AllWritable(f', |f.objlist|) <==> AllWritable(g, |f.objlist|) && AllWritable(f', |g.objlist|)
  {
    ExtendsTransitive(f, g, f');
    forall i | |f.objlist| <= i < |g.objlist| ensures f'.objlist[i] == g.objlist[i] {
      assert f'.objlist[..|g.objlist|][i] == f'.objlist[i];
    }
  }

  lemma {:induction false} FlattenGrows(f: Flat, o: Obj)
    ensures |f.objlist| <= |Flatten(f, o).objlist|
    ensures !(Uniqued(o) && o in f.uniquingset) ==> |f.objlist| < |Flatten(f, o).objlist|
    decreases o, 1
  {
    if o.Container? && o.kind != Set { FlattenAllGrows(Append(f, o), o.elems); }
  }

  lemma {:induction false} FlattenAllGrows(f: Flat, os: seq<Obj>)
    ensures |f.objlist| <= |FlattenAll(f, os).objlist|
    decreases os, 0
  {
    if os != [] {
      FlattenGrows(f, os[0]);
      FlattenAllGrows(Flatten(f, os[0]), os[1..]);
    }
  }

  /** The size of an integer: shift a mask of high bytes up until it misses the number, then round
      up to a power of two. `bound` is the lowest bit of the mask, which the eighth shift empties. */
  method ComputeByteCount(count: UInt64) returns (size: Byte)
    ensures size == ByteCount(count)
  {
    Pow256Values();
    size := 0;
    var bound := 1;
    while size < 8 && bound <= count
      invariant size <= 8 && bound == Pow256(size)
      invariant size > 0 ==> Pow256(size - 1) <= count
      decreases 8 - size
    {
      size := size + 1;
      bound := bound * 256;
    }
    assert size < 8 ==> count < Pow256(size);
    while size != 1 && size != 2 && size != 4 && size != 8 && size <= 8
      invariant size <= ByteCount(count) <= 8
      invariant ByteCount(count) == 1 || ByteCount(count) / 2 < size
      decreases 8 - size
    {
      size := size + 1;
    }
  }

  /** The returned length is 0 exactly when some object has no encoding. */
  method WritePlist(plist: Obj) returns (length: nat, stream: seq<Byte>)
    requires WellFormed(plist) && FewObjects(plist)
    requires Supported(plist) ==> |ImageOf(plist).Bytes()| <= LONG_MAX
    ensures Supported(plist) ==> stream == ImageOf(plist).Bytes() && length == |stream|
    ensures !Supported(plist) ==> length == 0
  {
    hide Flatten, ObjectChunks, NumberChunks, TrailerBytes, Supported;
    var flattener := new Flattener();
    flattener.FlattenPlist(plist);
    var objlist, objtable := flattener.objlist, flattener.objtable;
    FlattenInvariant(EMPTY, plist);
    SupportedIsWritable(plist);
    var cnt := |objlist|;
    var buf := new WriteBuffer();
    buf.Write(HEADER);
    assert buf.Contents() == HEADER;
    var objectRefSize := ComputeByteCount(cnt);
    var success, offsets := buf.AppendObjects(objlist, objtable, objectRefSize);
    if !success { return 0, buf.stream; }
    ghost var image := ImageOf(plist);
    assert buf.Contents() == HEADER + image.objects && offsets == image.offsets;
    length := buf.AppendTail(offsets, objectRefSize);
    stream := buf.stream;
  }

  lemma SupportedIsWritable(o: Obj)
    requires WellFormed(o) && FewObjects(o)
    ensures Supported(o) <==> forall x :: x in Flatten(EMPTY, o).objlist ==> Writable(x)
  {
    FlattenInvariant(EMPTY, o);
    var f := Flatten(EMPTY, o);
    assert AllWritable(f, 0) <==> forall x :: x in f.objlist ==> Writable(x);
  }
}
