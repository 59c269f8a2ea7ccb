/** The binary property list format in numbers, as it is read: which files are accepted and what the
    bytes of an object say. */
module PlistHeads {
  import opened Bytes
  import Capacities
  import opened PlistFormat
  import opened PlistGraph
  import opened PlistReader
  import PlistRoundTrip
  import opened PlistTable

  // ---------- Numbers ----------

  /** Up to eight bytes are read as the number they spell; of more, the last eight are. */
  lemma SizedIntSpells(s: seq<Byte>)
    ensures |s| <= 8 ==> Spells(s, SizedInt(s)) && SizedInt(s) < Pow256(|s|)
    ensures |s| > 8 ==> SizedInt(s) == SizedInt(s[|s| - 8..])
  {
    hide Spells, Number, SizedInt;
    if |s| <= 8 {
      NumberSpells(s);
      ShortNumber(s);
    } else {
      LastEight(s[..|s| - 8], s[|s| - 8..]);
      assert s[..|s| - 8] + s[|s| - 8..] == s;
    }
  }

  lemma ShortNumber(s: seq<Byte>)
    requires |s| <= 8
    ensures SizedInt(s) == Number(s) < Pow256(|s|)
  {
    hide Number;
    PowersGrow(|s|, 8);
    Pow256Values();
  }

  lemma LastEight(a: seq<Byte>, b: seq<Byte>)
    requires |b| == 8
    ensures SizedInt(a + b) == SizedInt(b)
  {
    hide Number;
    PlistRoundTrip.NumberOfConcat(a, b);
    Pow256Values();
    PlistRoundTrip.LowWord(Number(a), Number(b));
  }

  lemma {:induction false} NumberSpells(s: seq<Byte>)
    ensures Spells(s, Number(s))
  {
    if s != [] {
      var front, n := s[..|s| - 1], Number(s);
      NumberSpells(front);
      assert n / 256 == Number(front);
      forall i | 0 <= i < |s| ensures s[i] == n / Pow256(|s| - 1 - i) % 256 {
        if i < |s| - 1 { PlaceBefore(s, i, n); }
      }
    }
  }

  lemma PlaceBefore(s: seq<Byte>, i: nat, n: nat)
    requires i < |s| - 1 && Spells(s[..|s| - 1], n / 256)
    ensures s[i] == n / Pow256(|s| - 1 - i) % 256
  {
    var front := s[..|s| - 1];
    assert s[i] == front[i] == n / 256 / Pow256(|front| - 1 - i) % 256;
    DivideTwice(n, Pow256(|s| - 2 - i));
  }

  lemma {:induction false} PowersGrow(m: nat, n: nat)
    requires m <= n
    ensures Pow256(m) <= Pow256(n)
    decreases n
  {
    if m < n { PowersGrow(m, n - 1); }
  }

  // ---------- Which files are accepted ----------

  /** Fewer than eight bytes hold only smaller numbers. */
  predicate FitsIn(size: nat, n: nat) {
    && (size == 1 ==> n < 0x100)
    && (size == 2 ==> n < 0x1_0000)
    && (size == 3 ==> n < 0x100_0000)
    && (size == 4 ==> n < 0x1_0000_0000)
    && (size == 5 ==> n < 0x100_0000_0000)
    && (size == 6 ==> n < 0x1_0000_0000_0000)
    && (size == 7 ==> n < 0x100_0000_0000_0000)
  }

  /** The sizes and the numbers in a trailer agree with the length of the file. */
  predicate SoundTrailer(length: nat, offSize: Byte, refSize: Byte, count: nat, top: nat, table: nat) {
    && 1 <= offSize && 1 <= refSize && top < count && 9 <= table
    && table + 32 <= length == table + count * offSize + 32
    && FitsIn(refSize, count) && FitsIn(offSize, table)
  }

  /** One number in the table of offsets. */
  function Entry(d: seq<Byte>, table: nat, size: nat, i: nat): UInt64 {
    SizedInt(Chunk(d[Min(table, |d|)..], i, size))
  }

  lemma EntryIsOffset(d: seq<Byte>, t: Trailer, ref: nat)
    requires Layout(d, t) && ref < t.numObjects
    ensures Entry(d, t.offsetTableOffset, t.offsetIntSize, ref) == OffsetOf(d, t, ref)
  {
    hide SizedInt;
    TableEntryInside(ref, t.numObjects, t.offsetIntSize);
    var at := t.offsetTableOffset + ref * t.offsetIntSize;
    assert Chunk(d[t.offsetTableOffset..], ref, t.offsetIntSize) == d[at..at + t.offsetIntSize];
  }

  /** Objects lie before the table of their offsets, and the top object behind the header. */
  predicate SoundOffsets(d: seq<Byte>, offSize: Byte, count: nat, top: nat, table: nat) {
    && (forall i :: 0 <= i < count ==> Entry(d, table, offSize, i) < table)
    && 8 <= Entry(d, table, offSize, top)
  }

  function TrailerIn(d: seq<Byte>): Trailer
    requires 41 <= |d|
  {
    var tail := d[|d| - 32..];
    Trailer(tail[6], tail[7], SizedInt(tail[8..16]), SizedInt(tail[16..24]), SizedInt(tail[24..]))
  }

  /** A header, a trailer and a table of offsets that can be relied on. */
  predicate Sound(d: seq<Byte>) {
    && 41 <= |d|
    && d[..7] == [0x62, 0x70, 0x6C, 0x69, 0x73, 0x74, 0x30]
    && var t := TrailerIn(d);
    && SoundTrailer(|d|, t.offsetIntSize, t.objectRefSize, t.numObjects, t.topObject, t.offsetTableOffset)
    && SoundOffsets(d, t.offsetIntSize, t.numObjects, t.topObject, t.offsetTableOffset)
  }

  lemma FitsInExactly(size: nat, n: nat)
    requires 1 <= size
    ensures FitsIn(size, n) <==> (size < 8 ==> n < Pow256(size))
  {
    Pow256Values();
  }

  lemma TrailerIsRead(d: seq<Byte>)
    requires 41 <= |d|
    ensures TrailerOf(d) == TrailerIn(d)
  {
    hide SizedInt;
    var at, tail := |d| - 32, d[|d| - 32..];
    assert tail[8..16] == d[at + 8..at + 16];
    assert tail[16..24] == d[at + 16..at + 24];
    assert tail[24..] == d[at + 24..at + 32];
  }

  lemma FitsExactly(d: seq<Byte>, t: Trailer)
    requires 41 <= |d|
    ensures TrailerFits(d, t)
        <==> SoundTrailer(|d|, t.offsetIntSize, t.objectRefSize, t.numObjects, t.topObject, t.offsetTableOffset)
  {
    hide FitsIn, Pow256;
    if 1 <= t.offsetIntSize && 1 <= t.objectRefSize {
      FitsInExactly(t.objectRefSize, t.numObjects);
      FitsInExactly(t.offsetIntSize, t.offsetTableOffset);
    }
  }

  lemma OffsetsExactly(d: seq<Byte>, t: Trailer)
    requires TrailerFits(d, t)
    ensures SoundOffsets(d, t.offsetIntSize, t.numObjects, t.topObject, t.offsetTableOffset)
        <==> (forall ref :: 0 <= ref < t.numObjects ==> OffsetOf(d, t, ref) < t.offsetTableOffset)
             && 8 <= OffsetOf(d, t, t.topObject)
  {
    hide OffsetOf, Entry, Pow256;
    forall i | 0 <= i < t.numObjects
      ensures Entry(d, t.offsetTableOffset, t.offsetIntSize, i) == OffsetOf(d, t, i)
    {
      EntryIsOffset(d, t, i);
    }
  }

  /** A file passes the checks exactly if it is sound, and no other file is read. */
  lemma AcceptedExactly(d: seq<Byte>)
    ensures Accepted(d) <==> Sound(d)
    ensures !Sound(d) ==> ReadPlist(d) == None
  {
    hide SizedInt, OffsetOf, TrailerFits, SoundTrailer, SoundOffsets, Decode, TrailerOf, TrailerIn;
    if 41 <= |d| {
      TrailerIsRead(d);
      FitsExactly(d, TrailerOf(d));
      if TrailerFits(d, TrailerOf(d)) { OffsetsExactly(d, TrailerOf(d)); }
    }
  }

  // ---------- What the bytes of an object say ----------

  /** How many bytes follow an integer's marker, by the low half of the marker. */
  const WIDTHS: seq<nat> := [0x1, 0x2, 0x4, 0x8, 0x10, 0x20, 0x40, 0x80,
                             0x100, 0x200, 0x400, 0x800, 0x1000, 0x2000, 0x4000, 0x8000]

  /** The count of the object at `off` and where its contents begin. The contents end before `end`. */
  function CountIn(d: seq<Byte>, off: nat, end: nat): Option<(nat, nat)>
    requires off < end <= |d|
  {
    var low, at := d[off] % 16, off + 2;
    if low < 15 then Some((low, off + 1))
    else if end < at || d[off + 1] < 0x10 || 0x1F < d[off + 1] then None
    else
      var width := WIDTHS[d[off + 1] - 0x10];
      if end < at + width then None
      else
        var n := if width < 0x100 then SizedInt(d[at..at + width]) else 0;
        if n < 0x8000_0000_0000_0000 then Some((n as nat, at + width)) else None
  }

  /** The reference at `p`, looked up in the table of offsets. */
  function ReferenceIn(d: seq<Byte>, t: Trailer, p: nat): UInt64 {
    var size, table := t.objectRefSize, t.offsetTableOffset;
    if 8 <= p && p + size <= table <= |d| && SizedInt(d[p..p + size]) < t.numObjects
    then Entry(d, table, t.offsetIntSize, SizedInt(d[p..p + size]))
    else 0xFFFF_FFFF_FFFF_FFFF
  }

  /** Objects that say no count: constants, integers, floating point numbers, dates and identifiers. */
  function SingleIn(d: seq<Byte>, off: nat, end: nat): Head
    requires off < end <= |d|
  {
    var marker, at := d[off], off + 1;
    if marker == 0x00 then Leaf(Null)
    else if marker == 0x08 then Leaf(Bool(false))
    else if marker == 0x09 then Leaf(Bool(true))
    else if 0x10 <= marker <= 0x13 && at + WIDTHS[marker - 0x10] <= end then
      var n := SizedInt(d[at..at + WIDTHS[marker - 0x10]]);
      Leaf(Int(if n < 0x8000_0000_0000_0000 then n else n - 0x1_0000_0000_0000_0000))
    else if marker == 0x14 && at + 16 <= end then Leaf(WideInt(0, SizedInt(d[at..at + 16])))
    else if marker == 0x22 && at + 4 <= end then Leaf(Real32(d[at..at + 4]))
    else if marker == 0x23 && at + 8 <= end then Leaf(Real64(d[at..at + 8]))
    else if marker == 0x33 && at + 8 <= end then Leaf(Date(d[at..at + 8]))
    else if 0x80 <= marker <= 0x8F && at + (marker - 0x7F) <= end
            && SizedInt(d[at..at + (marker - 0x7F)]) <= 0xFFFF_FFFF then
      Leaf(Uid(SizedInt(d[at..at + (marker - 0x7F)])))
    else Bad
  }

  /** Objects that say a count: data, strings of two kinds, arrays, sets and dictionaries. */
  function CountedIn(d: seq<Byte>, t: Trailer, marker: Byte, n: nat, p: nat): Head
    requires t.offsetTableOffset <= |d|
  {
    var end := t.offsetTableOffset;
    if marker <= 0x4F then if p + n <= end then Leaf(Data(d[p..p + n])) else Bad
    else if marker <= 0x5F then
      if p + n <= end && forall i :: p <= i < p + n ==> d[i] < 0x80
      then Leaf(Str(seq(n, i requires 0 <= i < n => d[p + i])))
      else Bad
    else if marker <= 0x6F then
      if p + 2 * n <= end
      then Leaf(Str(seq(n, i requires 0 <= i < n => 0x100 * (d[p + 2 * i] as int) + d[p + 2 * i + 1])))
      else Bad
    else if marker <= 0xAF then ReferencesIn(d, t, Array, n, p)
    else if marker <= 0xCF then ReferencesIn(d, t, Set, n, p)
    else ReferencesIn(d, t, Dict, 2 * n, p)
  }

  function ReferencesIn(d: seq<Byte>, t: Trailer, kind: Kind, n: nat, p: nat): Head {
    if p + n * t.objectRefSize <= t.offsetTableOffset
    then Node(kind, seq(n, i requires 0 <= i < n => ReferenceIn(d, t, p + i * t.objectRefSize)))
    else Bad
  }

  function HeadIn(d: seq<Byte>, t: Trailer, off: nat): Head
    requires off < t.offsetTableOffset <= |d|
  {
    var marker := d[off];
    if 0x40 <= marker <= 0x6F || 0xA0 <= marker <= 0xAF || 0xC0 <= marker <= 0xDF then
      match CountIn(d, off, t.offsetTableOffset)
      case None => Bad
      case Some((n, p)) => CountedIn(d, t, marker, n, p)
    else SingleIn(d, off, t.offsetTableOffset)
  }

  lemma CountIsRead(d: seq<Byte>, off: nat, end: nat)
    requires off < end <= |d|
    ensures CountAt(d, off, end - 1) == CountIn(d, off, end)
  {
    hide SizedInt, IntSize;
    WidthsArePowers();
    var at := off + 2;
    if d[off] % 16 == 15 && at <= end && 0x10 <= d[off + 1] <= 0x1F {
      var width := WIDTHS[d[off + 1] - 0x10];
      assert d[off + 1] / 16 == 1;
      if at + width <= end {
        assert d[at..at + width % 256] == if width < 0x100 then d[at..at + width] else [];
        EmptyNumber();
      }
    }
  }

  lemma WidthsArePowers()
    ensures forall m: Byte :: 0x10 <= m <= 0x1F ==> IntSize(m) == WIDTHS[m - 0x10]
    ensures forall i :: 0 <= i < 8 ==> 1 <= WIDTHS[i] <= 128
    ensures forall i :: 8 <= i < 16 ==> WIDTHS[i] > 128 && WIDTHS[i] % 256 == 0
    ensures WIDTHS[4] == 16
  {
    assert Capacities.Pow2(3) == 8 && Capacities.Pow2(6) == 64 && Capacities.Pow2(9) == 512;
    assert Capacities.Pow2(12) == 4096 && Capacities.Pow2(15) == 32768;
  }

  lemma EmptyNumber()
    ensures SizedInt([]) == 0
  {
  }

  lemma IntIsRead(d: seq<Byte>, off: nat, end: nat)
    requires off < end <= |d| && 0x10 <= d[off] <= 0x1F
    ensures IntHead(d, off, end - 1) == SingleIn(d, off, end)
  {
    hide SizedInt, IntSize;
    WidthsArePowers();
  }

  lemma SingleIsRead(d: seq<Byte>, t: Trailer, off: nat)
    requires Layout(d, t) && off < t.offsetTableOffset
    requires d[off] / 16 !in [4, 5, 6, 10, 12, 13]
    ensures HeadAt(d, t, off) == SingleIn(d, off, t.offsetTableOffset)
  {
    hide SizedInt, IntHead, DataHead, AsciiHead, UnicodeHead, NodeHead;
    if d[off] / 16 == 1 { IntIsRead(d, off, t.offsetTableOffset); }
  }

  lemma {:induction false} UnitsAre(d: seq<Byte>, p: nat, n: nat)
    requires p + 2 * n <= |d|
    ensures forall i :: 0 <= i < n ==> UnitsAt(d, p, n)[i] == 0x100 * (d[p + 2 * i] as int) + d[p + 2 * i + 1]
    decreases n
  {
    if n > 0 {
      UnitsAre(d, p + 2, n - 1);
      forall i | 0 <= i < n ensures UnitsAt(d, p, n)[i] == 0x100 * (d[p + 2 * i] as int) + d[p + 2 * i + 1] {
        if i > 0 { assert UnitsAt(d, p, n)[i] == UnitsAt(d, p + 2, n - 1)[i - 1]; }
      }
    }
  }

  lemma BytesAreRead(d: seq<Byte>, t: Trailer, off: nat)
    requires Layout(d, t) && off < t.offsetTableOffset && d[off] / 16 in [4, 5, 6]
    ensures HeadAt(d, t, off) == HeadIn(d, t, off)
  {
    hide CountAt, CountIn, UnitsAt, IntHead, UidHead, NodeHead;
    var end := t.offsetTableOffset;
    CountIsRead(d, off, end);
    var c := CountIn(d, off, end);
    if c.Some? {
      var (n, p) := c.value;
      if d[off] / 16 == 5 && p + n <= end {
        assert IsAscii(d[p..p + n]) <==> forall i :: p <= i < p + n ==> d[i] < 0x80 by {
          assert forall i :: p <= i < p + n ==> d[i] == d[p..p + n][i - p];
        }
      }
      if d[off] / 16 == 6 && p + 2 * n <= end {
        UnitsAre(d, p, n);
        assert UnitsAt(d, p, n) == seq(n, i requires 0 <= i < n => 0x100 * (d[p + 2 * i] as int) + d[p + 2 * i + 1]);
      }
    }
  }

  lemma ReferenceIsRead(d: seq<Byte>, t: Trailer, p: nat)
    requires Layout(d, t)
    ensures OffsetOfRefAt(d, t, p) == ReferenceIn(d, t, p)
  {
    hide SizedInt, Entry, OffsetOf;
    if 8 <= p && p + t.objectRefSize <= t.offsetTableOffset {
      var ref := SizedInt(d[p..p + t.objectRefSize]);
      if ref < t.numObjects { EntryIsOffset(d, t, ref); }
    }
  }

  lemma {:induction false} RefsAreRead(d: seq<Byte>, t: Trailer, p: nat, n: nat)
    requires Layout(d, t)
    ensures forall i :: 0 <= i < n ==> RefsAt(d, t, p, n)[i] == ReferenceIn(d, t, p + i * t.objectRefSize)
    decreases n
  {
    hide ReferenceIn, OffsetOfRefAt;
    var size := t.objectRefSize;
    if n > 0 {
      ReferenceIsRead(d, t, p);
      RefsAreRead(d, t, p + size, n - 1);
      forall i | 0 <= i < n ensures RefsAt(d, t, p, n)[i] == ReferenceIn(d, t, p + i * size) {
        if i > 0 {
          assert RefsAt(d, t, p, n)[i] == RefsAt(d, t, p + size, n - 1)[i - 1];
          assert (p + size) + (i - 1) * size == p + i * size;
        }
      }
    }
  }

  lemma NodeIsRead(d: seq<Byte>, t: Trailer, off: nat, kind: Kind)
    requires Layout(d, t) && off < t.offsetTableOffset
    ensures NodeHead(d, t, off, kind)
         == match CountIn(d, off, t.offsetTableOffset)
            case None => Bad
            case Some((n, p)) => ReferencesIn(d, t, kind, if kind == Dict then 2 * n else n, p)
  {
    hide CountAt, CountIn, ReferencesIn, RefsAt;
    CountIsRead(d, off, t.offsetTableOffset);
    var c := CountIn(d, off, t.offsetTableOffset);
    if c.Some? { RefsAreReferences(d, t, kind, if kind == Dict then 2 * c.value.0 else c.value.0, c.value.1); }
  }

  lemma RefsAreReferences(d: seq<Byte>, t: Trailer, kind: Kind, n: nat, p: nat)
    requires Layout(d, t)
    ensures ReferencesIn(d, t, kind, n, p)
         == if t.offsetTableOffset < p + n * t.objectRefSize then Bad else Node(kind, RefsAt(d, t, p, n))
  {
    hide ReferenceIn, RefsAt, Layout;
    RefsAreRead(d, t, p, n);
    assert RefsAt(d, t, p, n) == seq(n, i requires 0 <= i < n => ReferenceIn(d, t, p + i * t.objectRefSize));
  }

  lemma ReferencesAreRead(d: seq<Byte>, t: Trailer, off: nat)
    requires Layout(d, t) && off < t.offsetTableOffset && d[off] / 16 in [10, 12, 13]
    ensures HeadAt(d, t, off) == HeadIn(d, t, off)
  {
    hide CountIn, ReferencesIn, IntHead, UidHead, DataHead, AsciiHead, UnicodeHead, NodeHead;
    NodeIsRead(d, t, off, if d[off] / 16 == 10 then Array else if d[off] / 16 == 12 then Set else Dict);
  }

  /** What is read at an offset is what the table of markers says. */
  lemma HeadIsRead(d: seq<Byte>, t: Trailer, off: nat)
    requires Layout(d, t) && off < t.offsetTableOffset
    ensures HeadAt(d, t, off) == HeadIn(d, t, off)
  {
    hide HeadAt, SingleIn, CountIn, CountedIn;
    if d[off] / 16 in [4, 5, 6] {
      BytesAreRead(d, t, off);
    } else if d[off] / 16 in [10, 12, 13] {
      ReferencesAreRead(d, t, off);
    } else {
      SingleIsRead(d, t, off);
    }
  }

  // ---------- What a file says ----------

  /** The bytes at `off` spell the property list `v`: themselves if they are a leaf, and through their
      references if they are a collection. The first half of a dictionary are its keys, and no
      collection is a key. */
  ghost predicate Says(d: seq<Byte>, t: Trailer, off: nat, v: Value)
    requires t.offsetTableOffset <= |d|
    decreases v
  {
    && 8 <= off < t.offsetTableOffset
    && match HeadIn(d, t, off)
       case Bad => false
       case Leaf(w) => v == w
       case Node(kind, offs) =>
         && v.Coll? && v.kind == kind && |v.elems| == |offs|
         && (forall i :: 0 <= i < |offs| ==> Says(d, t, offs[i], v.elems[i]))
         && (kind == Dict ==> forall i :: 0 <= 2 * i + 1 < |offs| ==> !v.elems[i].Coll?)
  }

  lemma {:induction false} SaysIsRepresents(d: seq<Byte>, t: Trailer, off: nat, v: Value)
    requires Layout(d, t)
    ensures Says(d, t, off, v) <==> Represents(ObjectsOf(d, t), off, v)
    decreases v
  {
    hide HeadIn, HeadAt;
    if 8 <= off < t.offsetTableOffset {
      HeadIsRead(d, t, off);
      var h := HeadIn(d, t, off);
      if h.Node? && v.Coll? && |v.elems| == |h.offs| {
        forall i | 0 <= i < |h.offs|
          ensures Says(d, t, h.offs[i], v.elems[i]) <==> Represents(ObjectsOf(d, t), h.offs[i], v.elems[i])
        {
          SaysIsRepresents(d, t, h.offs[i], v.elems[i]);
        }
      }
    }
  }

  /** The reader returns `v` exactly if the file is sound and its top object says `v`. */
  lemma ReadExactly(d: seq<Byte>, v: Value)
    ensures ReadPlist(d) == Some(v)
        <==> Sound(d) && var t := TrailerIn(d);
                         Says(d, t, Entry(d, t.offsetTableOffset, t.offsetIntSize, t.topObject), v)
  {
    hide SizedInt, HeadAt, OffsetOf, Entry, Says, Represents, SoundOffsets, TrailerIn, Decode;
    AcceptedExactly(d);
    if Sound(d) {
      TrailerIsRead(d);
      var t := TrailerIn(d);
      EntryIsOffset(d, t, t.topObject);
      var g, off := ObjectsOf(d, t), OffsetOf(d, t, t.topObject);
      DecodeIsMeaning(g, off, None, 0);
      MeaningIs(g, off, v);
      SaysIsRepresents(d, t, off, v);
    }
  }
}
