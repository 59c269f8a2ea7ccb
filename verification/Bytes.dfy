/** Machine words, byte strings and big-endian numbers, shared by the other modules. */
module Bytes {
  type Byte = x: int | 0 <= x < 0x100
  type UInt16 = x: int | 0 <= x < 0x1_0000
  type UInt32 = x: int | 0 <= x < 0x1_0000_0000
  type UInt64 = x: int | 0 <= x < 0x1_0000_0000_0000_0000
  type Int64 = x: int | -0x8000_0000_0000_0000 <= x < 0x8000_0000_0000_0000

  const LONG_MAX: nat := 0x7FFF_FFFF_FFFF_FFFF
  const ULLONG_MAX: nat := 0xFFFF_FFFF_FFFF_FFFF
  const TWO_TO_32: nat := 0x1_0000_0000
  const TWO_TO_64: nat := 0x1_0000_0000_0000_0000

  datatype Option<+T> = None | Some(value: T) {
    predicate IsFailure() { None? }

    function PropagateFailure<U>(): Option<U>
      requires None?
    {
      None
    }

    function Extract(): T
      requires Some?
    {
      value
    }
  }

  function Pow256(n: nat): (p: nat)
    ensures p >= 1
  {
    if n == 0 then 1 else 256 * Pow256(n - 1)
  }

  function Min(a: int, b: int): int {
    if a < b then a else b
  }

  lemma {:induction false} MulMonotonic(a: nat, b: nat, c: nat)
    requires a <= b
    ensures a * c <= b * c
  {
    if c > 0 {
      MulMonotonic(a, b, c - 1);
      assert a * c == a * (c - 1) + a && b * c == b * (c - 1) + b;
    }
  }

  /** The low `n` bytes of `v`, most significant first. */
  function BigEndian(v: nat, n: nat): (s: seq<Byte>)
    ensures |s| == n
  {
    if n == 0 then [] else BigEndian(v / 256, n - 1) + [v % 256]
  }

  /** The number a byte string spells, most significant byte first. */
  function Number(s: seq<Byte>): (v: nat)
    ensures v < Pow256(|s|)
  {
    if s == [] then 0 else 256 * Number(s[..|s| - 1]) + s[|s| - 1]
  }

  /** What is left of that number in a 64-bit accumulator. */
  function SizedInt(s: seq<Byte>): UInt64 {
    Number(s) % TWO_TO_64
  }

  function Unsigned64(v: Int64): UInt64 {
    if v < 0 then v + TWO_TO_64 else v
  }

  function Signed64(v: UInt64): Int64 {
    if v > LONG_MAX then v - TWO_TO_64 else v
  }

  lemma {:induction false} NumberOfBigEndian(v: nat, n: nat)
    requires v < Pow256(n)
    ensures Number(BigEndian(v, n)) == v
  {
    if n > 0 {
      NumberOfBigEndian(v / 256, n - 1);
      assert BigEndian(v, n)[..n - 1] == BigEndian(v / 256, n - 1);
    }
  }

  lemma Pow256Values()
    ensures Pow256(0) == 1 && Pow256(1) == 0x100 && Pow256(2) == 0x1_0000 && Pow256(3) == 0x100_0000
    ensures Pow256(4) == 0x1_0000_0000 && Pow256(5) == 0x100_0000_0000 && Pow256(6) == 0x1_0000_0000_0000
    ensures Pow256(7) == 0x100_0000_0000_0000 && Pow256(8) == TWO_TO_64
  {
    assert Pow256(3) == 256 * Pow256(2);
    assert Pow256(5) == 256 * Pow256(4);
    assert Pow256(6) == 256 * Pow256(5);
    assert Pow256(7) == 256 * Pow256(6);
  }

  /** A number of at most eight bytes survives being written and read. */
  lemma SizedIntOfBigEndian(v: nat, n: nat)
    requires v < Pow256(n) && v < TWO_TO_64
    ensures SizedInt(BigEndian(v, n)) == v
  {
    NumberOfBigEndian(v, n);
  }

  /** The string `s` stands in `d` at offset `off`. */
  predicate At(d: seq<Byte>, off: nat, s: seq<Byte>) {
    off + |s| <= |d| && d[off..off + |s|] == s
  }

  lemma AtSplit(d: seq<Byte>, off: nat, a: seq<Byte>, b: seq<Byte>)
    ensures At(d, off, a + b) <==> At(d, off, a) && At(d, off + |a|, b)
  {
    if off + |a| + |b| <= |d| {
      assert d[off..off + |a| + |b|] == d[off..off + |a|] + d[off + |a|..off + |a| + |b|];
      if At(d, off, a + b) {
        assert d[off..off + |a|] == (a + b)[..|a|] == a;
        assert d[off + |a|..off + |a| + |b|] == (a + b)[|a|..] == b;
      }
    }
  }

  function Concat(chunks: seq<seq<Byte>>): seq<Byte> {
    if chunks == [] then [] else chunks[0] + Concat(chunks[1..])
  }

  /** Where each chunk begins when the first begins at `start`. */
  function Starts(chunks: seq<seq<Byte>>, start: nat): (offs: seq<nat>)
    ensures |offs| == |chunks|
  {
    if chunks == [] then [] else [start] + Starts(chunks[1..], start + |chunks[0]|)
  }

  lemma Concatenate(a: seq<Byte>, b: seq<Byte>, c: seq<Byte>)
    ensures (a + b) + c == a + (b + c)
  {
  }

  lemma ConcatStep(chunks: seq<seq<Byte>>, i: nat, now: seq<Byte>)
    requires i < |chunks|
    ensures (now + chunks[i]) + Concat(chunks[i + 1..]) == now + Concat(chunks[i..])
  {
    assert chunks[i..][1..] == chunks[i + 1..];
    Concatenate(now, chunks[i], Concat(chunks[i + 1..]));
  }

  lemma StartsStep(chunks: seq<seq<Byte>>, i: nat, start: nat)
    requires i < |chunks|
    ensures Starts(chunks[i..], start) == [start] + Starts(chunks[i + 1..], start + |chunks[i]|)
  {
    assert chunks[i..][1..] == chunks[i + 1..];
  }

  /** Delivering chunks one by one after `start`: those at `offsets` are out, and `now` holds them. */
  predicate Delivered(start: seq<Byte>, now: seq<Byte>, offsets: seq<nat>, chunks: seq<seq<Byte>>) {
    && |offsets| <= |chunks|
    && now + Concat(chunks[|offsets|..]) == start + Concat(chunks)
    && offsets + Starts(chunks[|offsets|..], |now|) == Starts(chunks, |start|)
  }

  lemma DeliveredStep(start: seq<Byte>, now: seq<Byte>, offsets: seq<nat>, chunks: seq<seq<Byte>>)
    requires Delivered(start, now, offsets, chunks) && |offsets| < |chunks|
    ensures Delivered(start, now + chunks[|offsets|], offsets + [|now|], chunks)
  {
    ConcatStep(chunks, |offsets|, now);
    StartsStep(chunks, |offsets|, |now|);
    var rest := Starts(chunks[|offsets| + 1..], |now + chunks[|offsets|]|);
    assert (offsets + [|now|]) + rest == offsets + ([|now|] + rest);
  }

  lemma DeliveredAll(start: seq<Byte>, now: seq<Byte>, offsets: seq<nat>, chunks: seq<seq<Byte>>)
    requires Delivered(start, now, offsets, chunks) && |offsets| == |chunks|
    ensures now == start + Concat(chunks) && offsets == Starts(chunks, |start|)
  {
  }

  /** Each chunk of a concatenation stands where `Starts` says, and inside the whole. */
  lemma {:induction false} ChunksAt(d: seq<Byte>, start: nat, chunks: seq<seq<Byte>>, i: nat)
    requires At(d, start, Concat(chunks)) && i < |chunks|
    ensures At(d, Starts(chunks, start)[i], chunks[i])
    ensures start <= Starts(chunks, start)[i]
    ensures Starts(chunks, start)[i] + |chunks[i]| <= start + |Concat(chunks)|
    decreases i
  {
    AtSplit(d, start, chunks[0], Concat(chunks[1..]));
    if i > 0 {
      ChunksAt(d, start + |chunks[0]|, chunks[1..], i - 1);
    }
  }

  /** Chunks of one size lie at multiples of it. */
  lemma {:induction false} EqualChunks(chunks: seq<seq<Byte>>, size: nat, start: nat)
    requires forall i :: 0 <= i < |chunks| ==> |chunks[i]| == size
    ensures |Concat(chunks)| == |chunks| * size
    ensures forall i :: 0 <= i < |chunks| ==> Starts(chunks, start)[i] == start + i * size
  {
    if chunks != [] {
      EqualChunks(chunks[1..], size, start + size);
      assert |chunks| * size == (|chunks| - 1) * size + size;
      forall i | 0 < i < |chunks| ensures Starts(chunks, start)[i] == start + i * size {
        assert Starts(chunks, start)[i] == Starts(chunks[1..], start + size)[i - 1];
        assert i * size == (i - 1) * size + size;
      }
    }
  }

  /** The accumulator loop behind every multi-byte read of the decoder. */
  method GetSizedInt(d: seq<Byte>, at: nat, valSize: nat) returns (res: UInt64)
    requires at + valSize <= |d|
    ensures res == SizedInt(d[at..at + valSize])
  {
    res := 0;
    for idx := 0 to valSize
      invariant res == SizedInt(d[at..at + idx])
    {
      ghost var before, after := d[at..at + idx], d[at..at + idx + 1];
      assert after[..idx] == before && after[idx] == d[at + idx];
      ShiftIn(Number(before), d[at + idx]);
      res := (res * 256 + d[at + idx]) % TWO_TO_64;
    }
  }

  lemma ShiftIn(n: nat, b: Byte)
    ensures ((n % TWO_TO_64) * 256 + b) % TWO_TO_64 == (256 * n + b) % TWO_TO_64
  {
    var q, r := n / TWO_TO_64, n % TWO_TO_64;
    assert 256 * n + b == (r * 256 + b) + TWO_TO_64 * (256 * q);
    DropMultiple(r * 256 + b, 256 * q);
  }

  lemma DropMultiple(x: nat, k: nat)
    ensures (x + TWO_TO_64 * k) % TWO_TO_64 == x % TWO_TO_64
  {
  }
}
