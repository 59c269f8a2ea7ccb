/** Vectors of bits kept in 8-bit buckets, and operations on ranges that work a bucket at a time. */
module BitVector {

  const FULL: bv8 := 0xFF

  // ---------- Bits of a bucket ----------

  /** Bit `k`, counted from the left. */
  function Bit(b: bv8, k: nat): bool {
    match k
    case 0 => b & 0x80 != 0 case 1 => b & 0x40 != 0 case 2 => b & 0x20 != 0 case 3 => b & 0x10 != 0
    case 4 => b & 0x08 != 0 case 5 => b & 0x04 != 0 case 6 => b & 0x02 != 0 case 7 => b & 0x01 != 0
    case _ => false
  }

  /** Bits from the left are worth 128, 64, 32, 16, 8, 4, 2 and 1. */
  lemma BitsAreWorth(b: bv8)
    ensures b == (if Bit(b, 0) then 128 else 0) + (if Bit(b, 1) then 64 else 0) + (if Bit(b, 2) then 32 else 0)
               + (if Bit(b, 3) then 16 else 0) + (if Bit(b, 4) then 8 else 0) + (if Bit(b, 5) then 4 else 0)
               + (if Bit(b, 6) then 2 else 0) + (if Bit(b, 7) then 1 else 0)
  {
  }

  /** Shifts by 0 to 7 places. */
  function ShiftLeft(b: bv8, n: nat): bv8 {
    match n
    case 0 => b case 1 => b << 1 case 2 => b << 2 case 3 => b << 3 case 4 => b << 4
    case 5 => b << 5 case 6 => b << 6 case 7 => b << 7 case _ => 0
  }

  function ShiftRight(b: bv8, n: nat): bv8 {
    match n
    case 0 => b case 1 => b >> 1 case 2 => b >> 2 case 3 => b >> 3 case 4 => b >> 4
    case 5 => b >> 5 case 6 => b >> 6 case 7 => b >> 7 case _ => 0
  }

  lemma ShiftLeftBit(n: nat, k: nat)
    requires n < 8 && k < 8
    ensures Bit(ShiftLeft(FULL, n), k) <==> k + n < 8
  {
  }

  lemma ShiftRightBit(b: bv8, n: nat, k: nat)
    requires n < 8 && k < 8
    ensures Bit(ShiftRight(b, n), k) <==> n <= k && Bit(b, k - n)
  {
    match n case 0 => case 1 => case 2 => case 3 => case 4 => case 5 => case 6 => case 7 =>
  }

  function And(a: bv8, b: bv8): bv8 {
    a & b
  }

  function Or(a: bv8, b: bv8): bv8 {
    a | b
  }

  function Not(a: bv8): bv8 {
    !a
  }

  lemma AndBit(a: bv8, b: bv8, k: nat)
    requires k < 8
    ensures Bit(And(a, b), k) <==> Bit(a, k) && Bit(b, k)
  {
    match k case 0 => case 1 => case 2 => case 3 => case 4 => case 5 => case 6 => case 7 =>
  }

  lemma OrBit(a: bv8, b: bv8, k: nat)
    requires k < 8
    ensures Bit(Or(a, b), k) <==> Bit(a, k) || Bit(b, k)
  {
    match k case 0 => case 1 => case 2 => case 3 => case 4 => case 5 => case 6 => case 7 =>
  }

  lemma NotBit(a: bv8, k: nat)
    requires k < 8
    ensures Bit(Not(a), k) <==> !Bit(a, k)
  {
    match k case 0 => case 1 => case 2 => case 3 => case 4 => case 5 => case 6 => case 7 =>
  }

  function Xor(a: bv8, b: bv8): bv8 {
    a ^ b
  }

  lemma XorIs(a: bv8, b: bv8)
    ensures Xor(a, b) == Or(And(a, Not(b)), And(Not(a), b))
  {
  }

  lemma XorBit(a: bv8, b: bv8, k: nat)
    requires k < 8
    ensures Bit(Xor(a, b), k) <==> Bit(a, k) != Bit(b, k)
  {
    hide *;
    XorIs(a, b);
    OrBit(And(a, Not(b)), And(Not(a), b), k);
    AndBit(a, Not(b), k);
    AndBit(Not(a), b, k);
    NotBit(a, k);
    NotBit(b, k);
  }

  function BucketMask(bottomBit: nat, topBit: nat): bv8
    requires bottomBit <= topBit < 8
  {
    ShiftRight(ShiftLeft(FULL, 8 - topBit + bottomBit - 1), bottomBit)
  }

  /** The mask has exactly the bits from bottom to top. */
  lemma MaskBits(bottomBit: nat, topBit: nat, k: nat)
    requires bottomBit <= topBit < 8 && k < 8
    ensures Bit(BucketMask(bottomBit, topBit), k) <==> bottomBit <= k <= topBit
  {
    hide Bit, ShiftLeft, ShiftRight;
    var n := 8 - topBit + bottomBit - 1;
    ShiftRightBit(ShiftLeft(FULL, n), bottomBit, k);
    if bottomBit <= k { ShiftLeftBit(n, k - bottomBit); }
  }

  // ---------- Mappers ----------

  /** What is done to the bits of a range. Counting changes none. */
  datatype Mapper = Zeroing | Setting | Flipping | Counting(value: bool)

  function MapBit(mapper: Mapper, bit: bool): bool {
    match mapper
    case Zeroing => false
    case Setting => true
    case Flipping => !bit
    case Counting(_) => bit
  }

  function MapBucket(mapper: Mapper, bucket: bv8): bv8 {
    match mapper
    case Zeroing => 0
    case Setting => FULL
    case Flipping => FULL ^ bucket
    case Counting(_) => bucket
  }

  function Blend(bucket: bv8, newVal: bv8, mask: bv8): bv8 {
    Or(And(bucket, Not(mask)), And(newVal, mask))
  }

  lemma MapBits(mapper: Mapper, b: bv8, k: nat)
    requires k < 8
    ensures Bit(MapBucket(mapper, b), k) <==> MapBit(mapper, Bit(b, k))
  {
    match k case 0 => case 1 => case 2 => case 3 => case 4 => case 5 => case 6 => case 7 =>
  }

  lemma BlendBits(b: bv8, v: bv8, bottomBit: nat, topBit: nat, k: nat)
    requires bottomBit <= topBit < 8 && k < 8
    ensures Bit(Blend(b, v, BucketMask(bottomBit, topBit)), k) <==> Bit(if bottomBit <= k <= topBit then v else b, k)
  {
    hide Bit, BucketMask, And, Or, Not;
    var m := BucketMask(bottomBit, topBit);
    MaskBits(bottomBit, topBit, k);
    OrBit(And(b, Not(m)), And(v, m), k);
    AndBit(b, Not(m), k);
    AndBit(v, m, k);
    NotBit(m, k);
  }

  // ---------- Counting ----------

  function One(b: bool): nat {
    if b then 1 else 0
  }

  function NibbleBitCount(n: bv8): nat {
    if n == 0 then 0
    else if n == 1 || n == 2 || n == 4 || n == 8 then 1
    else if n == 3 || n == 5 || n == 6 || n == 9 || n == 10 || n == 12 then 2
    else if n == 15 then 4
    else 3
  }

  /** How many of the first `n` bits are set. */
  function BitsSet(b: bv8, n: nat): nat {
    if n == 0 then 0 else BitsSet(b, n - 1) + One(Bit(b, n - 1))
  }

  lemma LowNibble(b: bv8)
    ensures NibbleBitCount(b & 0xF) == One(Bit(b, 4)) + One(Bit(b, 5)) + One(Bit(b, 6)) + One(Bit(b, 7))
  {
  }

  lemma HighNibble(b: bv8)
    ensures NibbleBitCount((b >> 4) & 0xF) == One(Bit(b, 0)) + One(Bit(b, 1)) + One(Bit(b, 2)) + One(Bit(b, 3))
  {
  }

  lemma Nibbles(b: bv8)
    ensures NibbleBitCount(b & 0xF) + NibbleBitCount((b >> 4) & 0xF) == BitsSet(b, 8)
  {
    hide Bit, NibbleBitCount;
    LowNibble(b);
    HighNibble(b);
    FourMore(b, 0);
    FourMore(b, 4);
  }

  lemma FourMore(b: bv8, n: nat)
    ensures BitsSet(b, n + 4)
         == BitsSet(b, n) + One(Bit(b, n)) + One(Bit(b, n + 1)) + One(Bit(b, n + 2)) + One(Bit(b, n + 3))
  {
    hide Bit;
    assert BitsSet(b, n + 1) == BitsSet(b, n) + One(Bit(b, n));
    assert BitsSet(b, n + 2) == BitsSet(b, n + 1) + One(Bit(b, n + 1));
    assert BitsSet(b, n + 3) == BitsSet(b, n + 2) + One(Bit(b, n + 2));
  }

  function Occurring(bucket: bv8, mask: bv8, value: bool): bv8 {
    if value then And(bucket, mask) else And(Not(bucket), mask)
  }

  /** The loop over the two nibbles. */
  method CountInBucket(bucket: bv8, mask: bv8, value: bool) returns (count: nat)
    ensures count == BitsSet(Occurring(bucket, mask, value), 8)
  {
    var val := Occurring(bucket, mask, value);
    Nibbles(val);
    count := 0;
    count := count + NibbleBitCount(val & 0xF);
    val := val >> 4;
    count := count + NibbleBitCount(val & 0xF);
  }

  // ---------- Bits of a vector ----------

  function BitAt(buckets: seq<bv8>, i: nat): bool {
    i / 8 < |buckets| && Bit(buckets[i / 8], i % 8)
  }

  /** How many bits of a range have a value. */
  function CountRange(buckets: seq<bv8>, lo: nat, hi: nat, value: bool): nat
  {
    if hi <= lo then 0 else CountRange(buckets, lo, hi - 1, value) + One(BitAt(buckets, hi - 1) == value)
  }

  lemma {:induction false} CountRangeSplit(buckets: seq<bv8>, lo: nat, mid: nat, hi: nat, value: bool)
    requires lo <= mid <= hi
    ensures CountRange(buckets, lo, hi, value)
         == CountRange(buckets, lo, mid, value) + CountRange(buckets, mid, hi, value)
  {
    if mid < hi { CountRangeSplit(buckets, lo, mid, hi - 1, value); }
  }

  lemma OccurringBits(b: bv8, bottomBit: nat, topBit: nat, value: bool, k: nat)
    requires bottomBit <= topBit < 8 && k < 8
    ensures Bit(Occurring(b, BucketMask(bottomBit, topBit), value), k)
      <==> bottomBit <= k <= topBit && Bit(b, k) == value
  {
    hide Bit, BucketMask, And, Not;
    var m := BucketMask(bottomBit, topBit);
    MaskBits(bottomBit, topBit, k);
    AndBit(b, m, k);
    AndBit(Not(b), m, k);
    NotBit(b, k);
  }

  /** Bits counted under a mask are those of the range that the mask covers. */
  lemma {:induction false} OccurringInRange(buckets: seq<bv8>, j: nat, bottomBit: nat, topBit: nat, value: bool, n: nat)
    requires j < |buckets| && bottomBit <= topBit < 8 && n <= 8
    ensures BitsSet(Occurring(buckets[j], BucketMask(bottomBit, topBit), value), n)
         == CountRange(buckets, 8 * j + bottomBit, if n <= topBit then 8 * j + n else 8 * j + topBit + 1, value)
  {
    hide Bit, BucketMask, Occurring;
    if n > 0 {
      OccurringInRange(buckets, j, bottomBit, topBit, value, n - 1);
      OccurringBits(buckets[j], bottomBit, topBit, value, n - 1);
      assert (8 * j + (n - 1)) / 8 == j && (8 * j + (n - 1)) % 8 == n - 1;
    }
  }

  // ---------- Ranges ----------

  /** What a bit-by-bit loop over a range would have done to the bits. */
  ghost predicate MappedRange(mapper: Mapper, was: seq<bv8>, now: seq<bv8>, lo: nat, hi: nat) {
    |now| == |was| && forall i: nat :: i < 8 * |was| ==>
      BitAt(now, i) == if lo <= i < hi then MapBit(mapper, BitAt(was, i)) else BitAt(was, i)
  }

  /** One bucket mapped under a mask extends the mapped range over the bits of the mask. */
  lemma MapOne(mapper: Mapper, was: seq<bv8>, now: seq<bv8>, lo: nat, hi: nat, j: nat, bottomBit: nat, topBit: nat)
    requires j < |was| && bottomBit <= topBit < 8 && lo <= hi == 8 * j + bottomBit
    requires MappedRange(mapper, was, now, lo, hi)
    ensures MappedRange(mapper, was, now[j := Blend(now[j], MapBucket(mapper, now[j]), BucketMask(bottomBit, topBit))],
                        lo, 8 * j + topBit + 1)
  {
    hide Bit, Blend, BucketMask, MapBucket, MapBit;
    var b := now[j];
    var v := MapBucket(mapper, b);
    var next := now[j := Blend(b, v, BucketMask(bottomBit, topBit))];
    forall i: nat | i < 8 * |was|
      ensures BitAt(next, i) == if lo <= i < 8 * j + topBit + 1 then MapBit(mapper, BitAt(was, i)) else BitAt(was, i)
    {
      if i / 8 == j {
        BlendBits(b, v, bottomBit, topBit, i % 8);
        MapBits(mapper, b, i % 8);
      } else {
        assert BitAt(next, i) == BitAt(now, i);
      }
    }
  }

  lemma FullMask(b: bv8, v: bv8)
    ensures Blend(b, v, BucketMask(0, 7)) == v
  {
  }

  /** The state of a mapping that has got from `lo` to `hi`, having found so many bits. */
  ghost predicate Progress(mapper: Mapper, was: seq<bv8>, now: seq<bv8>, lo: nat, hi: nat, found: nat) {
    MappedRange(mapper, was, now, lo, hi) && (mapper.Counting? ==> found == CountRange(was, lo, hi, mapper.value))
  }

  lemma NothingMapped(mapper: Mapper, was: seq<bv8>, lo: nat)
    ensures Progress(mapper, was, was, lo, lo, 0)
  {
  }

  /** Counting sees the original bits. */
  lemma {:induction false} CountUnchanged(value: bool, was: seq<bv8>, now: seq<bv8>, lo: nat, hi: nat, a: nat, b: nat)
    requires MappedRange(Counting(value), was, now, lo, hi) && b <= 8 * |was|
    ensures CountRange(now, a, b, value) == CountRange(was, a, b, value)
  {
    if a < b { CountUnchanged(value, was, now, lo, hi, a, b - 1); }
  }

  lemma ProgressOne(mapper: Mapper, was: seq<bv8>, now: seq<bv8>, lo: nat, hi: nat, found: nat, more: nat,
                    j: nat, bottomBit: nat, topBit: nat)
    requires j < |was| && bottomBit <= topBit < 8 && lo <= hi == 8 * j + bottomBit
    requires Progress(mapper, was, now, lo, hi, found)
    requires mapper.Counting? ==> more == CountRange(now, hi, 8 * j + topBit + 1, mapper.value)
    ensures Progress(mapper, was, now[j := Blend(now[j], MapBucket(mapper, now[j]), BucketMask(bottomBit, topBit))],
                     lo, 8 * j + topBit + 1, found + more)
  {
    hide MappedRange, Blend, MapBucket, BucketMask, CountRange;
    MapOne(mapper, was, now, lo, hi, j, bottomBit, topBit);
    if mapper.Counting? {
      CountUnchanged(mapper.value, was, now, lo, hi, hi, 8 * j + topBit + 1);
      CountRangeSplit(was, lo, hi, 8 * j + topBit + 1, mapper.value);
    }
  }

  // ---------- Vectors ----------

  lemma ConstantBit(value: bool, k: nat)
    requires k < 8
    ensures Bit(if value then FULL else 0, k) == value
  {
  }

  function RoundUpCapacity(capacity: nat): nat {
    ((if capacity == 0 then 1 else capacity) + 63) / 64 * 64
  }

  /** The least positive multiple of 64 with room for so many bits. */
  lemma CapacityIsLeast(bits: nat, n: nat)
    ensures bits <= RoundUpCapacity(bits) && 64 <= RoundUpCapacity(bits) && RoundUpCapacity(bits) % 64 == 0
    ensures bits <= 64 * n && 0 < n ==> RoundUpCapacity(bits) <= 64 * n
  {
  }

  /** The first `count` bits. */
  function BitsOf(buckets: seq<bv8>, count: nat): (s: seq<bool>)
    ensures |s| == count
  {
    seq(count, i requires 0 <= i => BitAt(buckets, i))
  }

  /** A range of bits mapped, every other bit as it was. */
  predicate RangeMapped(mapper: Mapper, was: seq<bool>, now: seq<bool>, lo: nat, hi: nat) {
    |now| == |was| && forall i :: 0 <= i < |was| ==> now[i] == if lo <= i < hi then MapBit(mapper, was[i]) else was[i]
  }

  lemma BucketsToBits(mapper: Mapper, was: seq<bv8>, now: seq<bv8>, lo: nat, hi: nat, count: nat)
    requires MappedRange(mapper, was, now, lo, hi) && count <= 8 * |was|
    ensures RangeMapped(mapper, BitsOf(was, count), BitsOf(now, count), lo, hi)
  {
    hide BitAt, MapBit;
  }

  lemma {:induction false} CountedBits(buckets: seq<bv8>, count: nat, lo: nat, hi: nat, value: bool)
    requires lo <= hi <= count
    ensures CountRange(buckets, lo, hi, value) == multiset(BitsOf(buckets, count)[lo..hi])[value]
  {
    hide BitAt;
    if lo < hi {
      var bits := BitsOf(buckets, count);
      CountedBits(buckets, count, lo, hi - 1, value);
      assert bits[lo..hi] == bits[lo..hi - 1] + [bits[hi - 1]];
    }
  }

  /** The mask of a single bit. */
  lemma SingleBit(k: nat, i: nat)
    requires k < 8 && i < 8
    ensures Bit(1 << (7 - k), i) <==> i == k
  {
  }

  class BitVector {
    var buckets: array<bv8>
    var count: nat
    var capacity: nat

    ghost predicate Valid()
      reads this
    {
      count <= capacity && buckets.Length == capacity / 8 + 1
    }

    ghost function Bits(): (s: seq<bool>)
      reads this, buckets
      requires Valid()
      ensures |s| == count
    {
      BitsOf(buckets[..], count)
    }

    /** What the mapper counts under the mask. */
    method Look(mapper: Mapper, j: nat, bottomBit: nat, topBit: nat) returns (more: nat)
      requires j < buckets.Length && bottomBit <= topBit < 8
      ensures mapper.Counting? ==> more == CountRange(buckets[..], 8 * j + bottomBit, 8 * j + topBit + 1, mapper.value)
    {
      hide BucketMask, Occurring;
      more := 0;
      if mapper.Counting? {
        more := CountInBucket(buckets[j], BucketMask(bottomBit, topBit), mapper.value);
        OccurringInRange(buckets[..], j, bottomBit, topBit, mapper.value, 8);
      }
    }

    method MapMasked(mapper: Mapper, j: nat, bottomBit: nat, topBit: nat,
                     ghost was: seq<bv8>, ghost lo: nat, found: nat)
      returns (all: nat)
      requires |was| == buckets.Length && j < buckets.Length && bottomBit <= topBit < 8 && lo <= 8 * j + bottomBit
      requires Progress(mapper, was, buckets[..], lo, 8 * j + bottomBit, found)
      modifies buckets
      ensures Progress(mapper, was, buckets[..], lo, 8 * j + topBit + 1, all)
    {
      hide Progress, Blend, MapBucket, BucketMask, CountRange;
      ghost var now := buckets[..];
      var more := Look(mapper, j, bottomBit, topBit);
      ProgressOne(mapper, was, now, lo, 8 * j + bottomBit, found, more, j, bottomBit, topBit);
      all := found + more;
      var b := buckets[j];
      buckets[j] := Blend(b, MapBucket(mapper, b), BucketMask(bottomBit, topBit));
      assert buckets[..] == now[j := Blend(b, MapBucket(mapper, b), BucketMask(bottomBit, topBit))];
    }

    /** A whole bucket is overwritten. */
    method MapWhole(mapper: Mapper, j: nat, ghost was: seq<bv8>, ghost lo: nat, found: nat) returns (all: nat)
      requires |was| == buckets.Length && j < buckets.Length && lo <= 8 * j
      requires Progress(mapper, was, buckets[..], lo, 8 * j, found)
      modifies buckets
      ensures Progress(mapper, was, buckets[..], lo, 8 * j + 8, all)
    {
      hide Progress, Blend, MapBucket, BucketMask, CountRange;
      ghost var now := buckets[..];
      var more := Look(mapper, j, 0, 7);
      ProgressOne(mapper, was, now, lo, 8 * j, found, more, j, 0, 7);
      all := found + more;
      var b := buckets[j];
      FullMask(b, MapBucket(mapper, b));
      buckets[j] := MapBucket(mapper, b);
      assert buckets[..] == now[j := MapBucket(mapper, b)];
    }

    /** A range in three phases: up to a bucket boundary, whole buckets, and what is left. */
    method InternalMap(loc: nat, len: nat, mapper: Mapper) returns (found: nat)
      requires loc + len <= 8 * buckets.Length
      modifies buckets
      ensures MappedRange(mapper, old(buckets[..]), buckets[..], loc, loc + len)
      ensures mapper.Counting? ==> found == CountRange(old(buckets[..]), loc, loc + len, mapper.value)
    {
      hide MappedRange, CountRange;
      ghost var was := buckets[..];
      NothingMapped(mapper, was, loc);
      if len == 0 { return 0; }
      var bucketIdx, bitOfBucket := loc / 8, loc % 8;
      var topBit, left: nat := 7, 0;
      if bitOfBucket + len < 8 {
        topBit := bitOfBucket + len - 1;
      } else {
        left := len - (8 - bitOfBucket);
      }
      found := MapMasked(mapper, bucketIdx, bitOfBucket, topBit, was, loc, 0);
      ghost var at := 8 * bucketIdx + topBit + 1;
      bucketIdx := bucketIdx + 1;
      var nBuckets: nat := left / 8;
      left := left - nBuckets * 8;
      while 0 < nBuckets
        invariant 0 <= nBuckets && left < 8
        invariant buckets == old(buckets) && loc <= at && at + 8 * nBuckets + left == loc + len
        invariant 0 < nBuckets || 0 < left ==> at == 8 * bucketIdx
        invariant Progress(mapper, was, buckets[..], loc, at, found)
      {
        found := MapWhole(mapper, bucketIdx, was, loc, found);
        at := at + 8;
        bucketIdx := bucketIdx + 1;
        nBuckets := nBuckets - 1;
      }
      if left != 0 { found := MapMasked(mapper, bucketIdx, 0, left - 1, was, loc, found); }
    }

    // ---------- The vector's operations ----------

    /** A vector of the given bits, or of zeros. */
    constructor (bytes: seq<bv8>, numBits: nat)
      requires bytes == [] || numBits <= 8 * |bytes|
      ensures Valid() && fresh(buckets) && count == numBits
      ensures forall i :: 0 <= i < numBits ==> Bits()[i] == BitAt(bytes, i)
    {
      count, capacity := numBits, RoundUpCapacity(numBits);
      var store := new bv8[RoundUpCapacity(numBits) / 8 + 1](_ => 0);
      var n := if bytes == [] then 0 else numBits / 8 + if numBits % 8 != 0 then 1 else 0;
      forall i | 0 <= i < n { store[i] := bytes[i]; }
      buckets := store;
      new;
      hide Bit;
      forall i | 0 <= i < numBits ensures Bits()[i] == BitAt(bytes, i) {
        if bytes == [] { ConstantBit(false, i % 8); } else { assert i / 8 < n; }
      }
    }

    function GetBitAtIndex(idx: nat): (bit: bool)
      reads this, buckets
      requires Valid() && idx < count
      ensures bit == Bits()[idx]
    {
      assert idx / 8 < buckets.Length;
      (buckets[idx / 8] >> (7 - idx % 8)) & 1 == 1
    }

    method SetBits(loc: nat, len: nat, value: bool)
      requires Valid() && loc + len <= count
      modifies buckets
      ensures Valid()
      ensures forall i :: 0 <= i < count ==> Bits()[i] == if loc <= i < loc + len then value else old(Bits())[i]
    {
      hide BitAt, CountRange;
      ghost var was, mapper := buckets[..], if value then Setting else Zeroing;
      if len != 0 { var _ := InternalMap(loc, len, if value then Setting else Zeroing); }
      BucketsToBits(mapper, was, buckets[..], loc, loc + len, count);
    }

    method FlipBits(loc: nat, len: nat)
      requires Valid() && loc + len <= count
      modifies buckets
      ensures Valid()
      ensures forall i :: 0 <= i < count ==> Bits()[i] == if loc <= i < loc + len then !old(Bits())[i] else old(Bits())[i]
    {
      hide BitAt, CountRange;
      ghost var was := buckets[..];
      if len != 0 { var _ := InternalMap(loc, len, Flipping); }
      BucketsToBits(Flipping, was, buckets[..], loc, loc + len, count);
    }

    /** Goes through the same mapper, which writes every bucket back. */
    method GetCountOfBit(loc: nat, len: nat, value: bool) returns (found: nat)
      requires Valid() && loc + len <= count
      modifies buckets
      ensures Valid() && Bits() == old(Bits()) && found == multiset(Bits()[loc..loc + len])[value]
    {
      hide BitAt, CountRange;
      ghost var was := buckets[..];
      CountedBits(was, count, loc, loc + len, value);
      found := 0;
      if len != 0 { found := InternalMap(loc, len, Counting(value)); }
      BucketsToBits(Counting(value), was, buckets[..], loc, loc + len, count);
    }

    method ContainsBit(loc: nat, len: nat, value: bool) returns (found: bool)
      requires Valid() && loc + len <= count
      modifies buckets
      ensures Valid() && Bits() == old(Bits()) && (found <==> value in Bits()[loc..loc + len])
    {
      var n := GetCountOfBit(loc, len, value);
      return n != 0;
    }

    /** Fills whole buckets after mapping what is left over. */
    method SetAllBits(value: bool)
      requires Valid()
      modifies buckets
      ensures Valid() && forall i :: 0 <= i < count ==> Bits()[i] == value
    {
      hide Bit, CountRange;
      ghost var was := buckets[..];
      var nBuckets := count / 8;
      var leftover := count - nBuckets * 8;
      if 0 < leftover { var _ := InternalMap(nBuckets * 8, leftover, if value then Setting else Zeroing); }
      ghost var mapped := buckets[..];
      forall i | 0 <= i < nBuckets { buckets[i] := if value then FULL else 0; }
      forall i | 0 <= i < count ensures Bits()[i] == value {
        if i / 8 < nBuckets {
          ConstantBit(value, i % 8);
        } else {
          assert buckets[..][i / 8] == mapped[i / 8] && BitAt(mapped, i) == value;
        }
      }
    }

    /** Makes room for more bits. The new buckets hold anything. */
    method Grow(numNewValues: nat)
      requires Valid()
      modifies this`buckets, this`capacity
      ensures Valid() && fresh(buckets) && count + numNewValues <= capacity && Bits() == old(Bits())
    {
      hide Bit;
      capacity := RoundUpCapacity(count + numNewValues);
      var store := new bv8[capacity / 8 + 1];
      var n := if store.Length < buckets.Length then store.Length else buckets.Length;
      forall i | 0 <= i < n { store[i] := buckets[i]; }
      assert forall i :: 0 <= i < count ==> BitAt(store[..], i) == BitAt(buckets[..], i);
      buckets := store;
    }

    /** Bits that a longer count brings into view are zero, whatever was there. */
    method SetCount(newCount: nat)
      requires Valid()
      modifies this, buckets
      ensures Valid() && (buckets == old(buckets) || fresh(buckets)) && count == newCount
      ensures forall i :: 0 <= i < newCount ==> Bits()[i] == (i < old(count) && old(Bits())[i])
    {
      hide Bit, CountRange;
      ghost var bits := Bits();
      var cnt := count;
      if cnt < newCount {
        Grow(newCount - cnt);
        ghost var was := buckets[..];
        assert forall i :: 0 <= i < cnt ==> bits[i] == BitAt(was, i);
        var _ := InternalMap(cnt, newCount - cnt, Zeroing);
      }
      count := newCount;
      assert forall i :: 0 <= i < newCount ==> Bits()[i] == BitAt(buckets[..], i);
    }

    method SetBitAtIndex(idx: nat, value: bool)
      requires Valid() && idx < count
      modifies buckets
      ensures Valid() && Bits() == old(Bits())[idx := value]
    {
      hide Bit, And, Or, Not;
      ghost var was := buckets[..];
      var j, k := idx / 8, idx % 8;
      var b := buckets[j];
      buckets[j] := if value then Or(b, 1 << (7 - k)) else And(b, Not(1 << (7 - k)));
      forall i | 0 <= i < count ensures Bits()[i] == old(Bits())[idx := value][i] {
        SingleBit(k, i % 8);
        OrBit(b, 1 << (7 - k), i % 8);
        AndBit(b, Not(1 << (7 - k)), i % 8);
        NotBit(1 << (7 - k), i % 8);
        assert old(Bits())[i] == BitAt(was, i);
      }
    }

    method FlipBitAtIndex(idx: nat)
      requires Valid() && idx < count
      modifies buckets
      ensures Valid() && Bits() == old(Bits())[idx := !old(Bits())[idx]]
    {
      hide Bit, Xor;
      ghost var was := buckets[..];
      var j, k := idx / 8, idx % 8;
      var b := buckets[j];
      buckets[j] := Xor(b, 1 << (7 - k));
      forall i | 0 <= i < count ensures Bits()[i] == old(Bits())[idx := !old(Bits())[idx]][i] {
        SingleBit(k, i % 8);
        XorBit(b, 1 << (7 - k), i % 8);
        assert old(Bits())[i] == BitAt(was, i);
      }
    }
  }
}
