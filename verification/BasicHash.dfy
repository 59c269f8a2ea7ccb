/** The hash table behind dictionaries, sets and bags. */
module BasicHash {
  import opened Bytes
  import opened HashTheory
  import opened HashMeaning

  /** The greatest count that each width of counter is used for. */
  function MaxCount(width: nat): nat {
    if width == 0 then 0x7F else if width == 1 then 0x7FFF else if width == 2 then 0x7FFF_FFFF else LONG_MAX
  }

  class BasicHash {
    const ks: Keys
    const hasKeys: bool
    const hasCounts: bool
    const fastGrow: bool
    var values: array<Word>
    var keys: array<Word>
    var counts: array<nat>
    var countsWidth: nat
    var usedBuckets: nat
    var deleted: nat
    var numBucketsIdx: nat

    ghost function Repr(): set<object>
      reads this`values, this`keys, this`counts
    {
      {values as object, keys as object, counts as object}
    }

    /** Array sizes agree with the size index, and raw keys with raw values about which buckets are live. */
    ghost predicate Arrays()
      reads this`values, this`keys, this`counts, this`countsWidth, this`numBucketsIdx, values, keys, counts
    {
      && countsWidth <= 3
      && values.Length == NumBuckets(numBucketsIdx)
      && keys != values && (hasKeys ==> keys.Length == values.Length)
      && (hasCounts ==> counts.Length == values.Length)
      && (forall i :: hasKeys && 0 <= i < values.Length ==>
            (keys[i] == 0 <==> values[i] == 0) && (keys[i] == ALL_ONES <==> values[i] == ALL_ONES))
      && (forall i :: hasCounts && 0 <= i < values.Length ==> counts[i] <= MaxCount(countsWidth))
    }

    /** A bucket that is not live counts nothing. */
    ghost predicate Tidy()
      reads this`values, this`keys, this`counts, this`countsWidth, this`numBucketsIdx, values, keys, counts
      requires Arrays()
    {
      forall i :: hasCounts && 0 <= i < values.Length && values[i] in {0, ALL_ONES} ==> counts[i] == 0
    }

    ghost predicate Shape()
      reads this`values, this`keys, this`counts, this`countsWidth, this`numBucketsIdx, values, keys, counts
    {
      Arrays() && Tidy()
    }

    ghost function Slots(): (s: seq<Slot>)
      reads this`values, this`keys, this`counts, this`countsWidth, this`numBucketsIdx, values, keys, counts
      requires Arrays()
      ensures |s| == values.Length
    {
      SlotsOf(hasKeys, hasCounts, values[..], keys[..], counts[..])
    }

    ghost predicate Valid()
      reads this, values, keys, counts
    {
      && Shape()
      && WellPlaced(ks, Slots())
      && usedBuckets == NumLive(Slots()) <= Capacity(numBucketsIdx)
      && deleted == NumDeleted(Slots()) < 0x1_0000 && FewTombstones()
    }

    /** A large table is rehashed before a quarter of its buckets are tombstones. */
    ghost predicate FewTombstones()
      reads this
    {
      20 <= NumBuckets(numBucketsIdx) ==> deleted < NumBuckets(numBucketsIdx) / 4
    }

    ghost function View(): View
      reads this`values, this`keys, this`counts, this`countsWidth, this`numBucketsIdx, values, keys, counts
      requires Arrays()
    {
      Contents(ks, Slots())
    }

    /** The used buckets are the entries. */
    lemma UsedIsSize()
      requires Core()
      ensures usedBuckets == |View()|
    {
      LiveAreEntries(ks, Slots());
    }

    constructor (ks: Keys, hasKeys: bool, hasCounts: bool, fastGrow: bool)
      ensures Valid() && fresh(Repr()) && View() == map[] && numBucketsIdx == 0
      ensures this.ks == ks && this.hasKeys == hasKeys && this.hasCounts == hasCounts && this.fastGrow == fastGrow
    {
      this.ks, this.hasKeys, this.hasCounts, this.fastGrow := ks, hasKeys, hasCounts, fastGrow;
      var v := new Word[0](_ => 0);
      var k := new Word[0](_ => 0);
      values, keys, counts := v, k, new nat[0](_ => 0);
      countsWidth, usedBuckets, deleted, numBucketsIdx := 0, 0, 0, 0;
    }

    // ---------- Counts ----------

    /** Counts move to an array of twice the width. */
    method BumpCounts()
      requires hasCounts && countsWidth < 3
      modifies this`counts, this`countsWidth
      ensures fresh(counts) && counts[..] == old(counts[..]) && countsWidth == old(countsWidth) + 1
    {
      var wider := new nat[counts.Length](_ => 0);
      for idx2 := 0 to counts.Length
        invariant counts == old(counts) && countsWidth == old(countsWidth) && counts[..] == old(counts[..])
        invariant wider[..idx2] == counts[..idx2]
      {
        wider[idx2] := counts[idx2];
      }
      countsWidth := countsWidth + 1;
      assert wider[..] == wider[..counts.Length] && counts[..] == counts[..counts.Length];
      counts := wider;
    }

    method IncSlotCount(idx: nat)
      requires hasCounts && countsWidth <= 3 && idx < counts.Length && counts[idx] < LONG_MAX
      requires forall i :: 0 <= i < counts.Length ==> counts[i] <= MaxCount(countsWidth)
      modifies this`counts, this`countsWidth, counts
      ensures counts == old(counts) || fresh(counts)
      ensures countsWidth <= 3 && counts[..] == old(counts[..])[idx := old(counts[idx]) + 1]
      ensures forall i :: 0 <= i < counts.Length ==> counts[i] <= MaxCount(countsWidth)
      ensures countsWidth == old(countsWidth)
          <==> old(counts[idx]) < [0x7F, 0x7FFF, 0x7FFF_FFFF, 0x7FFF_FFFF_FFFF_FFFF][old(countsWidth)]
      decreases 3 - countsWidth
    {
      var val := counts[idx];
      if val < MaxCount(countsWidth) {
        counts[idx] := val + 1;
        return;
      }
      BumpCounts();
      assert forall i :: 0 <= i < counts.Length ==> counts[i] == counts[..][i] == old(counts[..])[i] == old(counts[i]);
      IncSlotCount(idx);
    }

    // ---------- One bucket ----------

    /** Raw words into one bucket. The count is left alone. */
    method SetRaw(idx: nat, rawKey: Word, rawValue: Word)
      requires idx < values.Length && keys != values && (hasKeys ==> idx < keys.Length)
      modifies values, keys
      ensures values[..] == old(values[..])[idx := rawValue]
      ensures keys[..] == if hasKeys then old(keys[..])[idx := rawKey] else old(keys[..])
    {
      values[idx] := rawValue;
      if hasKeys { keys[idx] := rawKey; }
    }

    /** A key and value into a bucket that is not live. */
    method Occupy(idx: nat, key: Word, value: Word)
      requires Shape() && idx < values.Length && Slots()[idx] in {Empty, Deleted}
      requires Storable(key) && Storable(value) && (hasKeys || key == value)
      modifies this`counts, this`countsWidth, values, keys, counts
      ensures Shape() && fresh(Repr() - old(Repr()))
      ensures Slots() == old(Slots())[idx := Live(key, value, 1)]
    {
      hide NumBuckets;
      SetRaw(idx, Encode(key), Encode(value));
      if hasCounts { IncSlotCount(idx); }
    }

    /** A key and value over those of a live bucket. */
    method Overwrite(idx: nat, key: Word, value: Word)
      requires Shape() && idx < values.Length && Slots()[idx].Live?
      requires Storable(key) && Storable(value) && (hasKeys || key == value)
      modifies values, keys
      ensures Shape()
      ensures Slots() == old(Slots())[idx := Live(key, value, old(Slots()[idx].count))]
    {
      hide NumBuckets;
      SetRaw(idx, Encode(key), Encode(value));
    }

    // ---------- Probing ----------

    /** Linear probing: the bucket of an equal key, or the one an addition should fill (-1 if every
        bucket is live). */
    method FindBucket(key: Word) returns (idx: int, count: nat)
      requires Valid()
      ensures 0 < count ==> 0 <= idx && Holds(ks, Slots(), key, idx) && count == Slots()[idx].count
      ensures count == 0 ==> Absent(ks, Slots(), key) && (0 <= idx ==> Vacancy(ks, Slots(), key, idx))
      ensures idx < 0 ==> count == 0 && AllLive(Slots())
    {
      hide NumLive, NumDeleted, Capacity, NumBuckets, SlotsOf;
      var n := values.Length;
      if n == 0 { return -1, 0; }
      ghost var s, h := Slots(), Home(ks, key, n);
      var probe, deletedIdx := ks.Hash(key) % n, -1;
      for i := 0 to n
        invariant h < n && probe == Around(h, i, n)
        invariant forall m :: 0 <= m < n && Visited(h, i, n, m) ==> !s[m].Empty? && !Holds(ks, s, key, m)
        invariant deletedIdx == -1 ==> forall m :: 0 <= m < n && Visited(h, i, n, m) ==> s[m].Live?
        invariant deletedIdx != -1 ==> 0 <= deletedIdx < n && Visited(h, i, n, deletedIdx)
                                       && Vacancy(ks, s, key, deletedIdx)
      {
        VisitNext(h, i, n);
        SlotsAt(hasKeys, hasCounts, values[..], keys[..], counts[..], probe);
        var raw := if hasKeys then keys[probe] else values[probe];
        if raw == 0 {
          assert s[probe].Empty?;
          EmptyStopsSearch(ks, s, key, probe);
          return if deletedIdx == -1 then probe else deletedIdx, 0;
        } else if raw == ALL_ONES {
          assert s[probe].Deleted?;
          if deletedIdx == -1 { deletedIdx := probe; }
        } else {
          assert s[probe].Live? && s[probe].key == Decode(raw);
          if Decode(raw) == key || ks.Equate(Decode(raw), key) {
            return probe, if hasCounts then counts[probe] else 1;
          }
        }
        probe := probe + 1;
        if n <= probe { probe := probe - n; }
      }
      assert forall m :: 0 <= m < n ==> Visited(h, n, n, m);
      return deletedIdx, 0;
    }

    /** Probing while rehashing: there are no tombstones and the key is new, so any bucket that is not
        empty is passed over. */
    method FindBucketNoCollision(key: Word) returns (idx: int)
      requires Shape()
      requires forall i :: 0 <= i < values.Length ==> !Slots()[i].Deleted?
      ensures 0 <= idx ==> Vacancy(ks, Slots(), key, idx)
      ensures idx < 0 ==> AllLive(Slots())
    {
      var n := values.Length;
      if n == 0 { return -1; }
      ghost var s, h := Slots(), Home(ks, key, n);
      var probe := ks.Hash(key) % n;
      for i := 0 to n
        invariant h < n && probe == Around(h, i, n)
        invariant forall m :: 0 <= m < n && Visited(h, i, n, m) ==> !s[m].Empty?
      {
        VisitNext(h, i, n);
        var raw := if hasKeys then keys[probe] else values[probe];
        if raw == 0 { return probe; }
        assert !s[probe].Empty?;
        probe := probe + 1;
        if n <= probe { probe := probe - n; }
      }
      assert forall m :: 0 <= m < n ==> Visited(h, n, n, m);
      return -1;
    }

    // ---------- Growing and shrinking ----------

    method IndexForCapacity(capacity: nat) returns (idx: nat)
      requires capacity <= Capacity(MAX_INDEX)
      ensures idx <= MAX_INDEX && capacity <= Capacity(idx)
      ensures forall i :: 0 <= i < idx ==> Capacity(i) < capacity
      ensures idx == IndexFrom(capacity, 0)
    {
      hide Capacity;
      IndexIsFirst(capacity, 0);
      idx := 0;
      while Capacity(idx) < capacity
        invariant idx <= MAX_INDEX
        invariant forall i :: 0 <= i < idx ==> Capacity(i) < capacity
        decreases MAX_INDEX - idx
      {
        idx := idx + 1;
      }
    }

    /** Fresh arrays of the given size, all buckets empty. */
    method Clear(newIdx: nat)
      requires countsWidth <= 3
      modifies this`values, this`keys, this`counts, this`numBucketsIdx
      ensures numBucketsIdx == newIdx && Shape() && fresh(Repr())
      ensures |Slots()| == NumBuckets(newIdx) && forall i :: 0 <= i < |Slots()| ==> Slots()[i] == Empty
    {
      var n := NumBuckets(newIdx);
      var v, k, c := new Word[n](_ => 0), new Word[n](_ => 0), new nat[n](_ => 0);
      values, keys, counts, numBucketsIdx := v, k, c, newIdx;
    }

    /** A key, value and count taken from the old table into an empty bucket of the new one. */
    method Reinsert(idx: nat, key: Word, value: Word, count: nat)
      requires Shape() && idx < values.Length && Slots()[idx] == Empty
      requires Storable(key) && Storable(value) && (hasKeys || key == value)
      requires count <= MaxCount(countsWidth) && (!hasCounts ==> count == 1)
      modifies values, keys, counts
      ensures Shape()
      ensures Slots() == old(Slots())[idx := Live(key, value, count)]
    {
      hide NumBuckets;
      SetRaw(idx, Encode(key), Encode(value));
      if hasCounts { counts[idx] := count; }
    }

    /** Everything but the tombstone count and the counts of tombstones is in order. */
    ghost predicate Core()
      reads this, values, keys, counts
    {
      Arrays() && WellPlaced(ks, Slots()) && usedBuckets == NumLive(Slots()) <= Capacity(numBucketsIdx)
    }

    /** Room for a rehash that asks for `newItemCount` more buckets. */
    ghost predicate HasRoom(newItemCount: int)
      reads this
    {
      && usedBuckets + newItemCount <= Capacity(MAX_INDEX)
      && (fastGrow && newItemCount == 1 ==> usedBuckets + 1 <= Capacity(MAX_INDEX - 1))
    }

    /** The size a rehash leads to. */
    ghost function NextIndex(newItemCount: int): nat
      reads this
    {
      if newItemCount == 0 then numBucketsIdx
      else IndexFrom(if newItemCount < 0 then usedBuckets else usedBuckets + newItemCount, 0)
           + if newItemCount == 1 && fastGrow then 1 else 0
    }

    /** An entry can be added at once, or after growing. */
    ghost predicate CanAdd()
      reads this
    {
      RoomForOne(fastGrow, numBucketsIdx, usedBuckets)
    }

    method NewIndex(newItemCount: int) returns (newIdx: nat)
      requires usedBuckets <= Capacity(numBucketsIdx) && HasRoom(newItemCount)
      ensures newIdx == NextIndex(newItemCount)
      ensures usedBuckets + newItemCount <= Capacity(newIdx) && usedBuckets <= Capacity(newIdx) <= NumBuckets(newIdx)
    {
      hide SizeAt, Capacity, NumBuckets, IndexFrom;
      UsedIsSmall(numBucketsIdx);
      newIdx := numBucketsIdx;
      if newItemCount != 0 {
        newIdx := IndexForCapacity(usedBuckets + if newItemCount < 0 then 0 else newItemCount);
        if newItemCount == 1 && fastGrow {
          SizesFit(newIdx);
          newIdx := newIdx + 1;
        }
      }
      SizesFit(newIdx);
    }

    /** Bucket `idx` of the old arrays, which hold `s`, moves if it is live. */
    method MoveBucket(ghost s: seq<Slot>, idx: nat, oldValues: array<Word>, oldKeys: array<Word>, oldCounts: array<nat>)
      requires Shape() && {oldValues as object, oldKeys as object, oldCounts as object} !! Repr()
      requires (hasKeys ==> oldKeys.Length == oldValues.Length) && (hasCounts ==> oldCounts.Length == oldValues.Length)
      requires s == SlotsOf(hasKeys, hasCounts, oldValues[..], oldKeys[..], oldCounts[..])
      requires hasCounts ==> forall i :: 0 <= i < oldCounts.Length ==> oldCounts[i] <= MaxCount(countsWidth)
      requires idx < |s| && WellPlaced(ks, s) && NumLive(s) <= |Slots()| && Moved(ks, s, idx, Slots())
      modifies values, keys, counts
      ensures Shape() && Moved(ks, s, idx + 1, Slots())
    {
      hide SizeAt, NumBuckets, Reachable, Unique, Contents, NumLive, NumDeleted, Vacancy, SlotsOf;
      SlotsAt(hasKeys, hasCounts, oldValues[..], oldKeys[..], oldCounts[..], idx);
      if oldValues[idx] != 0 && oldValues[idx] != ALL_ONES {
        var value := Decode(oldValues[idx]);
        var key := if hasKeys then Decode(oldKeys[idx]) else value;
        var count := if hasCounts then oldCounts[idx] else 1;
        assert s[idx] == Live(key, value, count);
        ghost var t := Slots();
        var bkt := FindBucketNoCollision(key);
        assert |t| == values.Length && s[idx].key == key;
        assert bkt < 0 ==> AllLive(t);
        MoveOne(ks, s, idx, t, bkt);
        Reinsert(bkt, key, value, count);
      } else {
        MoveNone(ks, s, idx, Slots());
      }
    }

    /** Every live bucket moves to new arrays; tombstones are left behind. */
    method Rehash(newItemCount: int)
      requires Core() && HasRoom(newItemCount)
      modifies this`values, this`keys, this`counts, this`numBucketsIdx, this`deleted
      ensures Valid() && fresh(Repr()) && View() == old(View()) && deleted == 0
      ensures numBucketsIdx == old(NextIndex(newItemCount))
      ensures usedBuckets + newItemCount <= Capacity(numBucketsIdx)
    {
      hide SizeAt, NumBuckets, Reachable, Unique, Contents, NumLive, NumDeleted, Vacancy, SlotsOf;
      var newIdx := NewIndex(newItemCount);
      ghost var s := Slots();
      var oldValues, oldKeys, oldCounts := values, keys, counts;
      deleted := 0;
      Clear(newIdx);
      AllEmpty(ks, Slots());
      MovedNone(ks, s, Slots());
      for idx := 0 to oldValues.Length
        invariant Shape() && fresh(Repr()) && numBucketsIdx == newIdx && deleted == 0
        invariant Moved(ks, s, idx, Slots())
      {
        MoveBucket(s, idx, oldValues, oldKeys, oldCounts);
      }
      assert s[..|s|] == s;
    }

    /** Room for so many entries, without changing any. */
    method SetCapacity(capacity: nat)
      requires Valid() && HasRoom(capacity - usedBuckets)
      modifies this`values, this`keys, this`counts, this`numBucketsIdx, this`deleted
      ensures Valid() && fresh(Repr() - old(Repr())) && View() == old(View()) && capacity <= Capacity(numBucketsIdx)
    {
      hide SizeAt, NumBuckets, Reachable, Unique, Contents, NumLive, NumDeleted, SlotsOf;
      if usedBuckets < capacity { Rehash(capacity - usedBuckets); }
    }

    // ---------- Adding, replacing and removing in one bucket ----------

    /** Grows a full table. The result is a bucket for the key, which is not in the table. */
    method GrowFor(idx: int, key: Word) returns (bkt: nat)
      requires Valid() && CanAdd() && Absent(ks, Slots(), key)
      requires 0 <= idx ==> Vacancy(ks, Slots(), key, idx)
      requires idx < 0 ==> AllLive(Slots())
      modifies this`values, this`keys, this`counts, this`numBucketsIdx, this`deleted
      ensures Valid() && fresh(Repr() - old(Repr())) && usedBuckets < Capacity(numBucketsIdx)
      ensures Absent(ks, Slots(), key) && Vacancy(ks, Slots(), key, bkt)
      ensures View() == old(View()) && usedBuckets == old(usedBuckets)
      ensures numBucketsIdx == old(GrownIndex(fastGrow, numBucketsIdx, usedBuckets))
    {
      hide SizeAt, NumBuckets, Reachable, Unique, Contents, Vacancy, NumLive, NumDeleted, SlotsOf;
      SizesFit(MAX_INDEX - 1);
      var at := idx;
      if Capacity(numBucketsIdx) < usedBuckets + 1 {
        ghost var s := Slots();
        Rehash(1);
        StillAbsent(ks, s, Slots(), key);
        NoTombstones(Slots());
        at := FindBucketNoCollision(key);
      }
      RoomMeansFree(Slots(), numBucketsIdx, at);
      bkt := at;
    }

    /** Adds a key that is not in the table. */
    method AddAt(idx: int, key: Word, value: Word)
      requires Valid() && CanAdd() && Storable(key) && Storable(value) && (hasKeys || key == value)
      requires Absent(ks, Slots(), key) && (0 <= idx ==> Vacancy(ks, Slots(), key, idx))
      requires idx < 0 ==> AllLive(Slots())
      modifies this, Repr()
      ensures Valid() && fresh(Repr() - old(Repr()))
      ensures View() == old(View())[ks.canon(key) := Entry(key, value, 1)]
      ensures usedBuckets == old(usedBuckets) + 1
      ensures numBucketsIdx == old(GrownIndex(fastGrow, numBucketsIdx, usedBuckets))
    {
      hide SizeAt, NumBuckets, Reachable, Unique, Contents, Vacancy, NumLive, NumDeleted, SlotsOf;
      var bkt := GrowFor(idx, key);
      AddInFreeBucket(bkt, key, value);
    }

    method AddInFreeBucket(bkt: nat, key: Word, value: Word)
      requires Valid() && usedBuckets < Capacity(numBucketsIdx)
      requires Storable(key) && Storable(value) && (hasKeys || key == value)
      requires Absent(ks, Slots(), key) && Vacancy(ks, Slots(), key, bkt)
      modifies this, Repr()
      ensures Valid() && fresh(Repr() - old(Repr()))
      ensures View() == old(View())[ks.canon(key) := Entry(key, value, 1)]
      ensures usedBuckets == old(usedBuckets) + 1 && numBucketsIdx == old(numBucketsIdx)
    {
      hide SizeAt, NumBuckets, Reachable, Unique, Contents, Absent, NumLive, NumDeleted, SlotsOf;
      ghost var s := Slots();
      FillKeepsPlaced(ks, s, key, value, 1, bkt);
      ContentsAfterFill(ks, s, key, value, 1, bkt);
      CountsAfterUpdate(s, bkt, Live(key, value, 1));
      SlotsAt(hasKeys, hasCounts, values[..], keys[..], counts[..], bkt);
      if values[bkt] == ALL_ONES { deleted := deleted - 1; }
      Occupy(bkt, key, value);
      usedBuckets := usedBuckets + 1;
    }

    method ReplaceAt(idx: nat, key: Word, value: Word)
      requires Valid() && Storable(key) && Storable(value) && (hasKeys || key == value)
      requires Holds(ks, Slots(), key, idx)
      modifies values, keys
      ensures Valid()
      ensures View() == old(View())[ks.canon(key) := Entry(key, value, old(Slots()[idx].count))]
    {
      hide SizeAt, NumBuckets, Reachable, Unique, Contents, Absent, NumLive, NumDeleted, SlotsOf;
      ghost var s := Slots();
      ghost var c := s[idx].count;
      FillKeepsPlaced(ks, s, key, value, c, idx);
      ContentsAfterFill(ks, s, key, value, c, idx);
      CountsAfterUpdate(s, idx, Live(key, value, c));
      Overwrite(idx, key, value);
    }

    /** A bucket becomes a tombstone, and its count goes down by one. */
    method Bury(idx: nat)
      requires Shape() && idx < values.Length && Slots()[idx].Live? && 1 <= Slots()[idx].count
      modifies values, keys, counts
      ensures Arrays() && Slots() == old(Slots())[idx := Deleted]
      ensures Tidy() <==> old(Slots()[idx].count) == 1
    {
      hide NumBuckets;
      SetRaw(idx, ALL_ONES, ALL_ONES);
      if hasCounts { counts[idx] := counts[idx] - 1; }
    }

    /** A bucket's entry gives way to a tombstone, whose 16-bit count may roll over. */
    method BuryEntry(idx: nat)
      requires Valid() && idx < values.Length && Slots()[idx].Live?
      modifies this`usedBuckets, this`deleted, values, keys, counts
      ensures Core() && (Tidy() <==> old(Slots()[idx].count) == 1)
      ensures View() == old(View() - {ks.canon(Slots()[idx].key)})
      ensures usedBuckets == old(usedBuckets) - 1
      ensures NumDeleted(Slots()) == old(deleted) + 1 && deleted == (old(deleted) + 1) % 0x1_0000
    {
      hide SizeAt, NumBuckets, Reachable, Unique, Contents, Absent, NumLive, NumDeleted, SlotsOf, Tidy;
      ghost var s := Slots();
      DeleteKeepsPlaced(ks, s, idx);
      ContentsAfterDelete(ks, s, idx);
      CountsAfterUpdate(s, idx, Deleted);
      Bury(idx);
      usedBuckets := usedBuckets - 1;
      deleted := (deleted + 1) % 0x1_0000;
    }

    /** Some sizes down, the table would be too small. */
    ghost predicate NotSparse()
      reads this
    {
      var drop := if fastGrow then 5 else 2;
      drop < numBucketsIdx ==> Capacity(numBucketsIdx - drop) <= usedBuckets
    }

    /** One removal more makes the table sparse, or its tombstones too many. */
    ghost predicate AboutToRehash()
      reads this
    {
      var drop, n := if fastGrow then 5 else 2, NumBuckets(numBucketsIdx);
      || (drop < numBucketsIdx && usedBuckets <= Capacity(numBucketsIdx - drop))
      || (deleted + 1) % 0x1_0000 == 0
      || (20 <= n && n / 4 <= deleted + 1)
    }

    /** After a removal: a sparse table shrinks; one with too many tombstones, or whose 16-bit tombstone
        count has rolled over, is rehashed at its size. `dead` counts the tombstones before. */
    method ShrinkOrRehash(ghost dead: nat)
      requires Core() && NumDeleted(Slots()) == dead + 1 <= 0x1_0000 && deleted == (dead + 1) % 0x1_0000
      modifies this`values, this`keys, this`counts, this`numBucketsIdx, this`deleted
      ensures Core() && fresh(Repr() - old(Repr())) && View() == old(View()) && NotSparse() && (Valid() <==> Tidy())
      ensures numBucketsIdx == old(ShrunkIndex(fastGrow, numBucketsIdx, usedBuckets + 1))
      ensures var drop, n := if fastGrow then 5 else 2, old(NumBuckets(numBucketsIdx));
        Valid() <==>
          || old(Tidy())
          || (drop < old(numBucketsIdx) && usedBuckets < Capacity(old(numBucketsIdx) - drop))
          || old(deleted) == 0 || (20 <= n && n / 4 <= old(deleted))
    {
      hide SizeAt, NumBuckets, Reachable, Unique, Contents, Absent, NumLive, NumDeleted, SlotsOf, Tidy;
      UsedIsSmall(numBucketsIdx);
      ShrunkIsNotSparse(fastGrow, numBucketsIdx, usedBuckets + 1);
      var drop := if fastGrow then 5 else 2;
      if drop < numBucketsIdx && usedBuckets < Capacity(numBucketsIdx - drop) {
        Rehash(-1);
        return;
      }
      var n := NumBuckets(numBucketsIdx);
      if deleted == 0 || (20 <= n && n / 4 <= deleted) {
        Rehash(0);
      }
    }

    /** Removes a bucket's entry, whatever its count. Unless a rehash follows, what remains of a higher
        count stays behind in the tombstone. */
    method RemoveAt(idx: nat)
      requires Valid() && idx < values.Length && Slots()[idx].Live?
      modifies this, Repr()
      ensures Core() && fresh(Repr() - old(Repr()))
      ensures Valid() <==> Tidy()
      ensures Valid() <==> old(Slots()[idx].count == 1 || AboutToRehash())
      ensures View() == old(View() - {ks.canon(Slots()[idx].key)})
      ensures usedBuckets == old(usedBuckets) - 1 && 0 < old(usedBuckets) && NotSparse()
      ensures numBucketsIdx == ShrunkIndex(fastGrow, old(numBucketsIdx), old(usedBuckets))
    {
      hide SizeAt, NumBuckets, Reachable, Unique, Contents, NumLive, NumDeleted, SlotsOf, Tidy, Arrays, NotSparse, ShrunkIndex;
      ghost var dead := deleted;
      BuryEntry(idx);
      ShrinkOrRehash(dead);
    }

    // ---------- The table's operations ----------

    /** What probing says about a key, in terms of the contents. */
    method Find(key: Word) returns (idx: int, count: nat)
      requires Valid()
      ensures ks.canon(key) in View() ==>
        && 0 <= idx && Holds(ks, Slots(), key, idx) && View()[ks.canon(key)] == EntryOf(Slots()[idx])
        && count == View()[ks.canon(key)].count > 0
      ensures ks.canon(key) !in View() ==>
        && count == 0 && Absent(ks, Slots(), key)
        && (0 <= idx ==> Vacancy(ks, Slots(), key, idx))
        && (idx < 0 ==> AllLive(Slots()))
    {
      hide Contents, Reachable, Vacancy, NumLive, NumDeleted, SlotsOf, SizeAt, NumBuckets;
      idx, count := FindBucket(key);
      if 0 < count {
        HeldIsThere(ks, Slots(), key, idx);
      } else {
        AbsentIsMissing(ks, Slots(), key);
      }
    }

    /** The count of a live bucket, one up or one down. */
    method StepCount(idx: nat, up: bool)
      requires Shape() && hasCounts && idx < values.Length && Slots()[idx].Live?
      requires if up then Slots()[idx].count < LONG_MAX else 1 < Slots()[idx].count
      modifies this`counts, this`countsWidth, counts
      ensures Shape() && fresh(Repr() - old(Repr()))
      ensures var x := old(Slots()[idx]);
        Slots() == old(Slots())[idx := x.(count := if up then x.count + 1 else x.count - 1)]
    {
      hide SlotsOf, SizeAt, NumBuckets;
      SlotsAt(hasKeys, hasCounts, values[..], keys[..], counts[..], idx);
      SlotsRecounted(hasKeys, values[..], keys[..], counts[..], idx, if up then counts[idx] + 1 else counts[idx] - 1);
      if up { IncSlotCount(idx); } else { counts[idx] := counts[idx] - 1; }
    }

    /** One more or one fewer of a key that is there. */
    method Recount(idx: nat, up: bool)
      requires Valid() && hasCounts && idx < values.Length && Slots()[idx].Live?
      requires if up then Slots()[idx].count < LONG_MAX else 1 < Slots()[idx].count
      modifies this`counts, this`countsWidth, counts
      ensures Valid() && fresh(Repr() - old(Repr()))
      ensures old(ks.canon(Slots()[idx].key) in View())
      ensures var c, n := old(ks.canon(Slots()[idx].key)), old(Slots()[idx].count);
        View() == old(View())[c := old(View())[c].(count := if up then n + 1 else n - 1)]
    {
      hide Contents, Reachable, Unique, NumLive, NumDeleted, SlotsOf, SizeAt, NumBuckets;
      ghost var s := Slots();
      RecountSlot(ks, s, idx, if up then s[idx].count + 1 else s[idx].count - 1);
      StepCount(idx, up);
    }

    method AddValue(key: Word, value: Word) returns (changed: bool)
      requires Valid() && (ks.canon(key) in View() || CanAdd())
      requires Storable(key) && Storable(value) && (hasKeys || key == value)
      modifies this, Repr()
      ensures Valid() && fresh(Repr() - old(Repr()))
      ensures View() == Apply(ks, hasCounts, old(View()), Add(key, value))
      ensures changed <==> View() != old(View())
      ensures numBucketsIdx == old(IndexAfter(ks, fastGrow, View(), numBucketsIdx, Add(key, value)))
    {
      hide Contents, Reachable, Unique, Absent, Vacancy, NumLive, NumDeleted, SlotsOf, SizeAt, NumBuckets, GrownIndex, ShrunkIndex, RoomForOne;
      UsedIsSize();
      var idx, count := Find(key);
      if 0 < count {
        if hasCounts && count < LONG_MAX {
          Recount(idx, true);
          return true;
        }
      } else {
        AddAt(idx, key, value);
        return true;
      }
      return false;
    }

    method ReplaceValue(key: Word, value: Word)
      requires Valid() && Storable(key) && Storable(value) && (hasKeys || key == value)
      modifies this, Repr()
      ensures Valid() && fresh(Repr() - old(Repr()))
      ensures View() == Apply(ks, hasCounts, old(View()), Replace(key, value)) && numBucketsIdx == old(numBucketsIdx)
    {
      hide Contents, Reachable, Unique, Absent, Vacancy, NumLive, NumDeleted, SlotsOf, SizeAt, NumBuckets;
      var idx, count := Find(key);
      if 0 < count { ReplaceAt(idx, key, value); }
    }

    method SetValue(key: Word, value: Word)
      requires Valid() && (ks.canon(key) in View() || CanAdd())
      requires Storable(key) && Storable(value) && (hasKeys || key == value)
      modifies this, Repr()
      ensures Valid() && fresh(Repr() - old(Repr()))
      ensures View() == Apply(ks, hasCounts, old(View()), SetTo(key, value))
      ensures numBucketsIdx == old(IndexAfter(ks, fastGrow, View(), numBucketsIdx, SetTo(key, value)))
    {
      hide Contents, Reachable, Unique, Absent, Vacancy, NumLive, NumDeleted, SlotsOf, SizeAt, NumBuckets, GrownIndex, ShrunkIndex, RoomForOne;
      UsedIsSize();
      var idx, count := Find(key);
      if 0 < count { ReplaceAt(idx, key, value); } else { AddAt(idx, key, value); }
    }

    /** Returns how many there were. */
    method RemoveValue(key: Word) returns (was: nat)
      requires Valid()
      modifies this, Repr()
      ensures Valid() && fresh(Repr() - old(Repr()))
      ensures View() == Apply(ks, hasCounts, old(View()), Remove(key))
      ensures numBucketsIdx == old(IndexAfter(ks, fastGrow, View(), numBucketsIdx, Remove(key)))
      ensures was == old(if Storable(key) && ks.canon(key) in View() then View()[ks.canon(key)].count else 0)
    {
      hide Contents, Reachable, Unique, Absent, Vacancy, NumLive, NumDeleted, SlotsOf, SizeAt, NumBuckets, GrownIndex, ShrunkIndex, RoomForOne;
      UsedIsSize();
      if !Storable(key) { return 0; }
      var idx, count := Find(key);
      if !hasCounts { NoCounts(); }
      if 1 < count {
        if hasCounts && count < LONG_MAX { Recount(idx, false); }
      } else if 0 < count {
        RemoveAt(idx);
      }
      return count;
    }

    method RemoveAllValues()
      requires Valid()
      modifies this, Repr()
      ensures Valid() && fresh(Repr() - old(Repr()))
      ensures View() == map[] && numBucketsIdx == 0
    {
      if numBucketsIdx == 0 { return; }
      Clear(0);
      usedBuckets, deleted := 0, 0;
    }

    method GetCountOfKey(key: Word) returns (count: nat)
      requires Valid()
      ensures count == if Storable(key) && ks.canon(key) in View() then View()[ks.canon(key)].count else 0
    {
      if !Storable(key) { return 0; }
      if usedBuckets == 0 {
        NoneLive(ks, Slots());
        return 0;
      }
      var idx;
      idx, count := Find(key);
    }

    /** The number of items, counting repetitions, in a signed 64-bit word. */
    method GetCount() returns (total: Int64)
      requires Valid()
      ensures total == Signed64(Sum(View()) % TWO_TO_64)
    {
      hide Contents, Unique, NumLive, NumDeleted, SlotsOf, Sum;
      TotalIsSum(ks, Slots());
      if !hasCounts {
        NoCounts();
        AllOnes(Slots());
        UsedIsSmall(numBucketsIdx);
        return usedBuckets;
      }
      total := SumCounts();
    }

    lemma NoCounts()
      requires Shape() && !hasCounts
      ensures forall i :: 0 <= i < |Slots()| && Slots()[i].Live? ==> Slots()[i].count == 1
    {
    }

    lemma SlotCounts(idx: nat)
      requires Shape() && hasCounts && idx < values.Length
      ensures counts[idx] == Count(Slots()[idx])
    {
      SlotsAt(hasKeys, hasCounts, values[..], keys[..], counts[..], idx);
    }

    method SumCounts() returns (total: Int64)
      requires Shape() && hasCounts
      ensures total == Signed64(Total(Slots()) % TWO_TO_64)
    {
      hide SlotsOf, Total, Count, Tidy;
      ghost var s := Slots();
      var sum: UInt64 := 0;
      NoneYet(s);
      for idx := 0 to values.Length
        invariant sum == Total(s[..idx]) % TWO_TO_64
      {
        SlotCounts(idx);
        TotalNext(s, idx);
        AddCut(Total(s[..idx]), counts[idx]);
        sum := (sum + counts[idx]) % TWO_TO_64;
      }
      assert s[..|s|] == s;
      return Signed64(sum);
    }

    // ---------- Integer values ----------

    lemma SlotsAreStorable()
      requires Shape()
      ensures forall i :: 0 <= i < |Slots()| && Slots()[i].Live? ==> Storable(Slots()[i].value)
    {
    }

    lemma ViewIsStorable()
      requires Valid()
      ensures StorableValues(View())
    {
      hide SlotsOf, Contents, Reachable, Unique, NumLive, NumDeleted, SizeAt;
      SlotsAreStorable();
      ContentsDescribe(ks, Slots());
    }

    /** Every number at or above `p` goes up by one. */
    method RaiseValues(p: Word)
      requires Shape() && hasKeys
      modifies values
      ensures Shape() && Slots() == Revalue(old(Slots()), v => Raised(p, v))
    {
      hide SlotsOf, SizeAt, NumBuckets;
      ghost var s, f := Slots(), ((v: Word) => Raised(p, v));
      for idx := 0 to values.Length
        invariant Shape() && |Slots()| == |s|
        invariant forall i :: 0 <= i < |s| ==> Slots()[i] == if i < idx then Revalue(s, f)[i] else s[i]
      {
        SlotsAt(hasKeys, hasCounts, values[..], keys[..], counts[..], idx);
        if values[idx] != 0 && values[idx] != ALL_ONES {
          var value := Decode(values[idx]);
          if p <= value { SetNumber(idx, (value + 1) % TWO_TO_64); }
        }
      }
    }

    /** Every number above `p` goes down by one; the result is a bucket numbered `p`. */
    method LowerValues(p: Word) returns (bkt: int)
      requires Shape() && hasKeys
      modifies values
      ensures Shape() && Slots() == Revalue(old(Slots()), v => Lowered(p, v))
      ensures bkt < 0 ==> forall i :: 0 <= i < |old(Slots())| && old(Slots())[i].Live? ==> old(Slots())[i].value != p
      ensures 0 <= bkt ==> bkt < |old(Slots())| && old(Slots())[bkt].Live? && old(Slots())[bkt].value == p
    {
      hide SlotsOf, SizeAt, NumBuckets;
      ghost var s, f := Slots(), ((v: Word) => Lowered(p, v));
      bkt := -1;
      for idx := 0 to values.Length
        invariant Shape() && |Slots()| == |s|
        invariant forall i :: 0 <= i < |s| ==> Slots()[i] == if i < idx then Revalue(s, f)[i] else s[i]
        invariant bkt < 0 ==> forall i :: 0 <= i < idx && s[i].Live? ==> s[i].value != p
        invariant 0 <= bkt ==> bkt < idx && s[bkt].Live? && s[bkt].value == p
      {
        SlotsAt(hasKeys, hasCounts, values[..], keys[..], counts[..], idx);
        if values[idx] != 0 && values[idx] != ALL_ONES {
          var value := Decode(values[idx]);
          if p == value { bkt := idx; }
          if p < value { SetNumber(idx, value - 1); }
        }
      }
    }

    /** A new number for a live bucket. */
    method SetNumber(idx: nat, number: Word)
      requires Shape() && hasKeys && idx < values.Length && Slots()[idx].Live?
      modifies values
      ensures Shape()
      ensures Slots() == old(Slots())[idx := old(Slots()[idx]).(value := Decode(Encode(number)))]
    {
      values[idx] := Encode(number);
    }

    /** Making room at `p` disturbs neither the placing of keys nor a vacancy. */
    method MakeRoomAt(p: Word, key: Word, bkt: nat)
      requires Valid() && hasKeys && Absent(ks, Slots(), key) && Vacancy(ks, Slots(), key, bkt)
      modifies values
      ensures Valid() && Absent(ks, Slots(), key) && Vacancy(ks, Slots(), key, bkt)
      ensures View() == MapValues(old(View()), v => Raised(p, v))
    {
      hide Contents, Reachable, Unique, Absent, Vacancy, NumLive, NumDeleted, SlotsOf, SizeAt, NumBuckets;
      RevalueCounts(ks, Slots(), v => Raised(p, v));
      RevaluePlaced(ks, Slots(), v => Raised(p, v), key);
      RaiseValues(p);
    }

    /** A key that is not in the table gets number `p`, in a table grown first if need be. */
    method AddNumbered(idx: int, key: Word, p: Word)
      requires Valid() && CanAdd() && hasKeys && Storable(key) && Storable(p)
      requires Absent(ks, Slots(), key) && (0 <= idx ==> Vacancy(ks, Slots(), key, idx))
      requires idx < 0 ==> AllLive(Slots())
      modifies this, Repr()
      ensures Valid() && fresh(Repr() - old(Repr()))
      ensures View() == Inserted(old(View()), ks.canon(key), key, p)
      ensures numBucketsIdx == old(GrownIndex(fastGrow, numBucketsIdx, usedBuckets))
    {
      hide Contents, Reachable, Unique, Absent, Vacancy, NumLive, NumDeleted, SlotsOf, SizeAt, NumBuckets, Arrays, Tidy,
        RoomForOne, GrownIndex;
      var bkt := GrowFor(idx, key);
      AlreadyRoom(fastGrow, numBucketsIdx, usedBuckets);
      MakeRoomAt(p, key, bkt);
      AddAt(bkt, key, p);
    }

    /** A new key gets number `p`; numbers from `p` on move up. */
    method AddIntValueAndInc(key: Word, p: Word) returns (added: bool)
      requires Valid() && (ks.canon(key) in View() || CanAdd()) && hasKeys && Storable(key) && Storable(p)
      modifies this, Repr()
      ensures Valid() && fresh(Repr() - old(Repr()))
      ensures added <==> ks.canon(key) !in old(View())
      ensures numBucketsIdx == if added then old(GrownIndex(fastGrow, numBucketsIdx, |View()|)) else old(numBucketsIdx)
      ensures View() == if added then Inserted(old(View()), ks.canon(key), key, p) else old(View())
    {
      hide Contents, Reachable, Unique, Absent, Vacancy, NumLive, NumDeleted, SlotsOf, SizeAt, NumBuckets, Arrays, Tidy,
        RoomForOne, GrownIndex, Inserted;
      UsedIsSize();
      var idx, count := Find(key);
      if 0 < count { return false; }
      AddNumbered(idx, key, p);
      return true;
    }

    /** The bucket numbered `p`, after the numbers above it have moved down. */
    method CloseGapAt(p: Word) returns (bkt: nat)
      requires Valid() && hasKeys && exists c :: c in View() && View()[c].value == p
      modifies values
      ensures Valid() && View() == MapValues(old(View()), v => Lowered(p, v))
      ensures usedBuckets == old(usedBuckets) == |old(View())| && AboutToRehash() == old(AboutToRehash())
      ensures bkt < |Slots()| && Slots()[bkt].Live?
      ensures var c := ks.canon(Slots()[bkt].key);
        c in old(View()) && old(View())[c].value == p && old(View())[c].count == Slots()[bkt].count
    {
      hide Contents, Reachable, Unique, Absent, Vacancy, NumLive, NumDeleted, SlotsOf, SizeAt, NumBuckets;
      UsedIsSize();
      ghost var s := Slots();
      ContentsDescribe(ks, s);
      RevalueCounts(ks, s, v => Lowered(p, v));
      RevaluePlaced(ks, s, v => Lowered(p, v), p);
      var found := LowerValues(p);
      assert 0 <= found && Slots()[found].key == s[found].key;
      bkt := found;
    }

    /** The key numbered `p` goes, whatever its count; numbers above `p` move down. The table stays in
        order exactly when the count was one, or the removal leads to a rehash. */
    method RemoveIntValueAndDec(p: Word)
      requires Valid() && hasKeys && Storable(p)
      requires exists c :: c in View() && View()[c].value == p
      modifies this, Repr()
      ensures Core() && fresh(Repr() - old(Repr())) && (Valid() <==> Tidy())
      ensures exists c ::
        && c in old(View()) && old(View())[c].value == p && View() == Removed(old(View()), c, p)
        && (Valid() <==> old(View()[c].count == 1 || AboutToRehash()))
      ensures 0 < |old(View())| && numBucketsIdx == ShrunkIndex(fastGrow, old(numBucketsIdx), |old(View())|)
    {
      hide Contents, Reachable, Unique, Absent, Vacancy, NumLive, NumDeleted, SlotsOf, SizeAt, NumBuckets, ShrunkIndex;
      ghost var m := View();
      var bkt := CloseGapAt(p);
      ghost var c := ks.canon(Slots()[bkt].key);
      RemoveAt(bkt);
      assert View() == Removed(m, c, p);
    }

    // ---------- Runs ----------

    /** What the operations demand of their callers. */
    predicate Admissible(op: Op) {
      match op
      case Add(k, v) => Storable(k) && Storable(v) && (hasKeys || k == v)
      case Replace(k, v) => Storable(k) && Storable(v) && (hasKeys || k == v)
      case SetTo(k, v) => Storable(k) && Storable(v) && (hasKeys || k == v)
      case _ => true
    }

    method Perform(op: Op)
      requires Valid() && HasRoomFor(ks, fastGrow, View(), numBucketsIdx, op) && Admissible(op)
      modifies this, Repr()
      ensures Valid() && fresh(Repr() - old(Repr()))
      ensures View() == Apply(ks, hasCounts, old(View()), op)
      ensures numBucketsIdx == old(IndexAfter(ks, fastGrow, View(), numBucketsIdx, op))
    {
      hide Contents, Reachable, Unique, NumLive, NumDeleted, SlotsOf, SizeAt, NumBuckets, GrownIndex, ShrunkIndex, RoomForOne;
      UsedIsSize();
      match op
      case Add(k, v) => var _ := AddValue(k, v);
      case Replace(k, v) => ReplaceValue(k, v);
      case SetTo(k, v) => SetValue(k, v);
      case Remove(k) => var _ := RemoveValue(k);
      case RemoveAll => RemoveAllValues();
    }

    /** Any run of operations, however long, does to the buckets what it does to a map, as long as the
        sizes of the table give room to each new key. */
    method Run(ops: seq<Op>)
      requires Valid() && forall i :: 0 <= i < |ops| ==> Admissible(ops[i])
      requires HasRoomForAll(ks, hasCounts, fastGrow, View(), numBucketsIdx, ops)
      modifies this, Repr()
      ensures Valid() && fresh(Repr() - old(Repr()))
      ensures View() == ApplyAll(ks, hasCounts, old(View()), ops)
      ensures numBucketsIdx == IndexAfterAll(ks, hasCounts, fastGrow, old(View()), old(numBucketsIdx), ops)
    {
      hide Contents, Reachable, Unique, NumLive, NumDeleted, SlotsOf, SizeAt, NumBuckets, Apply, IndexAfter, HasRoomFor,
        Arrays, Tidy;
      for i := 0 to |ops|
        invariant Valid() && fresh(Repr() - old(Repr()))
        invariant View() == ApplyAll(ks, hasCounts, old(View()), ops[..i])
        invariant numBucketsIdx == IndexAfterAll(ks, hasCounts, fastGrow, old(View()), old(numBucketsIdx), ops[..i])
      {
        assert ops[..i + 1][..i] == ops[..i];
        Perform(ops[i]);
      }
      assert ops[..|ops|] == ops;
    }

    lemma CountsAreOne()
      requires Valid() && !hasCounts
      ensures Repeated(View()) == {}
    {
      hide Contents, Reachable, Unique, NumLive, NumDeleted, SlotsOf, SizeAt, NumBuckets;
      NoCounts();
      ContentsDescribe(ks, Slots());
    }

    method PerformEdit(e: Edit, ghost s: seq<Word>)
      requires Valid() && hasKeys && IsOrder(View(), s) && CanEdit(ks, s, e)
      requires if e.Insert? then RoomForOne(fastGrow, numBucketsIdx, |s|) else s[e.at] !in Repeated(View())
      modifies this, Repr()
      ensures Valid() && fresh(Repr() - old(Repr())) && Repeated(View()) <= old(Repeated(View()))
      ensures IsOrder(View(), EditOne(ks, s, e))
      ensures numBucketsIdx == old(if e.Insert? then GrownIndex(fastGrow, numBucketsIdx, |s|)
                                   else ShrunkIndex(fastGrow, numBucketsIdx, |s|))
    {
      hide Contents, Reachable, Unique, NumLive, NumDeleted, SlotsOf, Inserted, Removed, Arrays, Tidy, SizeAt,
        GrownIndex, ShrunkIndex, RoomForOne;
      ghost var m := View();
      UsedIsSize();
      OrderSize(m, s);
      ViewIsStorable();
      OrderIsShort(m, s);
      match e
      case Insert(key, p) =>
        InsertIsInsertion(m, s, ks.canon(key), key, p);
        EditsRepeatNothing(m, ks.canon(key), key, p);
        var added := AddIntValueAndInc(key, p);
      case Delete(p) =>
        RemoveIsDeletion(m, s, p);
        EditsRepeatNothing(m, s[p], p, p);
        assert s[p] in m && m[s[p]].value == p;
        RemoveIntValueAndDec(p);
    }

    /** A run that numbers keys, renumbering on the way, edits a sequence. Without counts every key is there
        once. */
    method RunEdits(edits: seq<Edit>, ghost s: seq<Word>)
      requires Valid() && hasKeys && IsOrder(View(), s) && CanEditAll(ks, s, edits)
      requires EditsFit(ks, fastGrow, if hasCounts then View() else map[], s, numBucketsIdx, edits)
      modifies this, Repr()
      ensures Valid() && fresh(Repr() - old(Repr()))
      ensures IsOrder(View(), EditAll(ks, s, edits))
      ensures numBucketsIdx == IndexAfterEdits(ks, fastGrow, s, old(numBucketsIdx), edits)
    {
      hide Contents, Reachable, Unique, NumLive, NumDeleted, SlotsOf, SizeAt, NumBuckets, EditOne, CanEdit, IsOrder,
        Repeated, GrownIndex, ShrunkIndex, RoomForOne, Arrays, Tidy;
      ghost var idx := numBucketsIdx;
      if !hasCounts { CountsAreOne(); }
      for i := 0 to |edits|
        invariant Valid() && fresh(Repr() - old(Repr())) && Repeated(View()) <= old(Repeated(View()))
        invariant CanEditAll(ks, s, edits[..i]) && IsOrder(View(), EditAll(ks, s, edits[..i]))
        invariant numBucketsIdx == IndexAfterEdits(ks, fastGrow, s, idx, edits[..i])
      {
        CanEditPrefix(ks, s, edits, i);
        CanEditPrefix(ks, s, edits, i + 1);
        assert edits[..i + 1][..i] == edits[..i];
        PerformEdit(edits[i], EditAll(ks, s, edits[..i]));
      }
      assert edits[..|edits|] == edits;
    }
  }

  // ---------- A count left behind ----------

  lemma OneNumbered(ks: Keys)
    ensures Inserted(map[], ks.canon(1), 1, 0) == map[ks.canon(1) := Entry(1, 0, 1)]
    ensures Storable(0) && Storable(1) && RoomForOne(false, 0, 0) && GrownIndex(false, 0, 0) == 1
  {
    assert IndexFrom(1, 0) == IndexFrom(1, 1) == 1;
  }

  lemma OneRepeated(ks: Keys)
    ensures var m, c := map[ks.canon(1) := Entry(1, 0, 1)], ks.canon(1);
      Apply(ks, true, m, Add(1, 0)) == map[c := Entry(1, 0, 2)] && IndexAfter(ks, false, m, 1, Add(1, 0)) == 1
  {
  }

  lemma OneRemoved(m: View, c: Word)
    requires m == map[c := Entry(1, 0, 2)]
    ensures c in m && m[c].value == 0 && m[c].count == 2
    ensures forall d :: d in m && m[d].value == 0 ==> d == c && m[d].count == 2 && Removed(m, d, 0) == map[]
  {
  }

  lemma NoRehashSoon(table: BasicHash)
    requires table.Valid() && table.numBucketsIdx == 1 && !table.fastGrow
    ensures !table.AboutToRehash()
  {
    CountsBounded(table.Slots());
  }

  /** A key is numbered, added once more, and its number removed: the table is empty, but one of its
      tombstones still counts. */
  method LeaveCountBehind(ks: Keys) returns (table: BasicHash)
    ensures fresh(table) && table.Core() && table.View() == map[] && !table.Valid() && !table.Tidy()
  {
    hide BasicHash.Arrays, BasicHash.Tidy, BasicHash.AboutToRehash, BasicHash.View, BasicHash.Slots, Storable,
      Apply, Inserted, Removed, IndexAfter, GrownIndex, ShrunkIndex, RoomForOne;
    table := new BasicHash(ks, true, true, false);
    table.UsedIsSize();
    OneNumbered(ks);
    var added := table.AddIntValueAndInc(1, 0);
    OneRepeated(ks);
    var changed := table.AddValue(1, 0);
    OneRemoved(table.View(), ks.canon(1));
    NoRehashSoon(table);
    table.RemoveIntValueAndDec(0);
  }
}
