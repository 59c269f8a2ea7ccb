/** Searching and sorting arrays with a comparator. */
module ArraySearch {
  import opened Capacities
  import opened DequeArray
  import opened Items

  // ---------- Binary search ----------

  /** `r` splits the items into those below the value and the rest. */
  predicate Splits(cmp: Comparator, s: seq<Item>, value: Item, r: nat) {
    && r <= |s|
    && (forall i :: 0 <= i < r ==> cmp(s[i], value) < 0)
    && (forall i :: r <= i < |s| ==> cmp(s[i], value) >= 0)
  }

  lemma BelowOneBelow(cmp: Comparator, a: Item, b: Item, value: Item)
    requires TotalPreorder(cmp) && cmp(a, b) <= 0 && cmp(b, value) < 0
    ensures cmp(a, value) < 0
  {
    assert cmp(value, a) <= 0 ==> cmp(value, b) <= 0;
  }

  /** In sorted items, whatever comes before one that is below the value is below it too. */
  lemma BelowIsPrefix(cmp: Comparator, s: seq<Item>, value: Item, i: nat, j: nat)
    requires TotalPreorder(cmp) && Sorted(cmp, s) && i <= j < |s| && cmp(s[j], value) < 0
    ensures cmp(s[i], value) < 0
  {
    if i < j { BelowOneBelow(cmp, s[i], s[j], value); }
  }

  lemma SmallShift(lg: nat)
    requires Pow2(lg) <= LARGEST
    ensures lg <= 30 && IntShift(lg) == Pow2(lg)
  {
    hide Pow2;
    Pow2Values();
    if 31 <= lg {
      Pow2Monotone(31, lg);
      assert false;
    }
  }

  /** Whether item number `k` of a range is below the value. */
  method Below(deque: Deque, loc: nat, ghost s: seq<Item>, k: nat, value: Item, cmp: Comparator) returns (below: bool)
    requires deque.Valid() && loc + |s| <= deque.count && s == deque.Contents()[loc..loc + |s|] && k < |s|
    ensures below <==> cmp(s[k], value) < 0
  {
    var item := deque.GetValueAtIndex(loc + k);
    assert item == s[k];
    return cmp(item, value) < 0;
  }

  /** The place sought lies above `lo` and at or below `hi`. */
  predicate Bracket(cmp: Comparator, s: seq<Item>, value: Item, lo: int, hi: int) {
    && -1 <= lo < hi <= |s|
    && (0 <= lo ==> cmp(s[lo], value) < 0)
    && (hi < |s| ==> cmp(s[hi], value) >= 0)
  }

  lemma Tighten(cmp: Comparator, s: seq<Item>, value: Item, lo: int, mid: int, hi: int)
    requires Bracket(cmp, s, value, lo, hi) && lo < mid < hi
    ensures 0 <= mid < |s|
    ensures if cmp(s[mid], value) < 0 then Bracket(cmp, s, value, mid, hi) else Bracket(cmp, s, value, lo, mid)
  {
  }

  /** Each step halves the bracket; every probe is inside the range. */
  method Narrow(deque: Deque, loc: nat, ghost s: seq<Item>, start: int, lg0: nat, value: Item, cmp: Comparator)
    returns (idx: int)
    requires deque.Valid() && loc + |s| <= deque.count && s == deque.Contents()[loc..loc + |s|]
    requires Pow2(lg0) <= LARGEST && Bracket(cmp, s, value, start, start + Pow2(lg0))
    ensures Bracket(cmp, s, value, idx, idx + 1)
  {
    hide Pow2, IntShift, Bracket, Deque.Contents;
    idx := start;
    var lg := lg0;
    while lg > 0
      invariant Pow2(lg) <= LARGEST && Bracket(cmp, s, value, idx, idx + Pow2(lg))
    {
      Halve(lg);
      lg := lg - 1;
      SmallShift(lg);
      Tighten(cmp, s, value, idx, idx + Pow2(lg), idx + 2 * Pow2(lg));
      var below := Below(deque, loc, s, idx + IntShift(lg), value, cmp);
      if below { idx := idx + IntShift(lg); }
    }
    Pow2Values();
  }

  /** The first place in a sorted range whose item is not below the value. */
  method BSearchValues(deque: Deque, loc: nat, len: nat, value: Item, cmp: Comparator) returns (r: nat)
    requires deque.Valid() && loc + len <= deque.count
    requires TotalPreorder(cmp) && Sorted(cmp, deque.Contents()[loc..loc + len])
    ensures loc <= r && Splits(cmp, deque.Contents()[loc..loc + len], value, r - loc)
  {
    hide TotalPreorder, Sorted, IntShift, Splits, Deque.Contents, Pow2, Flsl;
    ghost var s := deque.Contents()[loc..loc + len];
    if len == 0 {
      SplitNothing(cmp, s, value);
      return loc;
    }
    var below := Below(deque, loc, s, len - 1, value, cmp);
    if below {
      SplitHere(cmp, s, value, len);
      return loc + len;
    }
    var item := deque.GetValueAtIndex(loc);
    assert item == s[0];
    if cmp(value, item) < 0 {
      NoneBelow(cmp, s, value);
      return loc;
    }
    var lg: nat := Flsl(len) - 1;
    Halve(lg + 1);
    SmallShift(lg);
    below := Below(deque, loc, s, IntShift(lg) - 1, value, cmp);
    var start := if below then len - IntShift(lg) else -1;
    FirstBracket(cmp, s, value, lg, below);
    var idx := Narrow(deque, loc, s, start, lg, value, cmp);
    SplitHere(cmp, s, value, idx + 1);
    r := idx + 1 + loc;
  }

  /** After the first two looks the place sought is among at most 2^lg. */
  lemma FirstBracket(cmp: Comparator, s: seq<Item>, value: Item, lg: nat, below: bool)
    requires TotalPreorder(cmp) && Sorted(cmp, s) && Pow2(lg) <= |s| < 2 * Pow2(lg)
    requires cmp(s[|s| - 1], value) >= 0
    requires below <==> cmp(s[Pow2(lg) - 1], value) < 0
    ensures var start := if below then |s| - Pow2(lg) else -1; Bracket(cmp, s, value, start, start + Pow2(lg))
  {
    hide Pow2;
    if below { BelowIsPrefix(cmp, s, value, |s| - Pow2(lg), Pow2(lg) - 1); }
  }

  lemma SplitNothing(cmp: Comparator, s: seq<Item>, value: Item)
    requires s == []
    ensures Splits(cmp, s, value, 0)
  {
  }

  lemma NoneBelow(cmp: Comparator, s: seq<Item>, value: Item)
    requires TotalPreorder(cmp) && Sorted(cmp, s) && |s| > 0 && cmp(value, s[0]) < 0
    ensures Splits(cmp, s, value, 0)
  {
    SplitHere(cmp, s, value, 0);
  }

  lemma SplitHere(cmp: Comparator, s: seq<Item>, value: Item, r: nat)
    requires TotalPreorder(cmp) && Sorted(cmp, s) && r <= |s|
    requires 0 < r ==> cmp(s[r - 1], value) < 0
    requires r < |s| ==> cmp(s[r], value) >= 0
    ensures Splits(cmp, s, value, r)
  {
    forall i | 0 <= i < r ensures cmp(s[i], value) < 0 { BelowIsPrefix(cmp, s, value, i, r - 1); }
    forall i | r <= i < |s| ensures cmp(s[i], value) >= 0 {
      if cmp(s[i], value) < 0 { BelowIsPrefix(cmp, s, value, r, i); }
    }
  }

  // ---------- Exchange sort ----------

  /** The items level with `x`, in their order. */
  function Level(cmp: Comparator, x: Item, s: seq<Item>): seq<Item> {
    if s == [] then []
    else
      var rest := Level(cmp, x, s[..|s| - 1]);
      if cmp(x, s[|s| - 1]) == 0 then rest + [s[|s| - 1]] else rest
  }

  lemma {:induction false} LevelConcat(cmp: Comparator, x: Item, s: seq<Item>, t: seq<Item>)
    ensures Level(cmp, x, s + t) == Level(cmp, x, s) + Level(cmp, x, t)
  {
    if t == [] {
      assert s + t == s;
    } else {
      var n := |t| - 1;
      assert (s + t)[..|s| + n] == s + t[..n];
      LevelConcat(cmp, x, s, t[..n]);
    }
  }

  /** Exchanging neighbours that are not level keeps level items in their order. */
  lemma LevelExchange(cmp: Comparator, x: Item, s: seq<Item>, i: nat)
    requires TotalPreorder(cmp) && i + 1 < |s| && cmp(s[i + 1], s[i]) < 0
    ensures Level(cmp, x, s[i := s[i + 1]][i + 1 := s[i]]) == Level(cmp, x, s)
  {
    var t, a, b := s[i := s[i + 1]][i + 1 := s[i]], s[i], s[i + 1];
    assert s == s[..i] + [a, b] + s[i + 2..] && t == s[..i] + [b, a] + s[i + 2..];
    LevelConcat(cmp, x, s[..i] + [a, b], s[i + 2..]);
    LevelConcat(cmp, x, s[..i] + [b, a], s[i + 2..]);
    LevelConcat(cmp, x, s[..i], [a, b]);
    LevelConcat(cmp, x, s[..i], [b, a]);
    LevelPair(cmp, x, a, b);
  }

  lemma LevelPair(cmp: Comparator, x: Item, a: Item, b: Item)
    requires TotalPreorder(cmp) && cmp(b, a) < 0
    ensures Level(cmp, x, [a, b]) == Level(cmp, x, [b, a])
  {
    assert [a, b][..1] == [a] && [b, a][..1] == [b];
    assert cmp(x, a) == 0 && cmp(x, b) == 0 ==> cmp(a, x) <= 0 && cmp(a, b) <= 0;
  }

  /** Level items in their order everywhere means the same items. */
  ghost predicate SameLevels(cmp: Comparator, s: seq<Item>, t: seq<Item>) {
    forall x :: Level(cmp, x, s) == Level(cmp, x, t)
  }

  lemma {:induction false} LevelCounts(cmp: Comparator, x: Item, s: seq<Item>)
    requires TotalPreorder(cmp)
    ensures multiset(Level(cmp, x, s))[x] == multiset(s)[x]
  {
    if s != [] {
      var n := |s| - 1;
      LevelCounts(cmp, x, s[..n]);
      assert s == s[..n] + [s[n]];
      assert cmp(x, x) < 0 <==> 0 < cmp(x, x);
    }
  }

  lemma SameLevelsSameItems(cmp: Comparator, s: seq<Item>, t: seq<Item>)
    requires TotalPreorder(cmp) && SameLevels(cmp, s, t)
    ensures multiset(s) == multiset(t)
  {
    forall x: Item ensures multiset(s)[x] == multiset(t)[x] {
      LevelCounts(cmp, x, s);
      LevelCounts(cmp, x, t);
      assert Level(cmp, x, s) == Level(cmp, x, t);
    }
  }

  /** From `lo` to `hi` in order, from `hi` to `end` in order and not below any of the former. */
  predicate Settled(cmp: Comparator, s: seq<Item>, lo: nat, hi: nat, end: nat) {
    lo <= hi <= end <= |s| &&
    forall i, j :: lo <= i < j < end && hi <= j ==> cmp(s[i], s[j]) <= 0
  }

  /** Item `at` is at or above all from `lo` up to it. */
  predicate Peak(cmp: Comparator, s: seq<Item>, lo: nat, at: nat) {
    lo <= at < |s| && forall i :: lo <= i < at ==> cmp(s[i], s[at]) <= 0
  }

  lemma PeakMoves(cmp: Comparator, s: seq<Item>, lo: nat, at: nat, hi: nat, end: nat)
    requires TotalPreorder(cmp) && Peak(cmp, s, lo, at) && at + 1 < hi && Settled(cmp, s, lo, hi, end)
    ensures cmp(s[at + 1], s[at]) < 0 ==>
      var t := s[at := s[at + 1]][at + 1 := s[at]]; Peak(cmp, t, lo, at + 1) && Settled(cmp, t, lo, hi, end)
    ensures 0 <= cmp(s[at + 1], s[at]) ==> Peak(cmp, s, lo, at + 1)
  {
    var t := s[at := s[at + 1]][at + 1 := s[at]];
    if cmp(s[at + 1], s[at]) < 0 {
      forall i, j | lo <= i < j < end && hi <= j ensures cmp(t[i], t[j]) <= 0 {
        var k := if i == at then at + 1 else if i == at + 1 then at else i;
        assert t[i] == s[k] && t[j] == s[j];
      }
    } else {
      forall i | lo <= i < at + 1 ensures cmp(s[i], s[at + 1]) <= 0 {
        assert cmp(s[at], s[at + 1]) <= 0;
        if i < at { assert cmp(s[i], s[at]) <= 0; }
      }
    }
  }

  lemma PeakSettles(cmp: Comparator, s: seq<Item>, lo: nat, hi: nat, end: nat)
    requires Settled(cmp, s, lo, hi, end) && lo < hi && Peak(cmp, s, lo, hi - 1)
    ensures Settled(cmp, s, lo, hi - 1, end)
  {
  }

  predicate SameOutside(s: seq<Item>, was: seq<Item>, lo: nat, hi: nat) {
    |s| == |was| && lo <= hi <= |s| && s[..lo] == was[..lo] && s[hi..] == was[hi..]
  }

  lemma PeakStarts(cmp: Comparator, s: seq<Item>, lo: nat)
    requires lo < |s|
    ensures Peak(cmp, s, lo, lo)
  {
  }

  lemma StillSameLevels(cmp: Comparator, s: seq<Item>, was: seq<Item>, i: nat)
    requires TotalPreorder(cmp) && i + 1 < |s| && cmp(s[i + 1], s[i]) < 0 && SameLevels(cmp, s, was)
    ensures SameLevels(cmp, s[i := s[i + 1]][i + 1 := s[i]], was)
  {
    forall x ensures Level(cmp, x, s[i := s[i + 1]][i + 1 := s[i]]) == Level(cmp, x, was) {
      LevelExchange(cmp, x, s, i);
      assert Level(cmp, x, s) == Level(cmp, x, was);
    }
  }

  /** One pass: the highest of the first `cnt` items of the range moves behind the others. */
  method BubbleUp(deque: Deque, loc: nat, cnt: nat, cmp: Comparator, ghost was: seq<Item>, ghost end: nat)
    requires deque.Valid() && 1 < cnt && TotalPreorder(cmp)
    requires Settled(cmp, deque.Contents(), loc, loc + cnt, end) && SameLevels(cmp, deque.Contents(), was)
    requires SameOutside(deque.Contents(), was, loc, end)
    modifies deque.store
    ensures deque.Valid() && SameLevels(cmp, deque.Contents(), was) && SameOutside(deque.Contents(), was, loc, end)
    ensures Settled(cmp, deque.Contents(), loc, loc + cnt - 1, end)
  {
    hide TotalPreorder, Level, Peak, Deque.Contents, SameLevels, CapacityAfter, AsReplacement, Splice;
    PeakStarts(cmp, deque.Contents(), loc);
    for idx := loc to loc + cnt - 1
      invariant deque.Valid() && deque.count == |was|
      invariant Settled(cmp, deque.Contents(), loc, loc + cnt, end) && SameLevels(cmp, deque.Contents(), was)
      invariant SameOutside(deque.Contents(), was, loc, end)
      invariant Peak(cmp, deque.Contents(), loc, idx)
    {
      ghost var s := deque.Contents();
      PeakMoves(cmp, s, loc, idx, loc + cnt, end);
      var a := deque.GetValueAtIndex(idx);
      var b := deque.GetValueAtIndex(idx + 1);
      if cmp(b, a) < 0 {
        StillSameLevels(cmp, s, was, idx);
        deque.ExchangeValuesAtIndices(idx, idx + 1);
      }
    }
    PeakSettles(cmp, deque.Contents(), loc, loc + cnt, end);
  }

  /** The sort used for arrays whose items must not be retained or released on the way: in order,
      stable, and confined to the range. */
  method ZSort(deque: Deque, loc: nat, len: nat, cmp: Comparator)
    requires deque.Valid() && loc + len <= deque.count && TotalPreorder(cmp)
    modifies deque.store
    ensures deque.Valid() && deque.count == old(deque.count)
    ensures Sorted(cmp, deque.Contents()[loc..loc + len])
    ensures SameLevels(cmp, deque.Contents(), old(deque.Contents()))
    ensures deque.Contents()[..loc] == old(deque.Contents()[..loc])
    ensures deque.Contents()[loc + len..] == old(deque.Contents()[loc + len..])
  {
    hide TotalPreorder, Level, Peak, Deque.Contents;
    ghost var was := deque.Contents();
    var cnt: nat := len;
    while 1 < cnt
      invariant deque.Valid() && cnt <= len && (len == 0 || 0 < cnt)
      invariant Settled(cmp, deque.Contents(), loc, loc + cnt, loc + len) && SameLevels(cmp, deque.Contents(), was)
      invariant SameOutside(deque.Contents(), was, loc, loc + len)
    {
      BubbleUp(deque, loc, cnt, cmp, was, loc + len);
      cnt := cnt - 1;
    }
  }
}
