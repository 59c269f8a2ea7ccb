/** Binary heaps: sifting with a hole, and the values of a heap in ascending order. */
module BinaryHeap {
  import opened Capacities
  import opened Items

  // ---------- Heap order ----------

  function Parent(i: nat): nat
    requires 0 < i
  {
    (i - 1) / 2
  }

  /** Item `i` is not below its parent. */
  predicate Ordered(cmp: Comparator, s: seq<Item>, i: nat)
    requires 0 < i < |s|
  {
    cmp(s[Parent(i)], s[i]) <= 0
  }

  predicate HeapOrder(cmp: Comparator, s: seq<Item>) {
    forall i :: 0 < i < |s| ==> Ordered(cmp, s, i)
  }

  predicate Least(cmp: Comparator, x: Item, m: multiset<Item>) {
    forall y :: y in m ==> cmp(x, y) <= 0
  }

  lemma {:induction false} RootIsBelow(cmp: Comparator, s: seq<Item>, i: nat)
    requires TotalPreorder(cmp) && HeapOrder(cmp, s) && i < |s|
    ensures cmp(s[0], s[i]) <= 0
  {
    if i > 0 {
      RootIsBelow(cmp, s, Parent(i));
      assert Ordered(cmp, s, i);
    } else {
      assert cmp(s[0], s[0]) < 0 <==> 0 < cmp(s[0], s[0]);
    }
  }

  lemma RootIsLeast(cmp: Comparator, s: seq<Item>)
    requires TotalPreorder(cmp) && HeapOrder(cmp, s) && s != []
    ensures Least(cmp, s[0], multiset(s))
  {
    forall y | y in multiset(s) ensures cmp(s[0], y) <= 0 {
      var i :| 0 <= i < |s| && s[i] == y;
      RootIsBelow(cmp, s, i);
    }
  }

  function Swap(s: seq<Item>, i: nat, j: nat): (t: seq<Item>)
    requires i < |s| && j < |s|
    ensures multiset(t) == multiset(s)
  {
    s[i := s[j]][j := s[i]]
  }

  // ---------- Sifting up ----------

  /** In order but for item `at`, which may be below its parent; its children are not. */
  predicate Rising(cmp: Comparator, s: seq<Item>, at: nat) {
    && at < |s|
    && (forall i :: 0 < i < |s| && i != at ==> Ordered(cmp, s, i))
    && (forall i :: 0 < i < |s| && 0 < at && Parent(i) == at ==> cmp(s[Parent(at)], s[i]) <= 0)
  }

  lemma StartsRising(cmp: Comparator, s: seq<Item>, value: Item)
    requires HeapOrder(cmp, s)
    ensures Rising(cmp, s + [value], |s|)
  {
    forall i | 0 < i < |s| + 1 && i != |s| ensures Ordered(cmp, s + [value], i) {
      assert Ordered(cmp, s, i);
    }
  }

  lemma Through(cmp: Comparator, a: Item, b: Item, c: Item)
    requires TotalPreorder(cmp)
    ensures cmp(a, b) <= 0 && cmp(b, c) <= 0 ==> cmp(a, c) <= 0
    ensures 0 < cmp(b, a) ==> cmp(a, b) < 0
  {
  }

  lemma Rises(cmp: Comparator, s: seq<Item>, at: nat)
    requires TotalPreorder(cmp) && Rising(cmp, s, at) && 0 < at && 0 < cmp(s[Parent(at)], s[at])
    ensures Rising(cmp, Swap(s, at, Parent(at)), Parent(at))
  {
    hide TotalPreorder;
    var p, t := Parent(at), Swap(s, at, Parent(at));
    Through(cmp, s[at], s[p], s[at]);
    forall i | 0 < i < |t| && i != p ensures Ordered(cmp, t, i) {
      assert i != at ==> Ordered(cmp, s, i);
      if Parent(i) == p && i != at { Through(cmp, s[at], s[p], s[i]); }
    }
    forall i | 0 < i < |t| && 0 < p && Parent(i) == p ensures cmp(t[Parent(p)], t[i]) <= 0 {
      assert Ordered(cmp, s, p);
      if i != at {
        assert Ordered(cmp, s, i);
        Through(cmp, s[Parent(p)], s[p], s[i]);
      }
    }
  }

  lemma Risen(cmp: Comparator, s: seq<Item>, at: nat)
    requires Rising(cmp, s, at) && (0 < at ==> cmp(s[Parent(at)], s[at]) <= 0)
    ensures HeapOrder(cmp, s)
  {
  }

  // ---------- Sifting down ----------

  /** In order but for item `at`, which may be above its children; its parent is not. */
  predicate Sinking(cmp: Comparator, s: seq<Item>, at: nat) {
    && at < |s|
    && (forall i :: 0 < i < |s| && Parent(i) != at ==> Ordered(cmp, s, i))
    && (forall i :: 0 < i < |s| && 0 < at && Parent(i) == at ==> cmp(s[Parent(at)], s[i]) <= 0)
  }

  /** Child `c` of `at` is not above any other. */
  predicate LowerChild(cmp: Comparator, s: seq<Item>, at: nat, c: nat) {
    0 < c < |s| && Parent(c) == at && forall i :: 0 < i < |s| && Parent(i) == at ==> cmp(s[c], s[i]) <= 0
  }

  lemma StartsSinking(cmp: Comparator, s: seq<Item>)
    requires HeapOrder(cmp, s) && 1 < |s|
    ensures Sinking(cmp, s[..|s| - 1][0 := s[|s| - 1]], 0)
  {
    var n := |s| - 1;
    forall i | 0 < i < n && Parent(i) != 0 ensures Ordered(cmp, s[..n][0 := s[n]], i) {
      assert Ordered(cmp, s, i);
    }
  }

  lemma Sinks(cmp: Comparator, s: seq<Item>, at: nat, c: nat)
    requires TotalPreorder(cmp) && Sinking(cmp, s, at) && LowerChild(cmp, s, at, c) && cmp(s[c], s[at]) <= 0
    ensures Sinking(cmp, Swap(s, at, c), c)
  {
    var t := Swap(s, at, c);
    forall i | 0 < i < |t| && Parent(i) != c ensures Ordered(cmp, t, i) {
      assert Parent(i) != at ==> Ordered(cmp, s, i);
    }
    forall i | 0 < i < |t| && Parent(i) == c ensures cmp(t[Parent(c)], t[i]) <= 0 {
      assert Ordered(cmp, s, i);
    }
  }

  lemma Sunk(cmp: Comparator, s: seq<Item>, at: nat)
    requires Sinking(cmp, s, at) && forall i :: 0 < i < |s| && Parent(i) == at ==> cmp(s[at], s[i]) <= 0
    ensures HeapOrder(cmp, s)
  {
  }

  /** The child the hole moves to is the lower of at most two. */
  lemma ChildrenOf(cmp: Comparator, s: seq<Item>, at: nat, c: nat)
    requires TotalPreorder(cmp) && 2 * at + 1 < |s|
    requires c == if 2 * at + 2 < |s| && 0 < cmp(s[2 * at + 1], s[2 * at + 2]) then 2 * at + 2 else 2 * at + 1
    ensures LowerChild(cmp, s, at, c)
  {
    forall i | 0 < i < |s| && Parent(i) == at ensures cmp(s[c], s[i]) <= 0 {
      assert i == 2 * at + 1 || i == 2 * at + 2;
      assert cmp(s[i], s[i]) < 0 <==> 0 < cmp(s[i], s[i]);
    }
  }

  lemma NoChildren(s: seq<Item>, at: nat)
    requires |s| <= 2 * at + 1
    ensures forall i :: 0 < i < |s| ==> Parent(i) != at
  {
  }

  /** When the lower child is above the value, every child is. */
  lemma AboveChildren(cmp: Comparator, s: seq<Item>, at: nat, c: nat)
    requires TotalPreorder(cmp) && at < |s| && LowerChild(cmp, s, at, c) && 0 < cmp(s[c], s[at])
    ensures forall i :: 0 < i < |s| && Parent(i) == at ==> cmp(s[at], s[i]) <= 0
  {
    forall i | 0 < i < |s| && Parent(i) == at ensures cmp(s[at], s[i]) <= 0 {
      assert cmp(s[at], s[c]) <= 0 && cmp(s[c], s[i]) <= 0;
    }
  }

  // ---------- Ascending order ----------

  /** Of the values `m`, those taken so far, in order and not above the rest. */
  ghost predicate TakenInOrder(cmp: Comparator, taken: seq<Item>, rest: multiset<Item>, m: multiset<Item>) {
    && Sorted(cmp, taken) && multiset(taken) + rest == m
    && forall i, y :: 0 <= i < |taken| && y in rest ==> cmp(taken[i], y) <= 0
  }

  lemma NothingTaken(cmp: Comparator, m: multiset<Item>)
    ensures TakenInOrder(cmp, [], m, m)
  {
  }

  lemma TakeNext(cmp: Comparator, taken: seq<Item>, x: Item, rest: multiset<Item>, m: multiset<Item>)
    requires TakenInOrder(cmp, taken, rest, m) && x in rest && Least(cmp, x, rest)
    ensures TakenInOrder(cmp, taken + [x], rest - multiset{x}, m)
  {
  }

  lemma AllTaken(cmp: Comparator, taken: seq<Item>, m: multiset<Item>)
    requires TakenInOrder(cmp, taken, multiset{}, m)
    ensures Sorted(cmp, taken) && multiset(taken) == m
  {
  }

  method Put(values: array<Item>, idx: nat, value: Item, ghost n: nat)
    requires idx < n <= values.Length
    modifies values
    ensures values[..idx + 1] == old(values[..idx]) + [value] && values[n..] == old(values[n..])
  {
    values[idx] := value;
  }

  // ---------- Runs ----------

  datatype Op = Add(value: Item) | RemoveMinimum | RemoveAll

  /** What an operation may do to the values: removal takes some least one. */
  ghost predicate Does(cmp: Comparator, op: Op, m: multiset<Item>, n: multiset<Item>) {
    match op
    case Add(v) => n == m + multiset{v}
    case RemoveMinimum =>
      if m == multiset{} then n == m else exists x :: x in m && Least(cmp, x, m) && n == m - multiset{x}
    case RemoveAll => n == multiset{}
  }

  /** An operation value by value: adding counts one value once more, and removing the minimum takes one of
      the values that none is below, once. */
  lemma DoesOneByOne(cmp: Comparator, op: Op, m: multiset<Item>, n: multiset<Item>, y: Item)
    requires Does(cmp, op, m, n)
    ensures match op
      case Add(v) => n[y] == m[y] + (if y == v then 1 else 0)
      case RemoveMinimum =>
        if |m| == 0 then n[y] == 0
        else exists x :: (forall z :: z in m ==> cmp(x, z) <= 0) && m[x] > 0 && n[y] == m[y] - (if y == x then 1 else 0)
      case RemoveAll => n[y] == 0
  {
    if op.RemoveMinimum? && |m| > 0 {
      var x :| x in m && Least(cmp, x, m) && n == m - multiset{x};
      assert n[y] == m[y] - (if y == x then 1 else 0);
    }
  }

  function Front(ops: seq<Op>): seq<Op>
    requires ops != []
  {
    ops[..|ops| - 1]
  }

  function Last(ops: seq<Op>): Op
    requires ops != []
  {
    ops[|ops| - 1]
  }

  /** What a run may do to the values. */
  ghost predicate DoesAll(cmp: Comparator, ops: seq<Op>, m: multiset<Item>, n: multiset<Item>) {
    if ops == [] then n == m
    else exists k :: DoesAll(cmp, Front(ops), m, k) && Does(cmp, Last(ops), k, n)
  }

  /** How many values there are, and how many places for them. */
  datatype HeapSize = HeapSize(count: nat, capacity: int)

  function SizeAfterOne(z: HeapSize, op: Op): HeapSize {
    match op
    case Add(_) => HeapSize(z.count + 1, if z.count < z.capacity then z.capacity else RoundUpCapacity(z.count + 1))
    case RemoveMinimum => z.(count := if z.count == 0 then 0 else z.count - 1)
    case RemoveAll => z.(count := 0)
  }

  function SizeAfter(z: HeapSize, ops: seq<Op>): HeapSize {
    if ops == [] then z else SizeAfterOne(SizeAfter(z, Front(ops)), Last(ops))
  }

  /** A heap that is full can still grow. */
  predicate RoomFor(z: HeapSize, op: Op) {
    op.Add? ==> z.count < z.capacity || z.count + 1 < LARGEST
  }

  /** Exactly then do the places left by an operation hold the values. */
  lemma PlacesHoldExactly(z: HeapSize, op: Op)
    requires z.count <= z.capacity <= LARGEST
    ensures SizeAfterOne(z, op).count <= SizeAfterOne(z, op).capacity <==> RoomFor(z, op)
  {
    hide RoundUpCapacity;
    RoundUpFits(z.count + 1);
    if LARGEST <= z.count + 1 { RoundUpAbove(z.count + 1); }
  }

  class Heap {
    const cmp: Comparator
    var buckets: array<Item>
    var count: nat

    ghost predicate Shape()
      reads this
    {
      count <= buckets.Length <= LARGEST && 0 < buckets.Length && buckets.Length % 2 == 0
    }

    ghost function Contents(): (s: seq<Item>)
      reads this, buckets
      requires Shape()
      ensures |s| == count
    {
      buckets[..count]
    }

    ghost predicate Valid()
      reads this, buckets
    {
      Shape() && TotalPreorder(cmp) && HeapOrder(cmp, Contents())
    }

    function Size(): HeapSize
      reads this
    {
      HeapSize(count, buckets.Length)
    }

    predicate HasRoom()
      reads this
    {
      RoomFor(Size(), Add(NULL))
    }

    constructor (cmp: Comparator)
      requires TotalPreorder(cmp)
      ensures Valid() && Contents() == [] && this.cmp == cmp && fresh(buckets)
    {
      RoundUpFits(1);
      this.cmp := cmp;
      buckets := new Item[RoundUpCapacity(1)];
      count := 0;
    }

    method Grow(numNewValues: nat)
      requires Shape() && count + numNewValues < LARGEST
      modifies this`buckets
      ensures Shape() && fresh(buckets) && count + numNewValues < buckets.Length && Contents() == old(Contents())
      ensures buckets.Length == RoundUpCapacity(count + numNewValues)
    {
      RoundUpFits(count + numNewValues);
      var newBuckets := new Item[RoundUpCapacity(count + numNewValues)];
      forall i | 0 <= i < count { newBuckets[i] := buckets[i]; }
      buckets := newBuckets;
    }

    /** The buckets hold `t` but for a hole. */
    ghost predicate HoleAt(t: seq<Item>, idx: nat)
      reads this, buckets
    {
      Shape() && idx < count == |t| && forall i :: 0 <= i < count && i != idx ==> buckets[i] == t[i]
    }

    /** An item moves into the hole, leaving one where it was. */
    method MoveHole(to: nat, at: nat, ghost t: seq<Item>)
      requires HoleAt(t, at) && to < count && to != at
      modifies buckets
      ensures HoleAt(Swap(t, at, to), to)
    {
      buckets[at] := buckets[to];
    }

    method FillHole(at: nat, value: Item, ghost t: seq<Item>)
      requires HoleAt(t, at) && t[at] == value
      modifies buckets
      ensures Shape() && Contents() == t
    {
      buckets[at] := value;
    }

    /** Moves the hole up to where the value goes. */
    method SiftUp(start: nat, value: Item, ghost t0: seq<Item>)
      requires TotalPreorder(cmp) && HoleAt(t0, start) && t0[start] == value && Rising(cmp, t0, start)
      modifies buckets
      ensures Valid() && multiset(Contents()) == multiset(t0)
    {
      hide TotalPreorder, Rising, HeapOrder;
      ghost var t := t0;
      var idx := start;
      while 0 < idx
        invariant HoleAt(t, idx) && Rising(cmp, t, idx) && t[idx] == value && multiset(t) == multiset(t0)
      {
        var pidx := Parent(idx);
        var item := buckets[pidx];
        if cmp(item, value) != 1 { break; }
        Rises(cmp, t, idx);
        MoveHole(pidx, idx, t);
        t := Swap(t, idx, pidx);
        idx := pidx;
      }
      Risen(cmp, t, idx);
      FillHole(idx, value, t);
    }

    method AddValue(value: Item)
      requires Valid() && HasRoom()
      modifies this, buckets
      ensures Valid() && (buckets == old(buckets) || fresh(buckets))
      ensures Size() == old(SizeAfterOne(Size(), Add(value)))
      ensures multiset(Contents()) == old(multiset(Contents())) + multiset{value}
    {
      hide Rising;
      ghost var s := Contents();
      StartsRising(cmp, s, value);
      if count == buckets.Length { Grow(1); }
      count := count + 1;
      SiftUp(count - 1, value, s + [value]);
    }

    function GetMinimum(): (x: Item)
      reads this, buckets
      requires Valid()
      ensures if count == 0 then x == NULL else x in Contents() && Least(cmp, x, multiset(Contents()))
    {
      assert 0 < count ==> Least(cmp, Contents()[0], multiset(Contents())) by {
        if 0 < count { RootIsLeast(cmp, Contents()); }
      }
      if 0 < count then buckets[0] else NULL
    }

    /** The lower of the children of the hole; the first is `cidx`. */
    method SelectChild(cidx: nat, idx: nat, ghost t: seq<Item>) returns (c: nat)
      requires TotalPreorder(cmp) && HoleAt(t, idx) && cidx == 2 * idx + 1 < count
      ensures (c == cidx || c == cidx + 1) && c < count && LowerChild(cmp, t, idx, c)
    {
      hide TotalPreorder;
      var item := buckets[cidx];
      c := cidx;
      if cidx + 1 < count {
        var item2 := buckets[cidx + 1];
        if cmp(item, item2) == 1 { c := cidx + 1; }
      }
      ChildrenOf(cmp, t, idx, c);
    }

    /** Moves the hole down to where the value goes. */
    method SiftDown(val: Item, ghost t0: seq<Item>)
      requires TotalPreorder(cmp) && HoleAt(t0, 0) && t0[0] == val && Sinking(cmp, t0, 0)
      modifies buckets
      ensures Valid() && multiset(Contents()) == multiset(t0)
    {
      hide TotalPreorder, Sinking, HeapOrder, LowerChild, Contents;
      ghost var t := t0;
      var idx, cidx := 0, 1;
      while cidx < count
        invariant HoleAt(t, idx) && cidx == 2 * idx + 1
        invariant Sinking(cmp, t, idx) && t[idx] == val && multiset(t) == multiset(t0)
        decreases count - idx
      {
        cidx := SelectChild(cidx, idx, t);
        var item := buckets[cidx];
        if cmp(item, val) == 1 {
          AboveChildren(cmp, t, idx, cidx);
          Sunk(cmp, t, idx);
          break;
        }
        Sinks(cmp, t, idx, cidx);
        MoveHole(cidx, idx, t);
        t := Swap(t, idx, cidx);
        idx := cidx;
        cidx := 2 * idx + 1;
      }
      if count <= cidx { NoChildren(t, idx); Sunk(cmp, t, idx); }
      FillHole(idx, val, t);
    }

    method RemoveMinimumValue()
      requires Valid()
      modifies this`count, buckets
      ensures Valid() && count == if old(count) == 0 then 0 else old(count) - 1
      ensures old(count) == 0 || multiset(Contents()) == old(multiset(Contents()) - multiset{GetMinimum()})
    {
      if count == 0 { return; }
      ghost var s := Contents();
      var cnt := count;
      var val := buckets[cnt - 1];
      count := cnt - 1;
      if cnt == 1 {
        buckets[0] := val;
        assert s == [val];
      } else {
        StartsSinking(cmp, s);
        LastToRoot(s);
        SiftDown(val, s[..cnt - 1][0 := val]);
      }
    }

    method RemoveAllValues()
      requires Valid()
      modifies this`count
      ensures Valid() && Contents() == [] && count == 0
    {
      count := 0;
    }

    function BucketAt(idx: nat): (item: Item)
      reads this, buckets
      requires Shape() && idx < count
      ensures item == Contents()[idx]
    {
      buckets[idx]
    }

    /** A heap of the same values, added in the order of the buckets. */
    method CreateCopy() returns (heap: Heap)
      requires Valid()
      ensures heap.Valid() && fresh(heap) && fresh(heap.buckets) && heap.cmp == cmp && heap.count == count
      ensures multiset(heap.Contents()) == multiset(Contents())
    {
      hide HeapOrder, TotalPreorder, Contents;
      heap := new Heap(cmp);
      ghost var s := Contents();
      for idx := 0 to count
        invariant Contents() == s && Valid()
        invariant heap.Valid() && fresh(heap) && fresh(heap.buckets) && heap.cmp == cmp && heap.count == idx
        invariant multiset(heap.Contents()) == multiset(s[..idx])
      {
        heap.AddValue(BucketAt(idx));
        assert s[..idx + 1] == s[..idx] + [s[idx]];
      }
      assert s[..count] == s;
    }

    /** Takes the least value until none is left. */
    method Drain(values: array<Item>)
      requires Valid() && count <= values.Length && values != buckets
      modifies this`count, buckets, values
      ensures Sorted(cmp, values[..old(count)]) && multiset(values[..old(count)]) == old(multiset(Contents()))
      ensures values[old(count)..] == old(values[count..])
    {
      hide Sorted, TakenInOrder, HeapOrder, TotalPreorder, Least, Contents;
      ghost var m, n, taken := multiset(Contents()), count, [];
      NothingTaken(cmp, m);
      var idx := 0;
      while 0 < count
        invariant Valid() && idx + count == n && values[n..] == old(values[n..])
        invariant values[..idx] == taken && TakenInOrder(cmp, taken, multiset(Contents()), m)
        decreases count
      {
        var value := GetMinimum();
        TakeNext(cmp, taken, value, multiset(Contents()), m);
        RemoveMinimumValue();
        Put(values, idx, value, n);
        idx, taken := idx + 1, taken + [value];
      }
      assert Contents() == [];
      AllTaken(cmp, taken, m);
    }

    /** The values in ascending order, taken from a copy; the heap itself stays as it is. */
    method GetValues(values: array<Item>)
      requires Valid() && count <= values.Length && values != buckets
      modifies values
      ensures Sorted(cmp, values[..count]) && multiset(values[..count]) == multiset(Contents())
      ensures values[count..] == old(values[count..])
    {
      var heapCopy := CreateCopy();
      heapCopy.Drain(values);
    }

    method Perform(op: Op)
      requires Valid() && RoomFor(Size(), op)
      modifies this, buckets
      ensures Valid() && (buckets == old(buckets) || fresh(buckets)) && Size() == old(SizeAfterOne(Size(), op))
      ensures Does(cmp, op, old(multiset(Contents())), multiset(Contents()))
    {
      match op
      case Add(value) => AddValue(value);
      case RemoveMinimum => RemoveMinimumValue();
      case RemoveAll => RemoveAllValues();
    }

    /** In every run, however long, the heap keeps its order, and only least values are taken from it,
        wherever each value added finds a place. */
    method Run(ops: seq<Op>)
      requires Valid() && forall n :: 0 <= n < |ops| ==> RoomFor(SizeAfter(Size(), ops[..n]), ops[n])
      modifies this, buckets
      ensures Valid() && (buckets == old(buckets) || fresh(buckets)) && Size() == old(SizeAfter(Size(), ops))
      ensures DoesAll(cmp, ops, old(multiset(Contents())), multiset(Contents()))
    {
      hide Does, RoomFor, SizeAfterOne;
      ghost var z := Size();
      for i := 0 to |ops|
        invariant Valid() && (buckets == old(buckets) || fresh(buckets)) && Size() == SizeAfter(z, ops[..i])
        invariant DoesAll(cmp, ops[..i], old(multiset(Contents())), multiset(Contents()))
      {
        assert Front(ops[..i + 1]) == ops[..i] && Last(ops[..i + 1]) == ops[i];
        Perform(ops[i]);
      }
      assert ops[..|ops|] == ops;
    }

    lemma LastToRoot(s: seq<Item>)
      requires 1 < |s|
      ensures multiset(s[..|s| - 1][0 := s[|s| - 1]]) == multiset(s) - multiset{s[0]}
    {
      assert s == s[..|s| - 1] + [s[|s| - 1]];
    }
  }
}
