/** Mutable arrays: values in a window of a larger store, with free space kept on both sides. */
module DequeArray {
  import opened Capacities
  import opened Items

  // ---------- Splicing ----------

  function Splice(s: seq<Item>, loc: nat, len: nat, newValues: seq<Item>): seq<Item>
    requires loc + len <= |s|
  {
    s[..loc] + newValues + s[loc + len..]
  }

  /** The operations on an array. */
  datatype Edit = Append(value: Item) | Insert(at: nat, value: Item) | Remove(at: nat) | SetAt(at: nat, value: Item)
                | Exchange(i: nat, j: nat) | Replace(loc: nat, len: nat, values: seq<Item>) | RemoveAll

  /** What they demand: indices in bounds. */
  predicate InBounds(s: seq<Item>, e: Edit) {
    match e
    case Append(_) => true
    case Insert(at, _) => at <= |s|
    case Remove(at) => at < |s|
    case SetAt(at, _) => at <= |s|
    case Exchange(i, j) => i < |s| && j < |s|
    case Replace(loc, len, _) => loc + len <= |s|
    case RemoveAll => true
  }

  function Edited(s: seq<Item>, e: Edit): seq<Item>
    requires InBounds(s, e)
  {
    match e
    case Append(v) => s + [v]
    case Insert(at, v) => s[..at] + [v] + s[at..]
    case Remove(at) => s[..at] + s[at + 1..]
    case SetAt(at, v) => if at == |s| then s + [v] else s[at := v]
    case Exchange(i, j) => s[i := s[j]][j := s[i]]
    case Replace(loc, len, values) => Splice(s, loc, len, values)
    case RemoveAll => []
  }

  // ---------- Sizes of the store ----------

  /** Space left over below which a growing array gets a new store. */
  function WiggleOf(capacity: int): int {
    if capacity / 0x2_0000 < 4 then 4 else capacity / 0x2_0000
  }

  /** The items will not fit, or space is tight. The future count is taken to 32 bits. */
  predicate Reallocates(capacity: int, count: nat, futureCnt: nat) {
    capacity < futureCnt % 0x1_0000_0000 || (count < futureCnt && capacity - count < WiggleOf(capacity))
  }

  /** The size of the store once `newCount` items have replaced `len` of them; 0 stands for no store. */
  function CapacityAfter(capacity: int, count: nat, len: nat, newCount: nat): int
    requires len <= count
  {
    var futureCnt := count - len + newCount;
    if capacity == 0 then RoundUpCapacity(futureCnt)
    else if len != newCount && Reallocates(capacity, count, futureCnt) then
      RoundUpCapacity(futureCnt + WiggleOf(capacity))
    else capacity
  }

  /** The 131072nd of a store, but at least four. */
  lemma WiggleIs(capacity: nat)
    ensures capacity < 655360 ==> WiggleOf(capacity) == 4
    ensures 655360 <= capacity ==> 0 <= capacity - 131072 * WiggleOf(capacity) < 131072
  {
  }

  /** A store is kept while that much of it is left over; a new one has room for as much besides what is
      needed. */
  lemma StoreGrows(capacity: nat, count: nat, len: nat, newCount: nat)
    requires 0 < capacity && len <= count && count - len + newCount < 0x1_0000_0000
    ensures var future := count - len + newCount;
      CapacityAfter(capacity, count, len, newCount)
      == if future <= capacity && (future <= count || WiggleOf(capacity) <= capacity - count) then capacity
         else if len == newCount then capacity
         else RoundUpCapacity(future + WiggleOf(capacity))
    ensures CapacityAfter(0, count, len, newCount) == RoundUpCapacity(count - len + newCount)
  {
    hide WiggleOf, RoundUpCapacity;
  }

  /** A store of the size needed can be had, and the count fits 32 bits. */
  predicate RoomIn(capacity: int, count: nat, futureCnt: nat) {
    if capacity == 0 then futureCnt < LARGEST
    else
      && futureCnt < 0x1_0000_0000
      && (Reallocates(capacity, count, futureCnt) ==> futureCnt + WiggleOf(capacity) < LARGEST)
  }

  // ---------- Runs of edits ----------

  /** What an array holds, and the size of its store. */
  datatype ArrayState = ArrayState(items: seq<Item>, capacity: int)

  /** The edits that are replacements of a range. */
  function AsReplacement(s: seq<Item>, e: Edit): Edit {
    match e
    case Append(v) => Replace(|s|, 0, [v])
    case Insert(at, v) => Replace(at, 0, [v])
    case Remove(at) => Replace(at, 1, [])
    case SetAt(at, v) => if at == |s| then Replace(at, 0, [v]) else e
    case _ => e
  }

  predicate CanEdit(st: ArrayState, e: Edit) {
    && InBounds(st.items, e)
    && match AsReplacement(st.items, e)
       case Replace(_, len, values) => RoomIn(st.capacity, |st.items|, |st.items| - len + |values|)
       case _ => true
  }

  function After(st: ArrayState, e: Edit): ArrayState
    requires InBounds(st.items, e)
  {
    ArrayState(Edited(st.items, e),
          match AsReplacement(st.items, e)
          case Replace(_, len, values) => CapacityAfter(st.capacity, |st.items|, len, |values|)
          case RemoveAll => 0
          case _ => st.capacity)
  }

  lemma ReplacementIsEdit(st: ArrayState, e: Edit)
    requires InBounds(st.items, e)
    ensures InBounds(st.items, AsReplacement(st.items, e)) && After(st, AsReplacement(st.items, e)) == After(st, e)
    ensures CanEdit(st, AsReplacement(st.items, e)) == CanEdit(st, e)
  {
    hide CapacityAfter, RoomIn;
    ReplacementEdits(st.items, e);
  }

  /** Every edit item by item, and what is at each place after it. */
  lemma EditedItems(s: seq<Item>, e: Edit, k: nat)
    requires InBounds(s, e)
    ensures match e
      case Append(v) => |Edited(s, e)| == |s| + 1 && (k <= |s| ==> Edited(s, e)[k] == if k < |s| then s[k] else v)
      case Insert(at, v) =>
        && |Edited(s, e)| == |s| + 1
        && (k <= |s| ==> Edited(s, e)[k] == if k < at then s[k] else if k == at then v else s[k - 1])
      case Remove(at) =>
        |Edited(s, e)| == |s| - 1 && (k < |s| - 1 ==> Edited(s, e)[k] == if k < at then s[k] else s[k + 1])
      case SetAt(at, v) =>
        && |Edited(s, e)| == (if at == |s| then |s| + 1 else |s|)
        && (k < |Edited(s, e)| ==> Edited(s, e)[k] == if k == at then v else s[k])
      case Exchange(i, j) =>
        && |Edited(s, e)| == |s|
        && (k < |s| ==> Edited(s, e)[k] == if k == i then s[j] else if k == j then s[i] else s[k])
      case Replace(loc, len, vs) =>
        && |Edited(s, e)| == |s| - len + |vs|
        && (k < loc ==> Edited(s, e)[k] == s[k])
        && (loc <= k < loc + |vs| ==> Edited(s, e)[k] == vs[k - loc])
        && (loc + |vs| <= k < |Edited(s, e)| ==> Edited(s, e)[k] == s[k - |vs| + len])
      case RemoveAll => |Edited(s, e)| == 0
  {
  }

  /** Setting a value in range replaces it, and leaves the store as it is. */
  lemma SettingReplaces(st: ArrayState, at: nat, v: Item)
    requires at < |st.items|
    ensures Edited(st.items, SetAt(at, v)) == Splice(st.items, at, 1, [v])
    ensures After(st, SetAt(at, v)).capacity == st.capacity
  {
  }

  lemma ReplacementEdits(s: seq<Item>, e: Edit)
    requires InBounds(s, e)
    ensures var r := AsReplacement(s, e);
      InBounds(s, r) && Edited(s, r) == Edited(s, e) && AsReplacement(s, r) == r && (r.RemoveAll? <==> e.RemoveAll?)
  {
    match e
    case Append(v) => assert Splice(s, |s|, 0, [v]) == s + [v];
    case Insert(at, v) =>
    case Remove(at) => assert Splice(s, at, 1, []) == s[..at] + s[at + 1..];
    case SetAt(at, v) => if at == |s| { assert Splice(s, |s|, 0, [v]) == s + [v]; }
    case _ =>
  }

  predicate CanEditAll(st: ArrayState, edits: seq<Edit>)
    decreases |edits|, 0
  {
    edits == [] ||
    (var n := |edits| - 1; CanEditAll(st, edits[..n]) && CanEdit(EditAll(st, edits[..n]), edits[n]))
  }

  function EditAll(st: ArrayState, edits: seq<Edit>): ArrayState
    requires CanEditAll(st, edits)
    decreases |edits|, 1
  {
    if edits == [] then st else After(EditAll(st, edits[..|edits| - 1]), edits[|edits| - 1])
  }

  lemma {:induction false} CanEditPrefix(st: ArrayState, edits: seq<Edit>, n: nat)
    requires CanEditAll(st, edits) && n <= |edits|
    ensures CanEditAll(st, edits[..n])
    ensures n < |edits| ==> CanEdit(EditAll(st, edits[..n]), edits[n])
    ensures n < |edits| ==> CanEditAll(st, edits[..n + 1])
    ensures n < |edits| ==> EditAll(st, edits[..n + 1]) == After(EditAll(st, edits[..n]), edits[n])
  {
    if n == |edits| {
      assert edits[..n] == edits;
    } else if n < |edits| - 1 {
      CanEditPrefix(st, edits[..|edits| - 1], n);
      assert edits[..|edits| - 1][..n] == edits[..n] && edits[..|edits| - 1][..n + 1] == edits[..n + 1];
    } else {
      assert edits[..n + 1] == edits;
    }
  }

  function Appends(s: seq<Item>): seq<Edit> {
    seq(|s|, i requires 0 <= i < |s| => Append(s[i]))
  }

  lemma {:induction false} AppendsConcatenate(st: ArrayState, s: seq<Item>)
    requires CanEditAll(st, Appends(s))
    ensures EditAll(st, Appends(s)).items == st.items + s
  {
    if s != [] {
      var n := |s| - 1;
      assert Appends(s)[..n] == Appends(s[..n]);
      AppendsConcatenate(st, s[..n]);
      assert st.items + s == st.items + s[..n] + [s[n]];
    }
  }

  lemma AppendsLength(s: seq<Item>)
    ensures |Appends(s)| == |s|
  {
  }

  lemma AppendsAt(s: seq<Item>, i: nat)
    requires i < |s|
    ensures |Appends(s)| == |s| && Appends(s)[i] == Append(s[i])
  {
  }

  lemma NoEdits(st: ArrayState, edits: seq<Edit>)
    ensures CanEditAll(st, edits[..0]) && EditAll(st, edits[..0]) == st
  {
  }

  lemma ExchangeKeepsCapacity(st: ArrayState, i: nat, j: nat)
    requires i < |st.items| && j < |st.items|
    ensures After(st, Exchange(i, j)) == st.(items := st.items[i := st.items[j]][j := st.items[i]])
  {
  }

  lemma AppendExtends(st: ArrayState, value: Item)
    ensures After(st, Append(value)).items == st.items + [value]
  {
  }

  /** Exactly then does the store that a replacement leaves hold the items. */
  lemma StoreHoldsExactly(capacity: int, count: nat, len: nat, newCount: nat)
    requires len <= count <= capacity <= LARGEST
    ensures count - len + newCount <= CapacityAfter(capacity, count, len, newCount)
            <==> RoomIn(capacity, count, count - len + newCount)
  {
    hide RoundUpCapacity;
    var futureCnt := count - len + newCount;
    var wanted := if capacity == 0 then futureCnt else futureCnt + WiggleOf(capacity);
    RoundUpFits(wanted);
    if LARGEST <= wanted { RoundUpAbove(wanted); }
  }

  /** With some space to spare below 2^30, any edit in bounds can be made. */
  lemma SpareRoomSuffices(st: ArrayState, e: Edit)
    requires 0 <= st.capacity <= LARGEST && InBounds(st.items, e)
    requires |Edited(st.items, e)| + WiggleOf(LARGEST) < LARGEST
    ensures CanEdit(st, e) && 0 <= After(st, e).capacity <= LARGEST
  {
    hide RoundUpCapacity;
    match AsReplacement(st.items, e)
    case Replace(_, len, values) =>
      ReplacementIsEdit(st, e);
      var futureCnt := |st.items| - len + |values|;
      assert |Edited(st.items, e)| == |Edited(st.items, AsReplacement(st.items, e))| == futureCnt;
      RoundUpFits(futureCnt);
      RoundUpFits(futureCnt + WiggleOf(st.capacity));
    case _ =>
  }

  // ---------- Moving items ----------

  /** Overlapping or not. */
  method MoveItems(a: array<Item>, dst: nat, src: nat, n: nat)
    requires dst + n <= a.Length && src + n <= a.Length
    modifies a
    ensures forall i {:trigger a[i]} :: dst <= i < dst + n ==> a[i] == old(a[src + (i - dst)])
    ensures forall i {:trigger a[i]} :: 0 <= i < dst || dst + n <= i < a.Length ==> a[i] == old(a[i])
  {
    forall i | 0 <= i < n { a[dst + i] := a[src + i]; }
  }

  method CopyItems(a: array<Item>, dst: nat, b: array<Item>, src: nat, n: nat)
    requires a != b && dst + n <= a.Length && src + n <= b.Length
    modifies a
    ensures forall i {:trigger a[i]} :: dst <= i < dst + n ==> a[i] == b[src + (i - dst)]
    ensures forall i {:trigger a[i]} :: 0 <= i < dst || dst + n <= i < a.Length ==> a[i] == old(a[i])
  {
    forall i | 0 <= i < n { a[dst + i] := b[src + i]; }
  }

  method ClearItems(a: array<Item>, lo: nat, n: nat)
    requires lo + n <= a.Length
    modifies a
    ensures forall i {:trigger a[i]} :: lo <= i < lo + n ==> a[i] == NULL
    ensures forall i {:trigger a[i]} :: 0 <= i < lo || lo + n <= i < a.Length ==> a[i] == old(a[i])
  {
    forall i | lo <= i < lo + n { a[i] := NULL; }
  }

  class Deque {
    var store: array?<Item>
    var leftIdx: nat
    var count: nat

    ghost predicate Valid()
      reads this
    {
      if store == null then count == 0 else leftIdx + count <= store.Length <= LARGEST && 0 < store.Length
    }

    function Capacity(): int
      reads this
    {
      if store == null then 0 else store.Length
    }

    ghost function Contents(): (s: seq<Item>)
      reads this, store
      requires Valid()
      ensures |s| == count
    {
      if store == null then [] else store[leftIdx..leftIdx + count]
    }

    ghost function State(): ArrayState
      reads this, store
      requires Valid()
    {
      ArrayState(Contents(), Capacity())
    }

    constructor ()
      ensures Valid() && State() == ArrayState([], 0)
    {
      store, leftIdx, count := null, 0, 0;
    }

    // ---------- Making a gap ----------

    function Wiggle(): int
      reads this
    {
      WiggleOf(Capacity())
    }

    predicate MustReallocate(len: nat, newCount: nat)
      reads this
      requires len <= count
    {
      Reallocates(Capacity(), count, count - len + newCount)
    }

    predicate HasRoom(len: nat, newCount: nat)
      reads this
      requires len <= count
    {
      RoomIn(Capacity(), count, count - len + newCount)
    }

    /** The store holds `items` from `at` on. */
    ghost predicate Has(at: nat, items: seq<Item>)
      reads this`store, store
    {
      store != null && at + |items| <= store.Length && forall j :: at <= j < at + |items| ==> store[j] == items[j - at]
    }

    /** The items are those of `left` and `right`, with a gap of `gap` in between. */
    ghost predicate Around(left: seq<Item>, gap: nat, right: seq<Item>)
      reads this`store, this`leftIdx, store
    {
      && store != null && leftIdx + |left| + gap + |right| <= store.Length <= LARGEST && 0 < store.Length
      && Has(leftIdx, left) && Has(leftIdx + |left| + gap, right)
    }

    /** Moves a region; what lies clear of where it goes stays. */
    method MoveRegion(dst: nat, src: nat, n: nat, ghost items: seq<Item>, ghost at: nat, ghost others: seq<Item>)
      requires Has(src, items) && Has(at, others) && |items| == n
      requires dst + n <= store.Length && (dst + n <= at || at + |others| <= dst)
      modifies store
      ensures Has(dst, items) && Has(at, others)
    {
      MoveItems(store, dst, src, n);
    }

    /** Clears space that two regions have left. */
    method ClearSpace(lo: nat, n: nat, ghost at: nat, ghost left: seq<Item>, ghost at1: nat, ghost right: seq<Item>)
      requires Has(at, left) && Has(at1, right) && lo + n <= store.Length
      requires (lo + n <= at || at + |left| <= lo) && (lo + n <= at1 || at1 + |right| <= lo)
      modifies store
      ensures Has(at, left) && Has(at1, right)
      ensures forall j :: lo <= j < lo + n ==> store[j] == NULL
    {
      ClearItems(store, lo, n);
    }

    method Reallocate(ghost left: seq<Item>, ghost right: seq<Item>, loc: nat, len: nat, newCount: nat)
      requires Around(left, len, right) && loc == |left| && count == loc + len + |right|
      requires count - len + newCount + Wiggle() < LARGEST
      modifies this`store, this`leftIdx
      ensures fresh(store) && Around(left, newCount, right)
      ensures store.Length == old(RoundUpCapacity(count - len + newCount + Wiggle()))
    {
      hide RoundUpCapacity, LARGEST;
      var futureCnt := count - len + newCount;
      RoundUpFits(futureCnt + Wiggle());
      var capacity := RoundUpCapacity(futureCnt + Wiggle());
      var newStore := new Item[capacity];
      var newL: nat := (capacity - futureCnt) / 2;
      var oldC0: nat, newC0: nat, c: nat := leftIdx + loc + len, newL + loc + newCount, count - len - loc;
      CopyItems(newStore, newL, store, leftIdx, loc);
      CopyItems(newStore, newC0, store, oldC0, c);
      store, leftIdx := newStore, newL;
    }

    method MoveRight(ghost left: seq<Item>, ghost right: seq<Item>, loc: nat, len: nat, newCount: nat)
      requires Around(left, len, right) && loc == |left| && count == loc + len + |right|
      requires leftIdx + count - len + newCount <= store.Length
      modifies store
      ensures Around(left, newCount, right)
    {
      hide Has;
      var oldC0: nat, newC0: nat, c: nat := leftIdx + loc + len, leftIdx + loc + newCount, count - len - loc;
      MoveRegion(newC0, oldC0, c, right, leftIdx, left);
      if newC0 < oldC0 { ClearSpace(newC0 + c, oldC0 - newC0, leftIdx, left, newC0, right); }
    }

    method MoveLeft(ghost left: seq<Item>, ghost right: seq<Item>, loc: nat, len: nat, newCount: nat)
      requires Around(left, len, right) && loc == |left| && count == loc + len + |right|
      requires newCount <= leftIdx + len
      modifies store, this`leftIdx
      ensures store == old(store) && Around(left, newCount, right)
    {
      hide Has;
      var oldL: nat, newL: nat, oldC0: nat := leftIdx, leftIdx + len - newCount, leftIdx + loc + len;
      leftIdx := newL;
      MoveRegion(newL, oldL, loc, left, oldC0, right);
      if oldL < newL { ClearSpace(oldL, newL - oldL, newL, left, oldC0, right); }
    }

    /** Both regions move; the one in whose way the other would get goes first. */
    method Recentre(ghost left: seq<Item>, ghost right: seq<Item>, loc: nat, len: nat, newCount: nat)
      requires Around(left, len, right) && loc == |left| && count == loc + len + |right|
      requires len < newCount && count - len + newCount <= store.Length
      modifies store, this`leftIdx
      ensures store == old(store) && Around(left, newCount, right)
    {
      hide Has;
      var half: nat := (store.Length - (count - len + newCount)) / 2;
      var oldL: nat, newL: nat := leftIdx, half - half / 2;
      var oldC0: nat, newC0: nat, c: nat := oldL + loc + len, newL + loc + newCount, count - len - loc;
      leftIdx := newL;
      if newL < oldL {
        MoveRegion(newL, oldL, loc, left, oldC0, right);
        MoveRegion(newC0, oldC0, c, right, newL, left);
        if newC0 < oldC0 { ClearSpace(newC0 + c, oldC0 - newC0, newL, left, newC0, right); }
      } else {
        MoveRegion(newC0, oldC0, c, right, oldL, left);
        MoveRegion(newL, oldL, loc, left, newC0, right);
        if oldL < newL { ClearSpace(oldL, newL - oldL, newL, left, newC0, right); }
      }
    }

    /** Moves the regions on either side of the range so that the gap has room for `newCount` items. */
    method RepositionRegions(ghost left: seq<Item>, ghost right: seq<Item>, loc: nat, len: nat, newCount: nat)
      requires Valid() && Around(left, len, right) && loc == |left| && count == loc + len + |right|
      requires len != newCount && HasRoom(len, newCount)
      modifies this`store, this`leftIdx, store
      ensures (store == old(store) || fresh(store)) && Around(left, newCount, right)
      ensures store.Length == CapacityAfter(old(store.Length), count, len, newCount)
    {
      hide Has, RoundUpCapacity;
      var a, c := loc, count - len - loc;
      var free := store.Length - count - leftIdx;
      if MustReallocate(len, newCount) {
        Reallocate(left, right, loc, len, newCount);
      } else if (newCount < len && c < a) || (newCount - len <= free && c < a) {
        MoveRight(left, right, loc, len, newCount);
      } else if newCount < len || (newCount - len <= leftIdx && a <= c) {
        MoveLeft(left, right, loc, len, newCount);
      } else {
        Recentre(left, right, loc, len, newCount);
      }
    }

    lemma ContentsAround(loc: nat, len: nat)
      requires Valid() && store != null && loc + len <= count
      ensures Around(Contents()[..loc], len, Contents()[loc + len..])
    {
    }

    /** Items given up leave no reference behind. */
    method ReleaseValues(ghost left: seq<Item>, ghost right: seq<Item>, loc: nat, len: nat)
      requires Around(left, len, right) && loc == |left|
      modifies store
      ensures Around(left, len, right)
      ensures forall j :: leftIdx + loc <= j < leftIdx + loc + len ==> store[j] == NULL
    {
      hide Has;
      ClearSpace(leftIdx + loc, len, leftIdx, left, leftIdx + loc + len, right);
    }

    /** Puts the new items into the gap. */
    method FillGap(ghost left: seq<Item>, ghost right: seq<Item>, loc: nat, newValues: seq<Item>)
      requires Around(left, |newValues|, right) && loc == |left|
      modifies store
      ensures Has(leftIdx, left + newValues + right)
    {
      var at := leftIdx + loc;
      forall i | 0 <= i < |newValues| { store[at + i] := newValues[i]; }
    }

    /** A store for the first items, which go in the middle. */
    method AllocateStore(futureCnt: nat)
      requires futureCnt < LARGEST
      modifies this`store, this`leftIdx
      ensures fresh(store) && Around([], futureCnt, []) && store.Length == RoundUpCapacity(futureCnt)
    {
      RoundUpFits(futureCnt);
      var capacity := RoundUpCapacity(futureCnt);
      store := new Item[capacity];
      leftIdx := (capacity - futureCnt) / 2;
    }

    /** Replaces a range. Every other change goes through here. */
    method ReplaceValues(loc: nat, len: nat, newValues: seq<Item>)
      requires Valid() && loc + len <= count && HasRoom(len, |newValues|)
      modifies this, store
      ensures Valid() && Contents() == old(Splice(Contents(), loc, len, newValues))
      ensures Capacity() == old(CapacityAfter(Capacity(), count, len, |newValues|))
      ensures store == old(store) || fresh(store)
    {
      hide Has, Reallocates, RoundUpCapacity, Contents;
      ghost var left, right := Contents()[..loc], Contents()[loc + len..];
      if store == null {
        AllocateStore(|newValues|);
      } else {
        ContentsAround(loc, len);
        if 0 < len { ReleaseValues(left, right, loc, len); }
        if len != |newValues| { RepositionRegions(left, right, loc, len, |newValues|); }
      }
      FillGap(left, right, loc, newValues);
      count := count - len + |newValues|;
      HasIsContents(left + newValues + right);
    }

    lemma HasIsContents(items: seq<Item>)
      requires Valid() && store != null && Has(leftIdx, items) && |items| == count
      ensures Contents() == items
    {
    }

    // ---------- The array's operations ----------

    function GetValueAtIndex(idx: nat): (item: Item)
      reads this, store
      requires Valid() && idx < count
      ensures item == Contents()[idx]
    {
      store[leftIdx + idx]
    }

    method AppendValue(value: Item)
      requires Valid() && CanEdit(State(), Append(value))
      modifies this, store
      ensures Valid() && State() == old(After(State(), Append(value)))
      ensures store == old(store) || fresh(store)
    {
      hide Contents, RoomIn, CapacityAfter;
      ReplacementIsEdit(State(), Append(value));
      ReplaceValues(count, 0, [value]);
    }

    method InsertValueAtIndex(idx: nat, value: Item)
      requires Valid() && CanEdit(State(), Insert(idx, value))
      modifies this, store
      ensures Valid() && State() == old(After(State(), Insert(idx, value)))
      ensures store == old(store) || fresh(store)
    {
      hide Contents, RoomIn, CapacityAfter;
      ReplacementIsEdit(State(), Insert(idx, value));
      ReplaceValues(idx, 0, [value]);
    }

    method RemoveValueAtIndex(idx: nat)
      requires Valid() && CanEdit(State(), Remove(idx))
      modifies this, store
      ensures Valid() && State() == old(After(State(), Remove(idx)))
      ensures store == old(store) || fresh(store)
    {
      hide Contents, RoomIn, CapacityAfter;
      ReplacementIsEdit(State(), Remove(idx));
      ReplaceValues(idx, 1, []);
    }

    method SetValueAtIndex(idx: nat, value: Item)
      requires Valid() && CanEdit(State(), SetAt(idx, value))
      modifies this, store
      ensures Valid() && State() == old(After(State(), SetAt(idx, value)))
      ensures GetValueAtIndex(idx) == value
      ensures store == old(store) || fresh(store)
    {
      hide RoomIn, CapacityAfter;
      ReplacementIsEdit(State(), SetAt(idx, value));
      if idx == count {
        ReplaceValues(idx, 0, [value]);
      } else {
        store[leftIdx + idx] := value;
      }
    }

    method ExchangeValuesAtIndices(idx1: nat, idx2: nat)
      requires Valid() && idx1 < count && idx2 < count
      modifies store
      ensures Valid() && State() == old(After(State(), Exchange(idx1, idx2)))
    {
      hide CapacityAfter, AsReplacement;
      ghost var s := Contents();
      var tmp := store[leftIdx + idx1];
      store[leftIdx + idx1] := store[leftIdx + idx2];
      store[leftIdx + idx2] := tmp;
      assert Contents() == s[idx1 := s[idx2]][idx2 := s[idx1]];
      ExchangeKeepsCapacity(ArrayState(s, Capacity()), idx1, idx2);
    }

    method RemoveAllValues()
      requires Valid()
      modifies this, store
      ensures Valid() && State() == ArrayState([], 0)
    {
      if store != null { ClearItems(store, leftIdx, count); }
      count, store := 0, null;
    }

    /** Appends a range of another array, or of this one, an item at a time. */
    method AppendArray(other: Deque, loc: nat, len: nat)
      requires Valid() && other.Valid() && loc + len <= other.count
      requires other == this || other.store == null || other.store != store
      requires CanEditAll(State(), Appends(other.Contents()[loc..loc + len]))
      modifies this, store
      ensures Valid() && Contents() == old(Contents() + other.Contents()[loc..loc + len])
      ensures State() == old(EditAll(State(), Appends(other.Contents()[loc..loc + len])))
      ensures store == old(store) || fresh(store)
    {
      hide Contents, CanEdit, After, CanEditAll, EditAll, Appends;
      ghost var st, theirs := State(), other.Contents()[loc..loc + len];
      ghost var all := other.Contents();
      AppendsLength(theirs);
      NoEdits(st, Appends(theirs));
      for idx := loc to loc + len
        invariant Valid() && other.Valid() && (store == old(store) || fresh(store))
        invariant other == this || (unchanged(other) && (other.store == null || other.store != store))
        invariant CanEditAll(st, Appends(theirs)[..idx - loc]) && State() == EditAll(st, Appends(theirs)[..idx - loc])
        invariant if other == this then all <= Contents() else other.Contents() == all
      {
        var value := other.GetValueAtIndex(idx);
        assert Appends(theirs)[idx - loc] == Append(value) by { AppendsAt(theirs, idx - loc); }
        CanEditPrefix(st, Appends(theirs), idx - loc);
        AppendExtends(State(), value);
        AppendValue(value);
      }
      assert Appends(theirs)[..len] == Appends(theirs);
      AppendsConcatenate(st, theirs);
    }

    method Perform(e: Edit)
      requires Valid() && CanEdit(State(), e)
      modifies this, store
      ensures Valid() && State() == old(After(State(), e))
      ensures store == old(store) || store == null || fresh(store)
    {
      hide RoomIn, CapacityAfter, Contents;
      match e
      case Append(v) => AppendValue(v);
      case Insert(at, v) => InsertValueAtIndex(at, v);
      case Remove(at) => RemoveValueAtIndex(at);
      case SetAt(at, v) => SetValueAtIndex(at, v);
      case Exchange(i, j) => ExchangeValuesAtIndices(i, j);
      case Replace(loc, len, vs) => ReplaceValues(loc, len, vs);
      case RemoveAll => RemoveAllValues();
    }

    /** Any run of operations does to the array what it does to a sequence. */
    method Run(edits: seq<Edit>)
      requires Valid() && CanEditAll(State(), edits)
      modifies this, store
      ensures Valid() && State() == old(EditAll(State(), edits))
      ensures store == old(store) || store == null || fresh(store)
    {
      hide After, CanEdit, Contents, CanEditAll, EditAll;
      ghost var st := State();
      NoEdits(st, edits);
      for i := 0 to |edits|
        invariant Valid() && (store == old(store) || store == null || fresh(store))
        invariant CanEditAll(st, edits[..i]) && State() == EditAll(st, edits[..i])
      {
        CanEditPrefix(st, edits, i);
        Perform(edits[i]);
      }
      assert edits[..|edits|] == edits;
    }
  }
}
