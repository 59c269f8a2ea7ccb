/** What the words in a table's buckets stand for, and what its operations mean on maps and sequences. */
module HashMeaning {
  import opened Bytes
  import opened HashTheory

  // ---------- Words in slots ----------

  const SUB_ZERO: Word := 0xa7baadb1
  const SUB_ONE: Word := 0xa5baadb9
  const ALL_ONES: Word := 0xFFFF_FFFF_FFFF_FFFF

  /** 0 and ~0 mark empty and deleted buckets, so stand-ins are stored for them. */
  function Encode(w: Word): (r: Word)
    ensures r != 0 && r != ALL_ONES
  {
    if w == 0 then SUB_ZERO else if w == ALL_ONES then SUB_ONE else w
  }

  function Decode(r: Word): Word {
    if r == SUB_ZERO then 0 else if r == SUB_ONE then ALL_ONES else r
  }

  predicate Storable(w: Word) {
    w != SUB_ZERO && w != SUB_ONE
  }

  /** What a word becomes by being stored; the two stand-ins do not survive. */
  lemma StoreAndLoad(w: Word)
    ensures Decode(Encode(w)) == w <==> Storable(w)
  {
  }

  /** The two marks and their stand-ins in numbers. */
  lemma StandIns(w: Word)
    ensures Encode(0) == 0xa7baadb1 && Encode(0xFFFF_FFFF_FFFF_FFFF) == 0xa5baadb9
    ensures w != 0 && w != 0xFFFF_FFFF_FFFF_FFFF ==> Encode(w) == w
    ensures Decode(0xa7baadb1) == 0 && Decode(0xa5baadb9) == 0xFFFF_FFFF_FFFF_FFFF
    ensures w != 0xa7baadb1 && w != 0xa5baadb9 ==> Decode(w) == w
    ensures Storable(w) <==> w != 0xa7baadb1 && w != 0xa5baadb9
  {
  }

  /** What the raw words and the count of one bucket stand for. Without a key array, values are keys. */
  function SlotOf(value: Word, key: Word, count: nat): Slot {
    if value == 0 then Empty
    else if value == ALL_ONES then Deleted
    else Live(Decode(key), Decode(value), count)
  }

  function SlotsOf(hasKeys: bool, hasCounts: bool, values: seq<Word>, keys: seq<Word>, counts: seq<nat>): (s: seq<Slot>)
    requires (hasKeys ==> |keys| == |values|) && (hasCounts ==> |counts| == |values|)
    ensures |s| == |values|
  {
    seq(|values|, i requires 0 <= i < |values|
                             && (hasKeys ==> |keys| == |values|) && (hasCounts ==> |counts| == |values|) =>
      SlotOf(values[i], if hasKeys then keys[i] else values[i], if hasCounts then counts[i] else 1))
  }

  lemma SlotsAt(hasKeys: bool, hasCounts: bool, values: seq<Word>, keys: seq<Word>, counts: seq<nat>, i: nat)
    requires (hasKeys ==> |keys| == |values|) && (hasCounts ==> |counts| == |values|) && i < |values|
    ensures SlotsOf(hasKeys, hasCounts, values, keys, counts)[i]
         == SlotOf(values[i], if hasKeys then keys[i] else values[i], if hasCounts then counts[i] else 1)
  {
  }

  lemma SlotsRecounted(hasKeys: bool, values: seq<Word>, keys: seq<Word>, counts: seq<nat>, i: nat, n: nat)
    requires (hasKeys ==> |keys| == |values|) && |counts| == |values| && i < |values|
    requires values[i] != 0 && values[i] != ALL_ONES
    ensures var s := SlotsOf(hasKeys, true, values, keys, counts);
      s[i].Live? && SlotsOf(hasKeys, true, values, keys, counts[i := n]) == s[i := s[i].(count := n)]
  {
  }

  // ---------- What the operations mean ----------

  type View = map<Word, Entry>

  datatype Op = Add(key: Word, value: Word) | Replace(key: Word, value: Word) | SetTo(key: Word, value: Word)
              | Remove(key: Word) | RemoveAll

  function Increment(count: nat): nat {
    if count < LONG_MAX then count + 1 else count
  }

  /** A count that has reached LONG_MAX stays there. */
  function Apply(ks: Keys, hasCounts: bool, m: View, op: Op): View {
    match op
    case Add(k, v) =>
      var c := ks.canon(k);
      if c !in m then m[c := Entry(k, v, 1)]
      else if hasCounts then m[c := m[c].(count := Increment(m[c].count))]
      else m
    case Replace(k, v) =>
      var c := ks.canon(k);
      if c in m then m[c := Entry(k, v, m[c].count)] else m
    case SetTo(k, v) =>
      var c := ks.canon(k);
      m[c := Entry(k, v, if c in m then m[c].count else 1)]
    case Remove(k) =>
      var c := ks.canon(k);
      if !Storable(k) || c !in m then m
      else if 1 < m[c].count then
        (if m[c].count < LONG_MAX then m[c := m[c].(count := m[c].count - 1)] else m)
      else m - {c}
    case RemoveAll => map[]
  }

  /** What each key's entry is after the whole run. */
  function ApplyAll(ks: Keys, hasCounts: bool, m: View, ops: seq<Op>): View {
    if ops == [] then m else Apply(ks, hasCounts, ApplyAll(ks, hasCounts, m, ops[..|ops| - 1]), ops[|ops| - 1])
  }

  /** How often a key is there, followed on its own. */
  function TallyOne(ks: Keys, hasCounts: bool, c: Word, k: nat, op: Op): nat {
    match op
    case Add(key, _) => if ks.canon(key) == c && (hasCounts || k == 0) then Increment(k) else k
    case Replace(_, _) => k
    case SetTo(key, _) => if ks.canon(key) == c && k == 0 then 1 else k
    case Remove(key) => if Storable(key) && ks.canon(key) == c && 0 < k && (k == 1 || k < LONG_MAX) then k - 1 else k
    case RemoveAll => 0
  }

  function Tally(ks: Keys, hasCounts: bool, c: Word, n: nat, ops: seq<Op>): nat {
    if ops == [] then n
    else TallyOne(ks, hasCounts, c, Tally(ks, hasCounts, c, n, ops[..|ops| - 1]), ops[|ops| - 1])
  }

  function Multiplicity(m: View, c: Word): nat {
    if c in m then m[c].count else 0
  }

  predicate Positive(m: View) {
    forall x :: x in m ==> m[x].count > 0
  }

  lemma OpIsTally(ks: Keys, hasCounts: bool, m: View, op: Op, c: Word)
    requires Positive(m)
    ensures Positive(Apply(ks, hasCounts, m, op))
    ensures Multiplicity(Apply(ks, hasCounts, m, op), c) == TallyOne(ks, hasCounts, c, Multiplicity(m, c), op)
  {
  }

  /** Keys do not disturb one another: each multiplicity evolves as a counter of its own. */
  lemma {:induction false} RunsAreTallies(ks: Keys, hasCounts: bool, m: View, ops: seq<Op>, c: Word)
    requires Positive(m)
    ensures Positive(ApplyAll(ks, hasCounts, m, ops))
    ensures Multiplicity(ApplyAll(ks, hasCounts, m, ops), c) == Tally(ks, hasCounts, c, Multiplicity(m, c), ops)
  {
    if ops != [] {
      var n := |ops| - 1;
      RunsAreTallies(ks, hasCounts, m, ops[..n], c);
      OpIsTally(ks, hasCounts, ApplyAll(ks, hasCounts, m, ops[..n]), ops[n], c);
    }
  }

  // ---------- What a key is mapped to ----------

  /** A key as a caller sees it: missing, or mapped to something. */
  datatype Mapping = Missing | To(key: Word, value: Word, count: nat)

  function MappingOf(m: View, c: Word): Mapping {
    if c in m then To(m[c].key, m[c].value, m[c].count) else Missing
  }

  /** What an operation does to the mapping of one key. Setting puts a value there whatever was there, and
      replacing only where something was; adding keeps what was there and counts it once more. */
  function FollowOne(ks: Keys, hasCounts: bool, c: Word, x: Mapping, op: Op): Mapping {
    match op
    case SetTo(k, v) => if ks.canon(k) != c then x else To(k, v, if x.To? then x.count else 1)
    case Replace(k, v) => if ks.canon(k) != c || x.Missing? then x else To(k, v, x.count)
    case Add(k, v) =>
      if ks.canon(k) != c then x
      else if x.Missing? then To(k, v, 1)
      else if hasCounts && x.count < LONG_MAX then x.(count := x.count + 1)
      else x
    case Remove(k) =>
      if ks.canon(k) != c || !Storable(k) || x.Missing? || x.count == LONG_MAX then x
      else if x.count <= 1 then Missing
      else x.(count := x.count - 1)
    case RemoveAll => Missing
  }

  function Follow(ks: Keys, hasCounts: bool, c: Word, x: Mapping, ops: seq<Op>): Mapping {
    if ops == [] then x
    else FollowOne(ks, hasCounts, c, Follow(ks, hasCounts, c, x, ops[..|ops| - 1]), ops[|ops| - 1])
  }

  /** In any run a key's entry evolves on its own, by what the operations on that key say. */
  lemma {:induction false} RunsAreFollowed(ks: Keys, hasCounts: bool, m: View, ops: seq<Op>, c: Word)
    requires Countable(m)
    ensures Countable(ApplyAll(ks, hasCounts, m, ops))
    ensures MappingOf(ApplyAll(ks, hasCounts, m, ops), c) == Follow(ks, hasCounts, c, MappingOf(m, c), ops)
  {
    if ops != [] {
      var n := |ops| - 1;
      RunsAreFollowed(ks, hasCounts, m, ops[..n], c);
      OpIsFollowed(ks, hasCounts, ApplyAll(ks, hasCounts, m, ops[..n]), ops[n], c);
    }
  }

  predicate Countable(m: View) {
    forall x :: x in m ==> 0 < m[x].count <= LONG_MAX
  }

  lemma OpIsFollowed(ks: Keys, hasCounts: bool, m: View, op: Op, c: Word)
    requires Countable(m)
    ensures Countable(Apply(ks, hasCounts, m, op))
    ensures MappingOf(Apply(ks, hasCounts, m, op), c) == FollowOne(ks, hasCounts, c, MappingOf(m, c), op)
  {
  }

  /** An operation that gives a key the value `v`, whatever it had. */
  predicate Sets(ks: Keys, c: Word, op: Op) {
    op.SetTo? && ks.canon(op.key) == c
  }

  /** An operation that does not touch what a key is mapped to, present as it is. */
  predicate Leaves(ks: Keys, c: Word, op: Op) {
    match op
    case Add(_, _) => true
    case Remove(k) => ks.canon(k) != c
    case RemoveAll => false
    case Replace(k, _) => ks.canon(k) != c
    case SetTo(k, _) => ks.canon(k) != c
  }

  /** A key has the value it was last set to. */
  lemma {:induction false} LastSetDecides(ks: Keys, hasCounts: bool, m: View, ops: seq<Op>, i: nat, c: Word)
    requires i < |ops| && Sets(ks, c, ops[i]) && forall j :: i < j < |ops| ==> Leaves(ks, c, ops[j])
    ensures c in ApplyAll(ks, hasCounts, m, ops)
    ensures ApplyAll(ks, hasCounts, m, ops)[c].key == ops[i].key
    ensures ApplyAll(ks, hasCounts, m, ops)[c].value == ops[i].value
  {
    var n := |ops| - 1;
    if i < n { LastSetDecides(ks, hasCounts, m, ops[..n], i, c); }
  }

  // ---------- Sizes of the table along a run ----------

  /** The first size from `from` on whose capacity suffices; the last size if none does. */
  function IndexFrom(capacity: nat, from: nat): nat
    decreases MAX_INDEX - from
  {
    if MAX_INDEX <= from || capacity <= Capacity(from) then from else IndexFrom(capacity, from + 1)
  }

  lemma {:induction false} IndexIsFirst(capacity: nat, from: nat)
    requires from <= MAX_INDEX && capacity <= Capacity(MAX_INDEX)
    ensures from <= IndexFrom(capacity, from) <= MAX_INDEX && capacity <= Capacity(IndexFrom(capacity, from))
    ensures forall i :: from <= i < IndexFrom(capacity, from) ==> Capacity(i) < capacity
    decreases MAX_INDEX - from
  {
    hide Capacity;
    if from < MAX_INDEX && Capacity(from) < capacity { IndexIsFirst(capacity, from + 1); }
  }

  /** A full table that gets an entry more takes the first size that suffices, or skips one if it grows
      fast. */
  function GrownIndex(fastGrow: bool, idx: nat, used: nat): nat {
    if Capacity(idx) < used + 1 then IndexFrom(used + 1, 0) + (if fastGrow then 1 else 0) else idx
  }

  /** A table that has lost an entry shrinks when a size some way down would do. */
  function ShrunkIndex(fastGrow: bool, idx: nat, used: nat): nat
    requires 0 < used
  {
    var drop := if fastGrow then 5 else 2;
    if drop < idx && used - 1 < Capacity(idx - drop) then IndexFrom(used - 1, 0) else idx
  }

  /** The least size of the 45 for so many entries. */
  predicate LeastSize(i: nat, entries: nat) {
    i <= 44 && entries <= Capacity(i) && forall j :: 0 <= j < i ==> Capacity(j) < entries
  }

  /** A table keeps its size until it is full, and takes the least size for one entry more, or the one after
      that. It shrinks when the entries left would fill less than a table two sizes down, or five if it
      grows fast, and takes the least size for them. */
  lemma SizesAlongRuns(fastGrow: bool, idx: nat, used: nat, i: nat)
    ensures used < Capacity(idx) ==> GrownIndex(fastGrow, idx, used) == idx
    ensures Capacity(idx) <= used && LeastSize(i, used + 1) ==>
      GrownIndex(fastGrow, idx, used) == if fastGrow then i + 1 else i
    ensures 0 < used && LeastSize(i, used - 1) ==>
      ShrunkIndex(false, idx, used) == (if 3 <= idx && used <= Capacity(idx - 2) then i else idx)
    ensures 0 < used && LeastSize(i, used - 1) ==>
      ShrunkIndex(true, idx, used) == (if 6 <= idx && used <= Capacity(idx - 5) then i else idx)
  {
    hide Capacity;
    if LeastSize(i, used + 1) { LeastIsFirst(i, used + 1); }
    if 0 < used && LeastSize(i, used - 1) { LeastIsFirst(i, used - 1); }
  }

  lemma LeastIsFirst(i: nat, entries: nat)
    requires LeastSize(i, entries)
    ensures IndexFrom(entries, 0) == i
  {
    hide Capacity;
    SizesFitAll(i);
    IndexIsFirst(entries, 0);
    if i < IndexFrom(entries, 0) { assert false; }
  }

  lemma SizesFitAll(i: nat)
    ensures Capacity(i) <= Capacity(MAX_INDEX)
  {
    UsedIsSmall(i);
  }

  /** One entry more can be held, in the table as it is or in the one it grows to. */
  predicate RoomForOne(fastGrow: bool, idx: nat, used: nat) {
    used < Capacity(idx) || used + 1 <= Capacity(if fastGrow then MAX_INDEX - 1 else MAX_INDEX)
  }

  lemma AlreadyRoom(fastGrow: bool, idx: nat, used: nat)
    requires used < Capacity(idx)
    ensures RoomForOne(fastGrow, idx, used) && GrownIndex(fastGrow, idx, used) == idx
  {
  }

  lemma ShrunkIsNotSparse(fastGrow: bool, idx: nat, used: nat)
    requires 0 < used <= Capacity(MAX_INDEX) + 1
    ensures var i, drop := ShrunkIndex(fastGrow, idx, used), if fastGrow then 5 else 2;
      drop < i ==> Capacity(i - drop) < used
  {
    hide Capacity;
    IndexIsFirst(used - 1, 0);
  }

  function IndexAfter(ks: Keys, fastGrow: bool, m: View, idx: nat, op: Op): nat {
    match op
    case Add(k, _) => if ks.canon(k) in m then idx else GrownIndex(fastGrow, idx, |m|)
    case Replace(_, _) => idx
    case SetTo(k, _) => if ks.canon(k) in m then idx else GrownIndex(fastGrow, idx, |m|)
    case Remove(k) =>
      if Storable(k) && ks.canon(k) in m && m[ks.canon(k)].count <= 1 then ShrunkIndex(fastGrow, idx, |m|) else idx
    case RemoveAll => 0
  }

  function IndexAfterAll(ks: Keys, hasCounts: bool, fastGrow: bool, m: View, idx: nat, ops: seq<Op>): nat {
    if ops == [] then idx
    else
      var n := |ops| - 1;
      IndexAfter(ks, fastGrow, ApplyAll(ks, hasCounts, m, ops[..n]),
                 IndexAfterAll(ks, hasCounts, fastGrow, m, idx, ops[..n]), ops[n])
  }

  /** A key that is not there needs room. */
  predicate HasRoomFor(ks: Keys, fastGrow: bool, m: View, idx: nat, op: Op) {
    (op.Add? || op.SetTo?) && ks.canon(op.key) !in m ==> RoomForOne(fastGrow, idx, |m|)
  }

  predicate HasRoomForAll(ks: Keys, hasCounts: bool, fastGrow: bool, m: View, idx: nat, ops: seq<Op>) {
    forall n :: 0 <= n < |ops| ==>
      HasRoomFor(ks, fastGrow, ApplyAll(ks, hasCounts, m, ops[..n]),
                 IndexAfterAll(ks, hasCounts, fastGrow, m, idx, ops[..n]), ops[n])
  }

  /** Maps that stay within the last size a table can grow to always have room, whatever its size. */
  lemma SmallMapsHaveRoom(ks: Keys, hasCounts: bool, fastGrow: bool, m: View, idx: nat, ops: seq<Op>)
    requires forall n :: 0 <= n <= |ops| ==>
      |ApplyAll(ks, hasCounts, m, ops[..n])| <= Capacity(if fastGrow then MAX_INDEX - 1 else MAX_INDEX)
    ensures HasRoomForAll(ks, hasCounts, fastGrow, m, idx, ops)
  {
    hide Capacity, IndexAfterAll;
    forall n | 0 <= n < |ops|
      ensures HasRoomFor(ks, fastGrow, ApplyAll(ks, hasCounts, m, ops[..n]),
                         IndexAfterAll(ks, hasCounts, fastGrow, m, idx, ops[..n]), ops[n])
    {
      var k := ApplyAll(ks, hasCounts, m, ops[..n]);
      assert ops[..n + 1][..n] == ops[..n];
      assert |Apply(ks, hasCounts, k, ops[n])| == |ApplyAll(ks, hasCounts, m, ops[..n + 1])|;
    }
  }

  // ---------- Integer values ----------

  /** Growing by one entry, a table that grows fast skips a size. The size is in the size table exactly
      as long as the entries fit the last size but one; past it the new table would have no buckets. */
  lemma FastGrowthStaysInside(need: nat, idx: nat)
    requires 0 < need <= Capacity(idx) && forall i :: 0 <= i < idx ==> Capacity(i) < need
    ensures need <= NumBuckets(idx + 1) <==> need <= Capacity(MAX_INDEX - 1)
  {
    assert MAX_INDEX - 1 < idx ==> Capacity(MAX_INDEX - 1) < need;
  }

  /** Renumbering to make room at `p`, and to close the gap at `p`, as the words come back from their
      buckets. */
  function Raised(p: Word, v: Word): Word {
    if p <= v then Decode(Encode((v + 1) % TWO_TO_64)) else v
  }

  function Lowered(p: Word, v: Word): Word {
    if p < v then Decode(Encode(v - 1)) else v
  }

  function MapValues(m: View, f: Word -> Word): View {
    map c | c in m :: m[c].(value := f(m[c].value))
  }

  function Inserted(m: View, c: Word, key: Word, p: Word): View {
    MapValues(m, v => Raised(p, v))[c := Entry(key, p, 1)]
  }

  function Removed(m: View, c: Word, p: Word): View {
    MapValues(m - {c}, v => Lowered(p, v))
  }

  /** The keys that are there more than once. */
  function Repeated(m: View): set<Word> {
    set c | c in m && m[c].count != 1
  }

  lemma EditsRepeatNothing(m: View, c: Word, key: Word, p: Word)
    ensures Repeated(Inserted(m, c, key, p)) <= Repeated(m) && Repeated(Removed(m, c, p)) <= Repeated(m)
  {
  }

  /** The table numbers the keys `s` from 0 in order. */
  ghost predicate IsOrder(m: View, s: seq<Word>) {
    && (forall i :: 0 <= i < |s| ==> s[i] in m && m[s[i]].value == i)
    && (forall c :: c in m ==> m[c].value < |s| && s[m[c].value] == c)
  }

  /** No table can hold the stand-ins as values. */
  predicate StorableValues(m: View) {
    forall c :: c in m ==> Storable(m[c].value)
  }

  lemma NoStandIn(m: View, s: seq<Word>, i: nat)
    requires IsOrder(m, s) && StorableValues(m) && i < |s|
    ensures i != SUB_ONE
  {
    assert m[s[i]].value == i;
  }

  lemma OrderIsShort(m: View, s: seq<Word>)
    requires IsOrder(m, s) && StorableValues(m)
    ensures |s| <= SUB_ONE
  {
    if SUB_ONE < |s| {
      NoStandIn(m, s, SUB_ONE);
      assert false;
    }
  }

  lemma {:induction false} OrderSize(m: View, s: seq<Word>)
    requires IsOrder(m, s)
    ensures |m| == |s|
  {
    if s == [] {
      assert forall c :: c !in m;
      assert m == map[];
    } else {
      var n := |s| - 1;
      var k := m - {s[n]};
      assert s[n] in m && m.Keys == k.Keys + {s[n]};
      OrderSize(k, s[..n]);
    }
  }

  /** The sequence with `c` put at `p`. */
  function InsertedAt(s: seq<Word>, p: nat, c: Word): seq<Word>
    requires p <= |s|
  {
    s[..p] + [c] + s[p..]
  }

  lemma NumberRaised(m: View, s: seq<Word>, p: Word, d: Word)
    requires IsOrder(m, s) && StorableValues(m) && d in m && |s| < SUB_ONE
    ensures var v := m[d].value;
      v < |s| && s[v] == d && Raised(p, v) == if p <= v then v + 1 else v
  {
  }

  lemma InsertKeepsOrder(m: View, s: seq<Word>, c: Word, key: Word, p: Word)
    requires IsOrder(m, s) && StorableValues(m) && c !in m && p <= |s| < SUB_ONE
    ensures IsOrder(Inserted(m, c, key, p), InsertedAt(s, p, c))
  {
    hide StorableValues, Raised, Encode, Decode;
    var n, t := Inserted(m, c, key, p), InsertedAt(s, p, c);
    forall i | 0 <= i < |t| ensures t[i] in n && n[t[i]].value == i {
      if i < p {
        assert t[i] == s[i] && m[s[i]].value == i;
        NumberRaised(m, s, p, s[i]);
      } else if i > p {
        assert t[i] == s[i - 1] && m[s[i - 1]].value == i - 1;
        NumberRaised(m, s, p, s[i - 1]);
      }
    }
    forall d | d in n ensures n[d].value < |t| && t[n[d].value] == d {
      if d != c {
        NumberRaised(m, s, p, d);
        if p <= m[d].value { assert t[m[d].value + 1] == s[m[d].value]; }
      }
    }
  }

  lemma InsertBreaksOrder(m: View, s: seq<Word>, c: Word, key: Word, p: Word)
    requires IsOrder(m, s) && c !in m && Storable(p) && p <= |s| == SUB_ONE
    ensures !IsOrder(Inserted(m, c, key, p), InsertedAt(s, p, c))
  {
    hide InsertedAt;
    var d := s[SUB_ONE - 1];
    assert m[d].value == SUB_ONE - 1;
    assert Inserted(m, c, key, p)[d].value == ALL_ONES;
    assert |InsertedAt(s, p, c)| == SUB_ONE + 1 by { InsertedLength(s, p, c); }
  }

  lemma InsertedLength(s: seq<Word>, p: nat, c: Word)
    requires p <= |s|
    ensures |InsertedAt(s, p, c)| == |s| + 1
  {
  }

  /** Making room at `p` is insertion at `p` exactly as long as no number reaches the stand-in for ~0,
      which would read back as ~0. */
  lemma InsertIsInsertion(m: View, s: seq<Word>, c: Word, key: Word, p: Word)
    requires IsOrder(m, s) && StorableValues(m) && c !in m && Storable(p) && p <= |s|
    ensures IsOrder(Inserted(m, c, key, p), InsertedAt(s, p, c)) <==> |s| < SUB_ONE
  {
    hide IsOrder, Inserted, InsertedAt, StorableValues;
    OrderIsShort(m, s);
    if |s| < SUB_ONE { InsertKeepsOrder(m, s, c, key, p); } else { InsertBreaksOrder(m, s, c, key, p); }
  }

  lemma RemoveIsDeletion(m: View, s: seq<Word>, p: Word)
    requires IsOrder(m, s) && StorableValues(m) && p < |s|
    ensures IsOrder(Removed(m, s[p], p), s[..p] + s[p + 1..])
  {
    OrderIsShort(m, s);
    var n, t := Removed(m, s[p], p), s[..p] + s[p + 1..];
    forall i | 0 <= i < |t| ensures t[i] in n && n[t[i]].value == i {
      if i >= p { assert t[i] == s[i + 1]; }
    }
    forall d | d in n ensures n[d].value < |t| && t[n[d].value] == d {
      if p < m[d].value { assert t[m[d].value - 1] == s[m[d].value]; }
    }
  }

  /** Edits of a sequence of keys. */
  datatype Edit = Insert(key: Word, at: Word) | Delete(at: Word)

  function EditOne(ks: Keys, s: seq<Word>, e: Edit): seq<Word>
    requires e.at <= |s| && (e.Delete? ==> e.at < |s|)
  {
    match e
    case Insert(key, p) => InsertedAt(s, p, ks.canon(key))
    case Delete(p) => s[..p] + s[p + 1..]
  }

  /** A new key goes to a place in a sequence that the numbering can still hold; an old one exists. */
  predicate CanEdit(ks: Keys, s: seq<Word>, e: Edit) {
    match e
    case Insert(key, p) => Storable(key) && ks.canon(key) !in s && p <= |s| < SUB_ONE
    case Delete(p) => p < |s|
  }

  predicate CanEditAll(ks: Keys, s: seq<Word>, edits: seq<Edit>)
    decreases |edits|, 0
  {
    edits == [] ||
    (CanEditAll(ks, s, edits[..|edits| - 1]) && CanEdit(ks, EditAll(ks, s, edits[..|edits| - 1]), edits[|edits| - 1]))
  }

  function EditAll(ks: Keys, s: seq<Word>, edits: seq<Edit>): seq<Word>
    requires CanEditAll(ks, s, edits)
    decreases |edits|, 1
  {
    if edits == [] then s else EditOne(ks, EditAll(ks, s, edits[..|edits| - 1]), edits[|edits| - 1])
  }

  lemma {:induction false} CanEditPrefix(ks: Keys, s: seq<Word>, edits: seq<Edit>, n: nat)
    requires CanEditAll(ks, s, edits) && n <= |edits|
    ensures CanEditAll(ks, s, edits[..n])
    ensures n < |edits| ==> CanEdit(ks, EditAll(ks, s, edits[..n]), edits[n])
  {
    if n == |edits| {
      assert edits[..n] == edits;
    } else if n < |edits| - 1 {
      CanEditPrefix(ks, s, edits[..|edits| - 1], n);
      assert edits[..|edits| - 1][..n] == edits[..n];
    }
  }

  /** The size of a table of numbered keys along a run of edits. */
  function IndexAfterEdits(ks: Keys, fastGrow: bool, s: seq<Word>, idx: nat, edits: seq<Edit>): nat
    requires CanEditAll(ks, s, edits)
  {
    if edits == [] then idx
    else
      var n := |edits| - 1;
      var t, i := EditAll(ks, s, edits[..n]), IndexAfterEdits(ks, fastGrow, s, idx, edits[..n]);
      if edits[n].Insert? then GrownIndex(fastGrow, i, |t|) else ShrunkIndex(fastGrow, i, |t|)
  }

  /** Each insertion has room, and what is deleted is there once. */
  predicate EditsFit(ks: Keys, fastGrow: bool, m: View, s: seq<Word>, idx: nat, edits: seq<Edit>) {
    forall n :: 0 <= n < |edits| && CanEditAll(ks, s, edits[..n]) ==>
      var t := EditAll(ks, s, edits[..n]);
      if edits[n].Insert? then RoomForOne(fastGrow, IndexAfterEdits(ks, fastGrow, s, idx, edits[..n]), |t|)
      else edits[n].at < |t| && t[edits[n].at] !in Repeated(m)
  }
}
