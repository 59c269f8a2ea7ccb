/** Open addressing over a sequence of slots: what probing finds, and what a table contains. */
module HashTheory {
  import opened Bytes

  type Word = UInt64

  /** A bucket: never used, a tombstone, or holding a key, its value and its multiplicity. */
  datatype Slot = Empty | Deleted | Live(key: Word, value: Word, count: nat)

  datatype Entry = Entry(key: Word, value: Word, count: nat)

  /** The key callbacks. Equal keys have one representative, and the hash depends on it alone. */
  datatype Keys = Keys(canon: Word -> Word, hash: Word -> nat) {
    predicate Equate(a: Word, b: Word) {
      canon(a) == canon(b)
    }

    function Hash(k: Word): nat {
      hash(canon(k))
    }
  }

  /** Walking upwards and around from `h`, `m` comes strictly before `i`. */
  predicate Before(h: nat, m: nat, i: nat) {
    if h <= i then h <= m < i else m >= h || m < i
  }

  /** The first `steps` buckets walking upwards and around from `h`. */
  predicate Visited(h: nat, steps: nat, n: nat, m: nat) {
    if h + steps <= n then h <= m < h + steps else m >= h || m < h + steps - n
  }

  function Around(h: nat, steps: nat, n: nat): nat
    requires h < n && steps <= n
  {
    if h + steps < n then h + steps else h + steps - n
  }

  lemma VisitNext(h: nat, steps: nat, n: nat)
    requires h < n && steps < n
    ensures forall m: nat :: m < n ==>
      (Visited(h, steps + 1, n, m) <==> Visited(h, steps, n, m) || m == Around(h, steps, n))
    ensures forall m: nat :: m < n ==> (Before(h, m, Around(h, steps, n)) <==> Visited(h, steps, n, m))
  {
    forall m: nat | m < n
      ensures Visited(h, steps + 1, n, m) <==> Visited(h, steps, n, m) || m == Around(h, steps, n)
    {
    }
  }

  function Home(ks: Keys, k: Word, n: nat): nat
    requires n > 0
  {
    ks.Hash(k) % n
  }

  /** No empty slot separates a key from its home. */
  predicate Reachable(ks: Keys, s: seq<Slot>) {
    forall i, m :: 0 <= i < |s| && 0 <= m < |s| && s[i].Live? && Before(Home(ks, s[i].key, |s|), m, i) ==> !s[m].Empty?
  }

  predicate Unique(ks: Keys, s: seq<Slot>) {
    forall i, j :: 0 <= i < j < |s| && s[i].Live? && s[j].Live? ==> !ks.Equate(s[i].key, s[j].key)
  }

  predicate WellPlaced(ks: Keys, s: seq<Slot>) {
    Reachable(ks, s) && Unique(ks, s) && forall i :: 0 <= i < |s| && s[i].Live? ==> s[i].count >= 1
  }

  predicate Holds(ks: Keys, s: seq<Slot>, k: Word, i: nat) {
    i < |s| && s[i].Live? && ks.Equate(s[i].key, k)
  }

  predicate Absent(ks: Keys, s: seq<Slot>, k: Word) {
    forall i :: 0 <= i < |s| ==> !Holds(ks, s, k, i)
  }

  predicate AllLive(s: seq<Slot>) {
    forall i :: 0 <= i < |s| ==> s[i].Live?
  }

  /** A slot where an absent key may be put: not live, and with no empty slot before it. */
  predicate Vacancy(ks: Keys, s: seq<Slot>, k: Word, i: nat) {
    && i < |s| && !s[i].Live?
    && forall m :: 0 <= m < |s| && Before(Home(ks, k, |s|), m, i) ==> !s[m].Empty?
  }

  /** Meeting an empty slot before meeting the key proves the key absent. */
  lemma EmptyStopsSearch(ks: Keys, s: seq<Slot>, k: Word, probe: nat)
    requires Reachable(ks, s) && probe < |s| && s[probe].Empty?
    requires forall m :: 0 <= m < |s| && Before(Home(ks, k, |s|), m, probe) ==> !Holds(ks, s, k, m)
    ensures Absent(ks, s, k)
  {
    forall i | 0 <= i < |s| ensures !Holds(ks, s, k, i) {
      if Holds(ks, s, k, i) {
        var h := Home(ks, k, |s|);
        assert Home(ks, s[i].key, |s|) == h;
        assert !Before(h, i, probe) && i != probe;
        assert Before(h, probe, i);
      }
    }
  }

  /** Filling a vacancy, or replacing a live slot by one for an equal key, keeps the table well placed. */
  lemma FillKeepsPlaced(ks: Keys, s: seq<Slot>, k: Word, v: Word, c: nat, i: nat)
    requires WellPlaced(ks, s) && c >= 1
    requires (Absent(ks, s, k) && Vacancy(ks, s, k, i)) || Holds(ks, s, k, i)
    ensures WellPlaced(ks, s[i := Live(k, v, c)])
  {
    var t := s[i := Live(k, v, c)];
    forall a, b | 0 <= a < b < |t| && t[a].Live? && t[b].Live? ensures !ks.Equate(t[a].key, t[b].key) {
      if a == i { assert !Holds(ks, s, k, b) || s[i].Live?; }
      if b == i { assert !Holds(ks, s, k, a) || s[i].Live?; }
    }
    forall a, m | 0 <= a < |t| && 0 <= m < |t| && t[a].Live? && Before(Home(ks, t[a].key, |t|), m, a)
      ensures !t[m].Empty?
    {
      if a == i && Holds(ks, s, k, i) {
        assert Home(ks, s[i].key, |s|) == Home(ks, k, |s|);
      }
    }
  }

  lemma DeleteKeepsPlaced(ks: Keys, s: seq<Slot>, i: nat)
    requires WellPlaced(ks, s) && i < |s|
    ensures WellPlaced(ks, s[i := Deleted])
  {
  }

  // ---------- Counting ----------

  function One(b: bool): nat {
    if b then 1 else 0
  }

  function NumLive(s: seq<Slot>): nat {
    if s == [] then 0 else NumLive(s[..|s| - 1]) + One(s[|s| - 1].Live?)
  }

  function NumDeleted(s: seq<Slot>): nat {
    if s == [] then 0 else NumDeleted(s[..|s| - 1]) + One(s[|s| - 1].Deleted?)
  }

  function Count(x: Slot): nat {
    if x.Live? then x.count else 0
  }

  function Total(s: seq<Slot>): nat {
    if s == [] then 0 else Total(s[..|s| - 1]) + Count(s[|s| - 1])
  }

  lemma NoneYet(s: seq<Slot>)
    ensures Total(s[..0]) == 0
  {
  }

  lemma TotalNext(s: seq<Slot>, n: nat)
    requires n < |s|
    ensures Total(s[..n + 1]) == Total(s[..n]) + Count(s[n])
  {
    assert s[..n + 1][..n] == s[..n];
  }

  lemma AddCut(x: nat, n: nat)
    ensures (x % TWO_TO_64 + n) % TWO_TO_64 == (x + n) % TWO_TO_64
  {
    DropMultiple(x % TWO_TO_64 + n, x / TWO_TO_64);
  }

  lemma {:induction false} CountsAfterUpdate(s: seq<Slot>, i: nat, x: Slot)
    requires i < |s|
    ensures NumLive(s[i := x]) + One(s[i].Live?) == NumLive(s) + One(x.Live?)
    ensures NumDeleted(s[i := x]) + One(s[i].Deleted?) == NumDeleted(s) + One(x.Deleted?)
    ensures Total(s[i := x]) + Count(s[i]) == Total(s) + Count(x)
  {
    var n := |s| - 1;
    if i == n {
      assert s[i := x][..n] == s[..n];
    } else {
      assert s[i := x][..n] == s[..n][i := x];
      CountsAfterUpdate(s[..n], i, x);
    }
  }

  lemma {:induction false} CountsBounded(s: seq<Slot>)
    ensures NumLive(s) + NumDeleted(s) <= |s|
  {
    if s != [] { CountsBounded(s[..|s| - 1]); }
  }

  /** A table that is not all live has a slot to fill. */
  lemma {:induction false} FreeSlot(s: seq<Slot>) returns (i: nat)
    requires NumLive(s) < |s|
    ensures i < |s| && !s[i].Live?
  {
    var n := |s| - 1;
    if s[n].Live? { i := FreeSlot(s[..n]); } else { i := n; }
  }

  lemma {:induction false} NoTombstones(s: seq<Slot>)
    requires NumDeleted(s) == 0
    ensures forall i :: 0 <= i < |s| ==> !s[i].Deleted?
  {
    if s != [] { NoTombstones(s[..|s| - 1]); }
  }

  // ---------- Contents ----------

  /** The table as a map from key representatives to entries. */
  function Contents(ks: Keys, s: seq<Slot>): map<Word, Entry> {
    if s == [] then map[]
    else
      var m, x := Contents(ks, s[..|s| - 1]), s[|s| - 1];
      if x.Live? then m[ks.canon(x.key) := Entry(x.key, x.value, x.count)] else m
  }

  /** `m` says of each key what the table says. */
  ghost predicate Describes(ks: Keys, m: map<Word, Entry>, s: seq<Slot>) {
    && (forall i :: 0 <= i < |s| && s[i].Live? ==>
          ks.canon(s[i].key) in m && m[ks.canon(s[i].key)] == Entry(s[i].key, s[i].value, s[i].count))
    && (forall c :: c in m ==> exists i :: 0 <= i < |s| && s[i].Live? && ks.canon(s[i].key) == c)
  }

  lemma {:induction false} ContentsDescribe(ks: Keys, s: seq<Slot>)
    requires Unique(ks, s)
    ensures Describes(ks, Contents(ks, s), s)
  {
    if s != [] {
      var n := |s| - 1;
      var t := s[..n];
      ContentsDescribe(ks, t);
      var m := Contents(ks, s);
      forall i | 0 <= i < |s| && s[i].Live?
        ensures ks.canon(s[i].key) in m && m[ks.canon(s[i].key)] == Entry(s[i].key, s[i].value, s[i].count)
      {
        if i < n {
          assert t[i] == s[i];
          assert s[n].Live? ==> !ks.Equate(s[i].key, s[n].key);
        }
      }
      forall c | c in m ensures exists i :: 0 <= i < |s| && s[i].Live? && ks.canon(s[i].key) == c {
        if s[n].Live? && ks.canon(s[n].key) == c {
        } else {
          var i :| 0 <= i < |t| && t[i].Live? && ks.canon(t[i].key) == c;
          assert s[i] == t[i];
        }
      }
    }
  }

  lemma DescriptionIsContents(ks: Keys, m: map<Word, Entry>, s: seq<Slot>)
    requires Unique(ks, s) && Describes(ks, m, s)
    ensures m == Contents(ks, s)
  {
    ContentsDescribe(ks, s);
    var k := Contents(ks, s);
    forall c | c in m ensures c in k && k[c] == m[c] {
      var i :| 0 <= i < |s| && s[i].Live? && ks.canon(s[i].key) == c;
    }
    forall c | c in k ensures c in m {
      var i :| 0 <= i < |s| && s[i].Live? && ks.canon(s[i].key) == c;
    }
  }

  lemma ContentsAfterFill(ks: Keys, s: seq<Slot>, k: Word, v: Word, c: nat, i: nat)
    requires WellPlaced(ks, s) && c >= 1
    requires (Absent(ks, s, k) && Vacancy(ks, s, k, i)) || Holds(ks, s, k, i)
    ensures Contents(ks, s[i := Live(k, v, c)]) == Contents(ks, s)[ks.canon(k) := Entry(k, v, c)]
  {
    var t, m := s[i := Live(k, v, c)], Contents(ks, s)[ks.canon(k) := Entry(k, v, c)];
    FillKeepsPlaced(ks, s, k, v, c, i);
    ContentsDescribe(ks, s);
    forall a | 0 <= a < |t| && t[a].Live?
      ensures ks.canon(t[a].key) in m && m[ks.canon(t[a].key)] == Entry(t[a].key, t[a].value, t[a].count)
    {
      if a != i {
        assert t[i].Live? && t[a] == s[a];
        assert !ks.Equate(t[a].key, t[i].key) by { if a < i {} else {} }
      }
    }
    forall x | x in m ensures exists a :: 0 <= a < |t| && t[a].Live? && ks.canon(t[a].key) == x {
      if x == ks.canon(k) {
        assert t[i].Live?;
      } else {
        var a :| 0 <= a < |s| && s[a].Live? && ks.canon(s[a].key) == x;
        assert t[a] == s[a];
      }
    }
    DescriptionIsContents(ks, m, t);
  }

  lemma ContentsAfterDelete(ks: Keys, s: seq<Slot>, i: nat)
    requires WellPlaced(ks, s) && i < |s| && s[i].Live?
    ensures ks.canon(s[i].key) in Contents(ks, s)
    ensures Contents(ks, s[i := Deleted]) == Contents(ks, s) - {ks.canon(s[i].key)}
  {
    var t, m := s[i := Deleted], Contents(ks, s) - {ks.canon(s[i].key)};
    ContentsDescribe(ks, s);
    forall a | 0 <= a < |t| && t[a].Live?
      ensures ks.canon(t[a].key) in m && m[ks.canon(t[a].key)] == Entry(t[a].key, t[a].value, t[a].count)
    {
      assert t[a] == s[a] && !ks.Equate(s[a].key, s[i].key) by { if a < i {} else {} }
    }
    forall x | x in m ensures exists a :: 0 <= a < |t| && t[a].Live? && ks.canon(t[a].key) == x {
      var a :| 0 <= a < |s| && s[a].Live? && ks.canon(s[a].key) == x;
      assert t[a] == s[a];
    }
    DescriptionIsContents(ks, m, t);
  }

  lemma HeldIsThere(ks: Keys, s: seq<Slot>, k: Word, i: nat)
    requires Unique(ks, s) && Holds(ks, s, k, i)
    ensures ks.canon(k) in Contents(ks, s)
    ensures Contents(ks, s)[ks.canon(k)] == Entry(s[i].key, s[i].value, s[i].count)
  {
    ContentsDescribe(ks, s);
  }

  lemma AbsentIsMissing(ks: Keys, s: seq<Slot>, k: Word)
    requires Unique(ks, s) && Absent(ks, s, k)
    ensures ks.canon(k) !in Contents(ks, s)
  {
    ContentsDescribe(ks, s);
    if ks.canon(k) in Contents(ks, s) {
      var i :| 0 <= i < |s| && s[i].Live? && ks.canon(s[i].key) == ks.canon(k);
      assert Holds(ks, s, k, i);
    }
  }

  function EntryOf(x: Slot): Entry
    requires x.Live?
  {
    Entry(x.key, x.value, x.count)
  }

  lemma RecountSlot(ks: Keys, s: seq<Slot>, i: nat, n: nat)
    requires WellPlaced(ks, s) && i < |s| && s[i].Live? && n >= 1
    ensures var c, t := ks.canon(s[i].key), s[i := Live(s[i].key, s[i].value, n)];
      && WellPlaced(ks, t) && c in Contents(ks, s)
      && Contents(ks, s)[c] == EntryOf(s[i])
      && Contents(ks, t) == Contents(ks, s)[c := EntryOf(s[i]).(count := n)]
      && NumLive(t) == NumLive(s) && NumDeleted(t) == NumDeleted(s)
  {
    HeldIsThere(ks, s, s[i].key, i);
    FillKeepsPlaced(ks, s, s[i].key, s[i].value, n, i);
    ContentsAfterFill(ks, s, s[i].key, s[i].value, n, i);
    CountsAfterUpdate(s, i, Live(s[i].key, s[i].value, n));
  }

  /** Each live slot is one entry of the contents. */
  lemma {:induction false} LiveAreEntries(ks: Keys, s: seq<Slot>)
    requires Unique(ks, s)
    ensures |Contents(ks, s)| == NumLive(s)
  {
    if s != [] {
      var n := |s| - 1;
      LiveAreEntries(ks, s[..n]);
      if s[n].Live? {
        assert Absent(ks, s[..n], s[n].key);
        AbsentIsMissing(ks, s[..n], s[n].key);
      }
    }
  }

  lemma {:induction false} NoneLive(ks: Keys, s: seq<Slot>)
    requires NumLive(s) == 0
    ensures Contents(ks, s) == map[]
  {
    if s != [] { NoneLive(ks, s[..|s| - 1]); }
  }

  lemma {:induction false} AllOnes(s: seq<Slot>)
    requires forall i :: 0 <= i < |s| && s[i].Live? ==> s[i].count == 1
    ensures Total(s) == NumLive(s)
  {
    if s != [] { AllOnes(s[..|s| - 1]); }
  }

  lemma StillAbsent(ks: Keys, s: seq<Slot>, t: seq<Slot>, k: Word)
    requires Unique(ks, s) && Unique(ks, t) && Contents(ks, s) == Contents(ks, t) && Absent(ks, s, k)
    ensures Absent(ks, t, k)
  {
    AbsentIsMissing(ks, s, k);
    forall i | 0 <= i < |t| ensures !Holds(ks, t, k, i) {
      if Holds(ks, t, k, i) { HeldIsThere(ks, t, k, i); }
    }
  }

  /** The sum of multiplicities. */
  ghost function Sum(m: map<Word, Entry>): nat {
    if m == map[] then 0
    else
      var c :| c in m;
      m[c].count + Sum(m - {c})
  }

  lemma {:induction false} SumRemove(m: map<Word, Entry>, c: Word)
    requires c in m
    ensures Sum(m) == m[c].count + Sum(m - {c})
    decreases m
  {
    var b :| b in m && Sum(m) == m[b].count + Sum(m - {b});
    if b != c {
      SumRemove(m - {b}, c);
      SumRemove(m - {c}, b);
      assert m - {b} - {c} == m - {c} - {b};
    }
  }

  lemma {:induction false} TotalIsSum(ks: Keys, s: seq<Slot>)
    requires Unique(ks, s)
    ensures Total(s) == Sum(Contents(ks, s))
  {
    if s != [] {
      var n := |s| - 1;
      var t := s[..n];
      TotalIsSum(ks, t);
      if s[n].Live? {
        var c := ks.canon(s[n].key);
        assert Absent(ks, t, s[n].key);
        AbsentIsMissing(ks, t, s[n].key);
        SumRemove(Contents(ks, s), c);
        assert Contents(ks, s) - {c} == Contents(ks, t);
      }
    }
  }

  // ---------- Moving to new storage ----------

  /** `t` is a table of what the first `n` slots of `s` hold, without tombstones. */
  ghost predicate Moved(ks: Keys, s: seq<Slot>, n: nat, t: seq<Slot>) {
    && n <= |s| && WellPlaced(ks, t) && NumDeleted(t) == 0
    && (forall i :: 0 <= i < |t| ==> !t[i].Deleted?)
    && NumLive(t) == NumLive(s[..n])
    && Contents(ks, t) == Contents(ks, s[..n])
  }

  lemma {:induction false} AllEmpty(ks: Keys, t: seq<Slot>)
    requires forall i :: 0 <= i < |t| ==> t[i] == Empty
    ensures WellPlaced(ks, t) && NumLive(t) == 0 && NumDeleted(t) == 0 && Contents(ks, t) == map[]
  {
    if t != [] { AllEmpty(ks, t[..|t| - 1]); }
  }

  lemma MovedNone(ks: Keys, s: seq<Slot>, t: seq<Slot>)
    requires WellPlaced(ks, t) && NumLive(t) == 0 && NumDeleted(t) == 0 && Contents(ks, t) == map[]
    requires forall i :: 0 <= i < |t| ==> t[i] == Empty
    ensures Moved(ks, s, 0, t)
  {
  }

  lemma {:induction false} NumLivePrefix(s: seq<Slot>, n: nat)
    requires n <= |s|
    ensures NumLive(s[..n]) <= NumLive(s)
  {
    if n < |s| {
      assert s[..|s| - 1][..n] == s[..n];
      NumLivePrefix(s[..|s| - 1], n);
    } else {
      assert s[..n] == s;
    }
  }

  /** There is a vacancy for the next live slot, and filling it moves that slot. */
  lemma MoveOne(ks: Keys, s: seq<Slot>, n: nat, t: seq<Slot>, i: int)
    requires WellPlaced(ks, s) && n < |s| && s[n].Live? && NumLive(s) <= |t| && Moved(ks, s, n, t)
    requires 0 <= i ==> Vacancy(ks, t, s[n].key, i)
    requires i < 0 ==> AllLive(t)
    ensures 0 <= i < |t| && t[i] == Empty && Moved(ks, s, n + 1, t[i := s[n]])
  {
    hide Contents, Reachable, Vacancy;
    var x, u := s[n], s[..n];
    assert s[..n + 1][..n] == u;
    NumLivePrefix(s, n + 1);
    var j := FreeSlot(t);
    assert 0 <= i;
    VacancyIsFree(ks, t, x.key, i);
    UniquePrefix(ks, s, n);
    if !Absent(ks, t, x.key) {
      var a :| 0 <= a < |t| && Holds(ks, t, x.key, a);
      HeldIsThere(ks, t, x.key, a);
      AbsentIsMissing(ks, u, x.key);
    }
    FillKeepsPlaced(ks, t, x.key, x.value, x.count, i);
    ContentsAfterFill(ks, t, x.key, x.value, x.count, i);
    CountsAfterUpdate(t, i, x);
    ContentsNext(ks, s, n);
  }

  lemma VacancyIsFree(ks: Keys, t: seq<Slot>, k: Word, i: nat)
    requires Vacancy(ks, t, k, i)
    ensures i < |t| && !t[i].Live?
  {
  }

  lemma UniquePrefix(ks: Keys, s: seq<Slot>, n: nat)
    requires Unique(ks, s) && n < |s| && s[n].Live?
    ensures Unique(ks, s[..n]) && Absent(ks, s[..n], s[n].key)
  {
  }

  lemma ContentsNext(ks: Keys, s: seq<Slot>, n: nat)
    requires n < |s|
    ensures s[n].Live? ==>
      Contents(ks, s[..n + 1]) == Contents(ks, s[..n])[ks.canon(s[n].key) := Entry(s[n].key, s[n].value, s[n].count)]
    ensures !s[n].Live? ==> Contents(ks, s[..n + 1]) == Contents(ks, s[..n])
  {
    assert s[..n + 1][..n] == s[..n];
  }

  lemma MoveNone(ks: Keys, s: seq<Slot>, n: nat, t: seq<Slot>)
    requires n < |s| && !s[n].Live? && Moved(ks, s, n, t)
    ensures Moved(ks, s, n + 1, t)
  {
    assert s[..n + 1][..n] == s[..n];
    ContentsNext(ks, s, n);
  }

  // ---------- Changing values in place ----------

  function Revalue(s: seq<Slot>, f: Word -> Word): (t: seq<Slot>)
    ensures |t| == |s|
  {
    seq(|s|, i requires 0 <= i < |s| => if s[i].Live? then s[i].(value := f(s[i].value)) else s[i])
  }

  lemma {:induction false} RevalueCounts(ks: Keys, s: seq<Slot>, f: Word -> Word)
    ensures NumLive(Revalue(s, f)) == NumLive(s) && NumDeleted(Revalue(s, f)) == NumDeleted(s)
    ensures var m := Contents(ks, s);
      Contents(ks, Revalue(s, f)) == map c | c in m :: m[c].(value := f(m[c].value))
  {
    if s != [] {
      assert Revalue(s, f)[..|s| - 1] == Revalue(s[..|s| - 1], f);
      RevalueCounts(ks, s[..|s| - 1], f);
    }
  }

  lemma RevaluePlaced(ks: Keys, s: seq<Slot>, f: Word -> Word, k: Word)
    ensures WellPlaced(ks, s) ==> WellPlaced(ks, Revalue(s, f))
    ensures Absent(ks, s, k) ==> Absent(ks, Revalue(s, f), k)
    ensures forall i :: Vacancy(ks, s, k, i) ==> Vacancy(ks, Revalue(s, f), k, i)
  {
    assert forall i :: 0 <= i < |s| ==> (Holds(ks, Revalue(s, f), k, i) <==> Holds(ks, s, k, i));
  }

  // ---------- Table sizes ----------

  /** Number of buckets, and how many of them may be used. */
  datatype Size = Size(buckets: nat, capacity: nat)

  /** The table of prime sizes on a 64-bit machine. Entries past number 44 are zero. */
  function SizeAt(idx: nat): Size {
    match idx
    case 0 => Size(0, 0) case 1 => Size(3, 3) case 2 => Size(7, 6) case 3 => Size(13, 11) case 4 => Size(23, 19)
    case 5 => Size(41, 32) case 6 => Size(71, 52) case 7 => Size(127, 85) case 8 => Size(191, 118)
    case 9 => Size(251, 155) case 10 => Size(383, 237) case 11 => Size(631, 390) case 12 => Size(1087, 672)
    case 13 => Size(1723, 1065) case 14 => Size(2803, 1732) case 15 => Size(4523, 2795) case 16 => Size(7351, 4543)
    case 17 => Size(11959, 7391) case 18 => Size(19447, 12019) case 19 => Size(31231, 19302)
    case 20 => Size(50683, 31324) case 21 => Size(81919, 50629) case 22 => Size(132607, 81956)
    case 23 => Size(214519, 132580) case 24 => Size(346607, 214215) case 25 => Size(561109, 346784)
    case 26 => Size(907759, 561026) case 27 => Size(1468927, 907847) case 28 => Size(2376191, 1468567)
    case 29 => Size(3845119, 2376414) case 30 => Size(6221311, 3844982) case 31 => Size(10066421, 6221390)
    case 32 => Size(16287743, 10066379) case 33 => Size(26354171, 16287773) case 34 => Size(42641881, 26354132)
    case 35 => Size(68996069, 42641916) case 36 => Size(111638519, 68996399) case 37 => Size(180634607, 111638327)
    case 38 => Size(292272623, 180634415) case 39 => Size(472907251, 292272755) case 40 => Size(765180413, 472907503)
    case 41 => Size(1238087663, 765180257) case 42 => Size(2003267557, 1238087439)
    case 43 => Size(3241355263, 2003267722) case 44 => Size(5244622819, 3241355160)
    case _ => Size(0, 0)
  }

  const MAX_INDEX := 44

  function NumBuckets(idx: nat): nat {
    SizeAt(idx).buckets
  }

  function Capacity(idx: nat): nat {
    SizeAt(idx).capacity
  }

  /** Up to 127 buckets are filled to different degrees; from 191 on, a table is filled to the golden ratio:
      0.6180339887 of its buckets, rounded. Numbers of buckets are odd. */
  lemma SizesAreGolden(idx: nat)
    ensures 8 <= idx <= 44 ==>
      -5000000000 <= 6180339887 * NumBuckets(idx) - 10000000000 * Capacity(idx) <= 5000000000
    ensures idx < 8 ==>
      NumBuckets(idx) == [0, 3, 7, 13, 23, 41, 71, 127][idx] && Capacity(idx) == [0, 3, 6, 11, 19, 32, 52, 85][idx]
    ensures 0 < idx <= 44 ==> NumBuckets(idx) % 2 == 1
    ensures 44 < idx ==> NumBuckets(idx) == Capacity(idx) == 0
  {
  }

  lemma SizesFit(idx: nat)
    ensures Capacity(idx) <= NumBuckets(idx)
    ensures idx < MAX_INDEX ==> Capacity(idx) < Capacity(idx + 1)
  {
  }

  /** Below capacity, a search cannot have found every bucket live. */
  lemma RoomMeansFree(s: seq<Slot>, idx: nat, i: int)
    requires NumLive(s) < Capacity(idx) && |s| == NumBuckets(idx)
    requires i < 0 ==> AllLive(s)
    ensures 0 <= i
  {
    SizesFit(idx);
    var j := FreeSlot(s);
  }

  lemma UsedIsSmall(idx: nat)
    ensures Capacity(idx) <= Capacity(MAX_INDEX) && (MAX_INDEX < idx ==> Capacity(idx) == 0)
  {
  }
}
