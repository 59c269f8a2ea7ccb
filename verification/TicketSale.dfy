/** Sellers on concurrent queues sharing a stock of tickets, with and without a semaphore around each sale.
    A run is any interleaving of the sellers' single steps. */
module TicketSale {

  /** Where a seller is in its loop. `Selling` holds the stock it has read. */
  datatype Seller = Waiting | Testing | Reading | Selling(read: int) | Signalling | Leaving | Done

  /** `sold` lists the stock left after each sale, in the order of the sales. */
  datatype State = State(semaphore: int, tickets: int, sold: seq<int>, sellers: seq<Seller>)

  function Start(stock: nat, n: nat): State {
    State(1, stock, [], seq(n, _ => Waiting))
  }

  /** Waiting is the only step that can be held up. */
  predicate Enabled(s: State, i: nat) {
    i < |s.sellers| && s.sellers[i] != Done && (s.sellers[i] == Waiting ==> 0 < s.semaphore)
  }

  function Step(s: State, i: nat): State
    requires Enabled(s, i)
  {
    match s.sellers[i]
    case Waiting => s.(semaphore := s.semaphore - 1, sellers := s.sellers[i := Testing])
    case Testing => s.(sellers := s.sellers[i := if 0 < s.tickets then Reading else Leaving])
    case Reading => s.(sellers := s.sellers[i := Selling(s.tickets)])
    case Selling(read) =>
      s.(tickets := read - 1, sold := s.sold + [read - 1], sellers := s.sellers[i := Signalling])
    case Signalling => s.(semaphore := s.semaphore + 1, sellers := s.sellers[i := Waiting])
    case Leaving => s.(semaphore := s.semaphore + 1, sellers := s.sellers[i := Done])
  }

  /** A schedule names the seller that moves at each step. */
  predicate Possible(s: State, schedule: seq<nat>)
    decreases |schedule|, 0
  {
    schedule == [] ||
    (Possible(s, schedule[..|schedule| - 1]) && Enabled(After(s, schedule[..|schedule| - 1]), schedule[|schedule| - 1]))
  }

  function After(s: State, schedule: seq<nat>): State
    requires Possible(s, schedule)
    decreases |schedule|, 1
  {
    if schedule == [] then s
    else Step(After(s, schedule[..|schedule| - 1]), schedule[|schedule| - 1])
  }

  // ---------- What every reachable state satisfies ----------

  /** Between wait and signal. */
  predicate Inside(x: Seller) {
    x != Waiting && x != Done
  }

  predicate Exclusive(sellers: seq<Seller>) {
    forall i, j :: 0 <= i < j < |sellers| ==> !(Inside(sellers[i]) && Inside(sellers[j]))
  }

  /** A stock is only ever counted down by one: no ticket is sold twice, none is left out. */
  predicate CountsDown(stock: nat, tickets: int, sold: seq<int>) {
    && 0 <= tickets && tickets + |sold| == stock
    && forall k :: 0 <= k < |sold| ==> sold[k] == stock - 1 - k
  }

  /** What the seller's place says about the stock. */
  predicate Informed(x: Seller, tickets: int) {
    match x
    case Reading => 0 < tickets
    case Selling(read) => 0 < read == tickets
    case Leaving => tickets == 0
    case Done => tickets == 0
    case _ => true
  }

  predicate Safe(stock: nat, s: State) {
    && CountsDown(stock, s.tickets, s.sold) && Exclusive(s.sellers)
    && (s.semaphore == 1 || s.semaphore == 0)
    && (s.semaphore == 0 <==> exists i :: 0 <= i < |s.sellers| && Inside(s.sellers[i]))
    && forall i :: 0 <= i < |s.sellers| ==> Informed(s.sellers[i], s.tickets)
  }

  lemma StepIsSafe(stock: nat, s: State, i: nat)
    requires Safe(stock, s) && Enabled(s, i)
    ensures Safe(stock, Step(s, i))
  {
    var t := Step(s, i);
    if s.sellers[i] == Waiting {
      assert forall j :: 0 <= j < |s.sellers| ==> !Inside(s.sellers[j]);
      assert Inside(t.sellers[i]);
    } else {
      assert Inside(s.sellers[i]);
      forall j | 0 <= j < |s.sellers| && j != i ensures !Inside(s.sellers[j]) {
        assert !(Inside(s.sellers[if i < j then i else j]) && Inside(s.sellers[if i < j then j else i]));
      }
      assert Inside(t.sellers[i]) || t.semaphore == 1;
    }
  }

  /** Mutual exclusion, conservation of tickets and the rest, in every interleaving. */
  lemma {:induction false} AlwaysSafe(stock: nat, n: nat, schedule: seq<nat>)
    requires Possible(Start(stock, n), schedule)
    ensures Safe(stock, After(Start(stock, n), schedule))
    ensures |After(Start(stock, n), schedule).sellers| == n
  {
    if schedule != [] {
      var m := |schedule| - 1;
      AlwaysSafe(stock, n, schedule[..m]);
      StepIsSafe(stock, After(Start(stock, n), schedule[..m]), schedule[m]);
    }
  }

  /** The sellers cannot block one another for good. */
  lemma NeverStuck(stock: nat, s: State, i: nat)
    requires Safe(stock, s) && i < |s.sellers| && s.sellers[i] != Done
    ensures exists j :: Enabled(s, j)
  {
    if s.semaphore == 1 {
      assert Enabled(s, i);
    } else {
      var j :| 0 <= j < |s.sellers| && Inside(s.sellers[j]);
      assert Enabled(s, j);
    }
  }

  // ---------- How long a run takes ----------

  /** Steps a seller has left, apart from those of sales not yet made. */
  function StepsLeft(x: Seller): nat {
    match x
    case Waiting => 3
    case Testing => 2
    case Reading => 1
    case Selling(_) => 0
    case Signalling => 4
    case Leaving => 1
    case Done => 0
  }

  function AllStepsLeft(sellers: seq<Seller>): nat {
    if sellers == [] then 0
    else AllStepsLeft(sellers[..|sellers| - 1]) + StepsLeft(sellers[|sellers| - 1])
  }

  lemma {:induction false} AllStepsLeftUpdate(sellers: seq<Seller>, i: nat, x: Seller)
    requires i < |sellers|
    ensures AllStepsLeft(sellers[i := x]) + StepsLeft(sellers[i]) == AllStepsLeft(sellers) + StepsLeft(x)
  {
    var n := |sellers| - 1;
    if i == n {
      assert sellers[i := x][..n] == sellers[..n];
    } else {
      assert sellers[i := x][..n] == sellers[..n][i := x];
      AllStepsLeftUpdate(sellers[..n], i, x);
    }
  }

  lemma {:induction false} AllWaiting(n: nat)
    ensures AllStepsLeft(seq(n, _ => Waiting)) == 3 * n
  {
    if n > 0 {
      assert seq(n, _ => Waiting)[..n - 1] == seq(n - 1, _ => Waiting);
      AllWaiting(n - 1);
    }
  }

  lemma {:induction false} AllDone(sellers: seq<Seller>)
    requires forall i :: 0 <= i < |sellers| ==> sellers[i] == Done
    ensures AllStepsLeft(sellers) == 0
  {
    if sellers != [] { AllDone(sellers[..|sellers| - 1]); }
  }

  /** Every step brings the end one step nearer: a sale takes five steps, leaving takes three. So a run
      of the given stock and sellers never takes more than the steps this accounts for. */
  lemma {:induction false} RunsAreFinite(stock: nat, n: nat, schedule: seq<nat>)
    requires Possible(Start(stock, n), schedule)
    ensures var s := After(Start(stock, n), schedule);
      |schedule| + 5 * s.tickets + AllStepsLeft(s.sellers) == 5 * stock + 3 * n
    ensures |schedule| <= 5 * stock + 3 * n
  {
    AlwaysSafe(stock, n, schedule);
    if schedule == [] {
      AllWaiting(n);
    } else {
      var m := |schedule| - 1;
      RunsAreFinite(stock, n, schedule[..m]);
      AlwaysSafe(stock, n, schedule[..m]);
      var s, i := After(Start(stock, n), schedule[..m]), schedule[m];
      AllStepsLeftUpdate(s.sellers, i, Step(s, i).sellers[i]);
    }
  }

  /** A run that nobody can continue has sold everything, in one fixed number of steps, and leaves the
      semaphore free. */
  lemma FinishedRuns(stock: nat, n: nat, schedule: seq<nat>)
    requires 0 < n && Possible(Start(stock, n), schedule)
    ensures var s := After(Start(stock, n), schedule);
      (forall i :: !Enabled(s, i)) <==> |schedule| == 5 * stock + 3 * n
    ensures var s := After(Start(stock, n), schedule);
      |schedule| == 5 * stock + 3 * n ==>
        s.tickets == 0 && s.semaphore == 1 && s.sold == seq(stock, k => stock - 1 - k)
        && |s.sellers| == n && forall i :: 0 <= i < n ==> s.sellers[i] == Done
  {
    var s := After(Start(stock, n), schedule);
    AlwaysSafe(stock, n, schedule);
    RunsAreFinite(stock, n, schedule);
    if forall i :: !Enabled(s, i) {
      forall i | 0 <= i < n ensures s.sellers[i] == Done {
        if s.sellers[i] != Done { NeverStuck(stock, s, i); }
      }
      assert s.sellers[0] == Done;
      AllDone(s.sellers);
    }
    if |schedule| == 5 * stock + 3 * n {
      NoStepsLeft(s);
      assert forall i :: 0 <= i < n ==> s.sellers[i] == Done;
      assert s.sold == seq(stock, k => stock - 1 - k);
    }
  }

  lemma NoStepsLeft(s: State)
    requires s.tickets == 0 && AllStepsLeft(s.sellers) == 0
    requires forall i :: 0 <= i < |s.sellers| ==> Informed(s.sellers[i], s.tickets)
    ensures forall i :: 0 <= i < |s.sellers| ==> s.sellers[i] == Done
  {
    forall i | 0 <= i < |s.sellers| ensures s.sellers[i] == Done {
      EachStepsLeft(s.sellers, i);
    }
  }

  lemma {:induction false} EachStepsLeft(sellers: seq<Seller>, i: nat)
    requires i < |sellers|
    ensures StepsLeft(sellers[i]) <= AllStepsLeft(sellers)
  {
    if i < |sellers| - 1 { EachStepsLeft(sellers[..|sellers| - 1], i); }
  }

  // ---------- Without the semaphore ----------

  /** The unguarded loop tests, reads and sells, or stops. */
  function StartUnguarded(stock: nat, n: nat): State {
    State(1, stock, [], seq(n, _ => Testing))
  }

  predicate EnabledUnguarded(s: State, i: nat) {
    i < |s.sellers| && (s.sellers[i].Testing? || s.sellers[i].Reading? || s.sellers[i].Selling?)
  }

  function StepUnguarded(s: State, i: nat): State
    requires EnabledUnguarded(s, i)
  {
    match s.sellers[i]
    case Testing => s.(sellers := s.sellers[i := if 0 < s.tickets then Reading else Done])
    case Reading => s.(sellers := s.sellers[i := Selling(s.tickets)])
    case Selling(read) =>
      s.(tickets := read - 1, sold := s.sold + [read - 1], sellers := s.sellers[i := Testing])
  }

  predicate PossibleUnguarded(s: State, schedule: seq<nat>)
    decreases |schedule|, 0
  {
    schedule == [] ||
    (PossibleUnguarded(s, schedule[..|schedule| - 1]) &&
     EnabledUnguarded(AfterUnguarded(s, schedule[..|schedule| - 1]), schedule[|schedule| - 1]))
  }

  function AfterUnguarded(s: State, schedule: seq<nat>): State
    requires PossibleUnguarded(s, schedule)
    decreases |schedule|, 1
  {
    if schedule == [] then s
    else StepUnguarded(AfterUnguarded(s, schedule[..|schedule| - 1]), schedule[|schedule| - 1])
  }

  /** What a run without the semaphore has done to the stock. */
  ghost predicate SellsRightly(stock: nat, n: nat, schedule: seq<nat>) {
    PossibleUnguarded(StartUnguarded(stock, n), schedule) ==>
      var s := AfterUnguarded(StartUnguarded(stock, n), schedule);
      CountsDown(stock, s.tickets, s.sold)
  }

  /** One step more of the first two sellers, and what it does to them. */
  lemma Then(s: State, schedule: seq<nat>, t: State, i: nat, longer: seq<nat>) returns (u: State)
    requires PossibleUnguarded(s, schedule) && AfterUnguarded(s, schedule) == t && longer == schedule + [i]
    requires i < 2 <= |t.sellers| && EnabledUnguarded(t, i)
    ensures PossibleUnguarded(s, longer) && AfterUnguarded(s, longer) == u
    ensures |u.sellers| == |t.sellers| && u.sellers[1 - i] == t.sellers[1 - i]
    ensures match t.sellers[i]
      case Testing =>
        u.sellers[i] == (if 0 < t.tickets then Reading else Done) && u.tickets == t.tickets && u.sold == t.sold
      case Reading => u.sellers[i] == Selling(t.tickets) && u.tickets == t.tickets && u.sold == t.sold
      case Selling(read) => u.sellers[i] == Testing && u.tickets == read - 1 && u.sold == t.sold + [read - 1]
  {
    assert longer[..|schedule|] == schedule;
    u := StepUnguarded(t, i);
  }

  lemma NothingYet(s: State)
    ensures PossibleUnguarded(s, []) && AfterUnguarded(s, []) == s
  {
  }

  /** Two sellers both read the stock before either sells: the same ticket goes twice. */
  lemma SameTicketTwice(stock: nat, n: nat)
    requires 0 < stock && 2 <= n
    ensures PossibleUnguarded(StartUnguarded(stock, n), [0, 1, 0, 1, 0, 1])
    ensures var s := AfterUnguarded(StartUnguarded(stock, n), [0, 1, 0, 1, 0, 1]);
      s.sold == [stock - 1, stock - 1] && s.tickets == stock - 1
  {
    hide PossibleUnguarded, AfterUnguarded, StepUnguarded;
    var s := StartUnguarded(stock, n);
    NothingYet(s);
    var s1 := Then(s, [], s, 0, [0]);
    var s2 := Then(s, [0], s1, 1, [0, 1]);
    var s3 := Then(s, [0, 1], s2, 0, [0, 1, 0]);
    var s4 := Then(s, [0, 1, 0], s3, 1, [0, 1, 0, 1]);
    var s5 := Then(s, [0, 1, 0, 1], s4, 0, [0, 1, 0, 1, 0]);
    var _ := Then(s, [0, 1, 0, 1, 0], s5, 1, [0, 1, 0, 1, 0, 1]);
  }

  lemma {:induction false} AloneIsRight(stock: nat, n: nat, schedule: seq<nat>)
    requires (n <= 1 || stock == 0) && PossibleUnguarded(StartUnguarded(stock, n), schedule)
    ensures var s := AfterUnguarded(StartUnguarded(stock, n), schedule);
      && CountsDown(stock, s.tickets, s.sold) && |s.sellers| == n
      && forall i :: 0 <= i < n ==>
           (s.sellers[i].Reading? ==> 0 < s.tickets) && (s.sellers[i].Selling? ==> 0 < s.sellers[i].read == s.tickets)
  {
    if schedule != [] { AloneIsRight(stock, n, schedule[..|schedule| - 1]); }
  }

  /** The unguarded loop is right in every run exactly if there is one seller at most, or nothing to sell. */
  lemma UnguardedIsRight(stock: nat, n: nat)
    ensures (forall schedule :: SellsRightly(stock, n, schedule)) <==> n <= 1 || stock == 0
  {
    if n <= 1 || stock == 0 {
      forall schedule ensures SellsRightly(stock, n, schedule) {
        if PossibleUnguarded(StartUnguarded(stock, n), schedule) { AloneIsRight(stock, n, schedule); }
      }
    } else {
      SameTicketTwice(stock, n);
      assert !SellsRightly(stock, n, [0, 1, 0, 1, 0, 1]);
    }
  }

  /** The last ticket can be sold twice over, leaving a negative stock. */
  lemma BelowZero(n: nat)
    requires 2 <= n
    ensures PossibleUnguarded(StartUnguarded(1, n), [0, 1, 0, 0, 1, 1])
    ensures AfterUnguarded(StartUnguarded(1, n), [0, 1, 0, 0, 1, 1]).tickets == -1
  {
    hide PossibleUnguarded, AfterUnguarded, StepUnguarded;
    var s := StartUnguarded(1, n);
    NothingYet(s);
    var s1 := Then(s, [], s, 0, [0]);
    var s2 := Then(s, [0], s1, 1, [0, 1]);
    var s3 := Then(s, [0, 1], s2, 0, [0, 1, 0]);
    var s4 := Then(s, [0, 1, 0], s3, 0, [0, 1, 0, 0]);
    var s5 := Then(s, [0, 1, 0, 0], s4, 1, [0, 1, 0, 0, 1]);
    var _ := Then(s, [0, 1, 0, 0, 1], s5, 1, [0, 1, 0, 0, 1, 1]);
  }
}
