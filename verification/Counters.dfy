/** The counter macros of my_pthread.h under arbitrary interleavings.

    An update `V += d` is a load and a store. thread_safe_increment, _decrement,
    _add and _sub wrap the two in a mutex (deltas 1, -1, C and -C);
    statistic_* without SAFE_STATISTICS leaves them bare. A thread is the list of
    updates it still has to do; a schedule says which thread moves next. The
    counter is a word that wraps at `modulus`. */
module Counters {
  import opened Bits
  import opened Wrappers

  datatype Pc = Idle | Locked | Loaded(temp: nat) | Stored

  datatype Thread = Thread(pc: Pc, todo: seq<int>)

  datatype System = System(v: nat, holder: Option<nat>, threads: seq<Thread>)

  /** One step of thread t inside the lock-protected macro. A thread that finds
      the mutex taken stays where it is. */
  function LockedStep(modulus: nat, s: System, t: nat): System
    requires 0 < modulus
  {
    if t >= |s.threads| || s.threads[t].todo == [] then s else
      var th := s.threads[t];
      match th.pc
      case Idle =>
        if s.holder != None then s
        else s.(holder := Some(t), threads := s.threads[t := th.(pc := Locked)])
      case Locked =>
        s.(threads := s.threads[t := th.(pc := Loaded(s.v))])
      case Loaded(temp) =>
        s.(v := (temp + th.todo[0]) % modulus, threads := s.threads[t := th.(pc := Stored)])
      case Stored =>
        s.(holder := None, threads := s.threads[t := Thread(Idle, th.todo[1..])])
  }

  /** One step of thread t in the bare macro. */
  function BareStep(modulus: nat, s: System, t: nat): System
    requires 0 < modulus
  {
    if t >= |s.threads| || s.threads[t].todo == [] then s else
      var th := s.threads[t];
      match th.pc
      case Loaded(temp) =>
        s.(v := (temp + th.todo[0]) % modulus, threads := s.threads[t := Thread(Idle, th.todo[1..])])
      case _ =>
        s.(threads := s.threads[t := th.(pc := Loaded(s.v))])
  }

  function LockedRun(modulus: nat, s: System, schedule: seq<nat>): System
    requires 0 < modulus
  {
    if schedule == [] then s
    else LockedStep(modulus, LockedRun(modulus, s, schedule[..|schedule| - 1]), schedule[|schedule| - 1])
  }

  ghost predicate Initial(modulus: nat, s: System) {
    s.v < modulus && s.holder == None && forall t :: 0 <= t < |s.threads| ==> s.threads[t].pc == Idle
  }

  ghost predicate Quiescent(s: System) {
    forall t :: 0 <= t < |s.threads| ==> s.threads[t].todo == []
  }

  function Sum(xs: seq<int>): int {
    if xs == [] then 0 else xs[0] + Sum(xs[1..])
  }

  /** The deltas a thread has yet to bring into the counter. */
  function Owed(th: Thread): int {
    if th.pc == Stored && th.todo != [] then Sum(th.todo[1..]) else Sum(th.todo)
  }

  function AllOwed(ts: seq<Thread>): int {
    if ts == [] then 0 else Owed(ts[0]) + AllOwed(ts[1..])
  }

  lemma {:induction false} OwedAfter(ts: seq<Thread>, t: nat, th: Thread)
    requires t < |ts|
    ensures AllOwed(ts[t := th]) == AllOwed(ts) - Owed(ts[t]) + Owed(th)
  {
    if t > 0 {
      OwedAfter(ts[1..], t - 1, th);
      assert ts[t := th][1..] == ts[1..][t - 1 := th];
    }
  }

  lemma {:induction false} NothingOwed(ts: seq<Thread>)
    requires forall t :: 0 <= t < |ts| ==> ts[t].todo == []
    ensures AllOwed(ts) == 0
  {
    if ts != [] { NothingOwed(ts[1..]); }
  }

  // ---- with the lock: no update is lost ----

  /** Only the holder of the mutex is inside the macro, and what it has loaded is
      still the value of the counter. */
  ghost predicate Exclusive(modulus: nat, s: System) {
    && s.v < modulus
    && (s.holder.Some? ==> s.holder.value < |s.threads| && s.threads[s.holder.value].pc != Idle)
    && (forall t :: 0 <= t < |s.threads| && s.threads[t].pc != Idle ==> s.holder == Some(t))
    && (forall t :: 0 <= t < |s.threads| && s.threads[t].pc != Idle ==> s.threads[t].todo != [])
    && (forall t :: 0 <= t < |s.threads| && s.threads[t].pc.Loaded? ==> s.threads[t].pc.temp == s.v)
  }

  ghost predicate SameModulo(modulus: nat, x: int, y: int)
    requires 0 < modulus
  {
    x % modulus == y % modulus
  }

  lemma ModShift(modulus: nat, x: int, y: int)
    requires 0 < modulus
    ensures (x % modulus + y) % modulus == (x + y) % modulus
  {
    var q, r := DivMod(x, modulus);
    var p, s := DivMod(r + y, modulus);
    assert (q + p) * modulus == q * modulus + p * modulus;
    ModUnique(x + y, modulus, q + p, s);
  }

  lemma LockedStepExclusive(modulus: nat, s: System, t: nat)
    requires 0 < modulus && Exclusive(modulus, s)
    ensures var n := LockedStep(modulus, s, t); Exclusive(modulus, n) && |n.threads| == |s.threads|
  {}

  lemma LockedStepConserves(modulus: nat, s: System, t: nat)
    requires 0 < modulus && Exclusive(modulus, s)
    ensures var n := LockedStep(modulus, s, t);
      SameModulo(modulus, n.v + AllOwed(n.threads), s.v + AllOwed(s.threads))
  {
    var n := LockedStep(modulus, s, t);
    if n != s {
      OwedByStep(modulus, s, t);
      // The store moves the delta from what is owed into the counter.
      if s.threads[t].pc.Loaded? { ModShift(modulus, s.v + s.threads[t].todo[0], AllOwed(n.threads)); }
    }
  }

  lemma OwedByStep(modulus: nat, s: System, t: nat)
    requires 0 < modulus && t < |s.threads| && s.threads[t].todo != []
    ensures var n, th := LockedStep(modulus, s, t), s.threads[t];
      AllOwed(n.threads) == AllOwed(s.threads) - (if th.pc.Loaded? then th.todo[0] else 0)
  {
    var n := LockedStep(modulus, s, t);
    OwedAfter(s.threads, t, n.threads[t]);
    if n != s { assert n.threads == s.threads[t := n.threads[t]]; }
  }

  /** For every schedule, the counter and the deltas still owed add up to the
      start value and all deltas; when every thread is done the counter has
      received them all. */
  lemma {:induction false} LockedLosesNothing(modulus: nat, s: System, schedule: seq<nat>)
    requires 0 < modulus && Initial(modulus, s)
    ensures var n := LockedRun(modulus, s, schedule);
      && Exclusive(modulus, n) && |n.threads| == |s.threads|
      && SameModulo(modulus, n.v + AllOwed(n.threads), s.v + AllOwed(s.threads))
      && (Quiescent(n) ==> n.v == (s.v + AllOwed(s.threads)) % modulus)
  {
    if schedule != [] {
      var front := schedule[..|schedule| - 1];
      LockedLosesNothing(modulus, s, front);
      LockedStepExclusive(modulus, LockedRun(modulus, s, front), schedule[|schedule| - 1]);
      LockedStepConserves(modulus, LockedRun(modulus, s, front), schedule[|schedule| - 1]);
    }
    LockedEnd(modulus, LockedRun(modulus, s, schedule), s.v + AllOwed(s.threads));
  }

  lemma LockedEnd(modulus: nat, n: System, total: int)
    requires 0 < modulus && n.v < modulus && SameModulo(modulus, n.v + AllOwed(n.threads), total)
    ensures Quiescent(n) ==> n.v == total % modulus
  {
    if Quiescent(n) {
      NothingOwed(n.threads);
      SmallMod(n.v, modulus);
    }
  }

  /** Steps a thread has left: four for each update. */
  function StepsLeft(th: Thread): nat {
    if th.todo == [] then 0
    else 4 * |th.todo| - (match th.pc case Idle => 0 case Locked => 1 case Loaded(_) => 2 case Stored => 3)
  }

  function AllStepsLeft(ts: seq<Thread>): nat {
    if ts == [] then 0 else StepsLeft(ts[0]) + AllStepsLeft(ts[1..])
  }

  lemma {:induction false} StepsLeftAfter(ts: seq<Thread>, t: nat, th: Thread)
    requires t < |ts|
    ensures AllStepsLeft(ts[t := th]) == AllStepsLeft(ts) - StepsLeft(ts[t]) + StepsLeft(th)
  {
    if t > 0 {
      StepsLeftAfter(ts[1..], t - 1, th);
      assert ts[t := th][1..] == ts[1..][t - 1 := th];
    }
  }

  /** A thread that moves uses up one step, and unless all are done some thread
      can move: no schedule of moves goes on for ever, and none gets stuck early. */
  lemma LockedProgress(modulus: nat, s: System) returns (t: nat)
    requires 0 < modulus && Exclusive(modulus, s) && !Quiescent(s)
    ensures t < |s.threads| && LockedStep(modulus, s, t) != s
    ensures forall u: nat | LockedStep(modulus, s, u) != s ::
              AllStepsLeft(LockedStep(modulus, s, u).threads) == AllStepsLeft(s.threads) - 1
  {
    if s.holder.Some? {
      t := s.holder.value;
    } else {
      t :| t < |s.threads| && s.threads[t].todo != [];
      assert s.threads[t].pc == Idle;
    }
    assert LockedStep(modulus, s, t).threads[t] != s.threads[t];
    forall u: nat | LockedStep(modulus, s, u) != s
      ensures AllStepsLeft(LockedStep(modulus, s, u).threads) == AllStepsLeft(s.threads) - 1
    {
      StepsLeftAfter(s.threads, u, LockedStep(modulus, s, u).threads[u]);
      assert LockedStep(modulus, s, u).threads == s.threads[u := LockedStep(modulus, s, u).threads[u]];
    }
  }

  // ---- without the lock: what is lost, and when ----

  /** The bare system with an observer. `missed` says for each thread how much of
      what has been stored is missing from the value it has loaded, `lost` how much
      is missing from the counter. `stale` is the set of threads that hold a value
      loaded before some other thread's store; `interfered` says whether such a
      thread has ever stored. */
  datatype Watched = Watched(s: System, missed: seq<int>, lost: int, stale: set<nat>, interfered: bool)

  ghost function WatchedStep(modulus: nat, w: Watched, t: nat): Watched
    requires 0 < modulus && |w.missed| == |w.s.threads|
  {
    var n := BareStep(modulus, w.s, t);
    if t >= |w.s.threads| || w.s.threads[t].todo == [] then w
    else if w.s.threads[t].pc.Loaded? then
      Watched(n, AddToAll(w.missed, w.s.threads[t].todo[0]), w.missed[t],
              (set u | 0 <= u < |n.threads| && n.threads[u].pc.Loaded?), w.interfered || t in w.stale)
    else w.(s := n, missed := w.missed[t := w.lost], stale := w.stale - {t})
  }

  function AddToAll(xs: seq<int>, d: int): (ys: seq<int>)
    ensures |ys| == |xs| && forall i :: 0 <= i < |xs| ==> ys[i] == xs[i] + d
  {
    seq(|xs|, i requires 0 <= i < |xs| => xs[i] + d)
  }

  ghost function WatchedRun(modulus: nat, s: System, schedule: seq<nat>): (w: Watched)
    requires 0 < modulus
    ensures |w.missed| == |w.s.threads| == |s.threads|
  {
    if schedule == [] then Watched(s, seq(|s.threads|, _ => 0), 0, {}, false)
    else WatchedStep(modulus, WatchedRun(modulus, s, schedule[..|schedule| - 1]), schedule[|schedule| - 1])
  }

  /** The observer only looks on. */
  lemma {:induction false} WatchedIsBare(modulus: nat, s: System, schedule: seq<nat>)
    requires 0 < modulus
    ensures WatchedRun(modulus, s, schedule).s == BareRun(modulus, s, schedule)
  {
    if schedule != [] { WatchedIsBare(modulus, s, schedule[..|schedule| - 1]); }
  }

  function BareRun(modulus: nat, s: System, schedule: seq<nat>): System
    requires 0 < modulus
  {
    if schedule == [] then s
    else BareStep(modulus, BareRun(modulus, s, schedule[..|schedule| - 1]), schedule[|schedule| - 1])
  }

  /** x, counted in the direction of the updates. */
  function Ahead(up: bool, x: int): int {
    if up then x else -x
  }

  /** No update to come goes in the other direction. */
  ghost predicate OneWay(up: bool, s: System) {
    forall t, i :: 0 <= t < |s.threads| && 0 <= i < |s.threads[t].todo| ==> 0 <= Ahead(up, s.threads[t].todo[i])
  }

  /** Every update to come changes the counter. */
  ghost predicate NoZero(s: System) {
    forall t, i :: 0 <= t < |s.threads| && 0 <= i < |s.threads[t].todo| ==> s.threads[t].todo[i] != 0
  }

  /** Where the observer's books stand when total is the start value and all deltas:
      counter and loaded values are what has been stored less what they miss, and
      nothing can be missing where no store has interfered. */
  ghost predicate Accounted(modulus: nat, total: int, w: Watched)
    requires 0 < modulus
  {
    var stored := total - AllOwed(w.s.threads);
    && |w.missed| == |w.s.threads| && w.s.v < modulus
    && (forall t :: 0 <= t < |w.s.threads| ==> w.s.threads[t].pc == Idle || w.s.threads[t].pc.Loaded?)
    && SameModulo(modulus, w.s.v, stored - w.lost)
    && (!w.interfered ==> w.lost == 0)
    && (forall t :: 0 <= t < |w.s.threads| && w.s.threads[t].pc.Loaded? ==>
         && SameModulo(modulus, w.s.threads[t].pc.temp, stored - w.missed[t])
         && (!w.interfered && t !in w.stale ==> w.missed[t] == 0))
  }

  lemma StoreKeepsAccount(modulus: nat, temp: nat, d: int, stored: int, missed: int)
    requires 0 < modulus && SameModulo(modulus, temp, stored - missed)
    ensures (temp + d) % modulus < modulus
    ensures SameModulo(modulus, (temp + d) % modulus, stored + d - missed)
  {
    ModShift(modulus, temp, d);
    ModShift(modulus, stored - missed, d);
    ModShift(modulus, temp + d, 0);
  }

  lemma WatchedStepKeeps(modulus: nat, total: int, w: Watched, t: nat)
    requires 0 < modulus && Accounted(modulus, total, w)
    ensures Accounted(modulus, total, WatchedStep(modulus, w, t))
  {
    if t < |w.s.threads| && w.s.threads[t].todo != [] {
      var n, th := WatchedStep(modulus, w, t), w.s.threads[t];
      OwedAfter(w.s.threads, t, n.s.threads[t]);
      if th.pc.Loaded? {
        StoreKeepsAccount(modulus, th.pc.temp, th.todo[0], total - AllOwed(w.s.threads), w.missed[t]);
      }
    }
  }

  /** What is missing lies between nothing and all that was stored since the start. */
  ghost predicate Bounded(up: bool, start: int, total: int, w: Watched) {
    var added := Ahead(up, total - AllOwed(w.s.threads) - start);
    && |w.missed| == |w.s.threads|
    && 0 <= Ahead(up, w.lost) <= added
    && (forall t :: 0 <= t < |w.s.threads| && w.s.threads[t].pc.Loaded? ==> 0 <= Ahead(up, w.missed[t]) <= added)
  }

  /** It is nothing exactly where no store has interfered. */
  ghost predicate Telling(w: Watched) {
    && |w.missed| == |w.s.threads|
    && (w.lost == 0 <==> !w.interfered)
    && (forall t :: 0 <= t < |w.s.threads| && w.s.threads[t].pc.Loaded? ==>
         (w.missed[t] == 0 <==> t !in w.stale && !w.interfered))
  }

  lemma DirectionKept(modulus: nat, up: bool, s: System, t: nat)
    requires 0 < modulus && OneWay(up, s)
    ensures OneWay(up, BareStep(modulus, s, t))
    ensures NoZero(s) ==> NoZero(BareStep(modulus, s, t))
  {}

  lemma StepKeepsBounded(modulus: nat, up: bool, start: int, total: int, w: Watched, t: nat)
    requires 0 < modulus && Bounded(up, start, total, w)
    requires t < |w.s.threads| && w.s.threads[t].todo != [] ==>
               0 <= Ahead(up, w.s.threads[t].todo[0]) && w.s.threads[t].pc != Stored
    ensures Bounded(up, start, total, WatchedStep(modulus, w, t))
  {
    if t < |w.s.threads| && w.s.threads[t].todo != [] {
      var n, th := WatchedStep(modulus, w, t), w.s.threads[t];
      OwedAfter(w.s.threads, t, n.s.threads[t]);
      assert AllOwed(n.s.threads) == AllOwed(w.s.threads) - (if th.pc.Loaded? then th.todo[0] else 0);
    }
  }

  lemma StepKeepsTelling(modulus: nat, up: bool, start: int, total: int, w: Watched, t: nat)
    requires 0 < modulus && Bounded(up, start, total, w) && Telling(w)
    requires t < |w.s.threads| && w.s.threads[t].todo != [] ==> 0 < Ahead(up, w.s.threads[t].todo[0])
    ensures Telling(WatchedStep(modulus, w, t))
  {}

  lemma {:induction false} AccountedRun(modulus: nat, s: System, schedule: seq<nat>)
    requires 0 < modulus && Initial(modulus, s)
    ensures Accounted(modulus, s.v + AllOwed(s.threads), WatchedRun(modulus, s, schedule))
  {
    if schedule != [] {
      var front := schedule[..|schedule| - 1];
      AccountedRun(modulus, s, front);
      WatchedStepKeeps(modulus, s.v + AllOwed(s.threads), WatchedRun(modulus, s, front), schedule[|schedule| - 1]);
    }
  }

  lemma AccountEnd(modulus: nat, total: int, w: Watched)
    requires 0 < modulus && Accounted(modulus, total, w)
    ensures w.s.v == (total - AllOwed(w.s.threads) - w.lost) % modulus
    ensures Quiescent(w.s) ==> w.s.v == (total - w.lost) % modulus
  {
    SmallMod(w.s.v, modulus);
    if Quiescent(w.s) { NothingOwed(w.s.threads); }
  }

  /** For every schedule of bare updates, wrapping or not: the counter is what has
      been stored less what was lost, modulo the word size, and nothing is lost
      unless some thread stores a value that it had loaded before another thread's
      store. */
  lemma BareAccount(modulus: nat, s: System, schedule: seq<nat>)
    requires 0 < modulus && Initial(modulus, s)
    ensures var w, total := WatchedRun(modulus, s, schedule), s.v + AllOwed(s.threads);
      && w.s == BareRun(modulus, s, schedule)
      && w.s.v == (total - AllOwed(w.s.threads) - w.lost) % modulus
      && (!w.interfered ==> w.lost == 0)
      && (Quiescent(w.s) ==> w.s.v == (total - w.lost) % modulus)
  {
    WatchedIsBare(modulus, s, schedule);
    AccountedRun(modulus, s, schedule);
    AccountEnd(modulus, s.v + AllOwed(s.threads), WatchedRun(modulus, s, schedule));
  }

  lemma {:induction false} OneWayRun(modulus: nat, up: bool, s: System, schedule: seq<nat>)
    requires 0 < modulus && Initial(modulus, s) && OneWay(up, s)
    ensures var w := WatchedRun(modulus, s, schedule);
      && OneWay(up, w.s) && (NoZero(s) ==> NoZero(w.s))
      && Bounded(up, s.v, s.v + AllOwed(s.threads), w)
  {
    if schedule != [] {
      var front, t := schedule[..|schedule| - 1], schedule[|schedule| - 1];
      var w := WatchedRun(modulus, s, front);
      OneWayRun(modulus, up, s, front);
      AccountedRun(modulus, s, front);
      DirectionKept(modulus, up, w.s, t);
      StepKeepsBounded(modulus, up, s.v, s.v + AllOwed(s.threads), w, t);
    }
  }

  lemma {:induction false} TellingRun(modulus: nat, up: bool, s: System, schedule: seq<nat>)
    requires 0 < modulus && Initial(modulus, s) && OneWay(up, s) && NoZero(s)
    ensures Telling(WatchedRun(modulus, s, schedule))
  {
    if schedule != [] {
      var front := schedule[..|schedule| - 1];
      TellingRun(modulus, up, s, front);
      OneWayRun(modulus, up, s, front);
      StepKeepsTelling(modulus, up, s.v, s.v + AllOwed(s.threads), WatchedRun(modulus, s, front),
                       schedule[|schedule| - 1]);
    }
  }

  /** Bare updates in one direction, whatever the schedule and however often the
      word wraps: the counter is the start value and all deltas less some loss, and
      the loss is between nothing and all deltas. If every update changes the
      counter, the loss is nothing if and only if no thread stored a value loaded
      before another thread's store. */
  lemma BareNeverOverCounts(modulus: nat, up: bool, s: System, schedule: seq<nat>)
    requires 0 < modulus && Initial(modulus, s) && OneWay(up, s)
    ensures var w, total := WatchedRun(modulus, s, schedule), s.v + AllOwed(s.threads);
      && w.s == BareRun(modulus, s, schedule)
      && 0 <= Ahead(up, w.lost) <= Ahead(up, total - AllOwed(w.s.threads) - s.v)
      && (NoZero(s) ==> (w.lost == 0 <==> !w.interfered))
      && w.s.v == (total - AllOwed(w.s.threads) - w.lost) % modulus
      && (Quiescent(w.s) ==> w.s.v == (total - w.lost) % modulus)
  {
    BareAccount(modulus, s, schedule);
    OneWayRun(modulus, up, s, schedule);
    if NoZero(s) { TellingRun(modulus, up, s, schedule); }
  }

  /** When moreover the total does not leave the word, the counter ends between the
      start value and the total; if every update changes it, at the total if and
      only if no such store happened. */
  lemma BareEndsBetween(modulus: nat, up: bool, s: System, schedule: seq<nat>)
    requires 0 < modulus && Initial(modulus, s) && OneWay(up, s) && 0 <= s.v + AllOwed(s.threads) < modulus
    requires Quiescent(BareRun(modulus, s, schedule))
    ensures var v, total := BareRun(modulus, s, schedule).v, s.v + AllOwed(s.threads);
      && Ahead(up, s.v) <= Ahead(up, v) <= Ahead(up, total)
      && (NoZero(s) ==> (v == total <==> !WatchedRun(modulus, s, schedule).interfered))
  {
    var w, total := WatchedRun(modulus, s, schedule), s.v + AllOwed(s.threads);
    BareNeverOverCounts(modulus, up, s, schedule);
    NothingOwed(w.s.threads);
    SmallMod(total - w.lost, modulus);
  }

  /** Adding 0 can interfere without a loss: both threads load the counter, both
      store it back. */
  lemma ZeroDeltasHideInterference(v: nat)
    requires v < 0x1_0000_0000
    ensures var s := System(v, None, [Thread(Idle, [0]), Thread(Idle, [0])]);
      var w := WatchedRun(0x1_0000_0000, s, [0, 1, 0, 1]);
      OneWay(true, s) && Quiescent(w.s) && w.interfered && w.lost == 0 && w.s.v == v
  {
    var m := 0x1_0000_0000;
    var s0 := System(v, None, [Thread(Idle, [0]), Thread(Idle, [0])]);
    var w0 := WatchedRun(m, s0, []);
    assert [0, 1][..1] == [0] && [0, 1, 0][..2] == [0, 1] && [0, 1, 0, 1][..3] == [0, 1, 0] && [0][..0] == [];
    var w1 := WatchedRun(m, s0, [0]);
    assert w1 == WatchedStep(m, w0, 0);
    var w2 := WatchedRun(m, s0, [0, 1]);
    assert w2 == WatchedStep(m, w1, 1);
    assert w2.s.threads == [Thread(Loaded(v), [0]), Thread(Loaded(v), [0])] && w2.missed == [0, 0];
    assert WatchedRun(m, s0, [0, 1, 0]) == WatchedStep(m, w2, 0);
    StoreBackTwice(m, w2);
  }

  lemma StoreBackTwice(m: nat, w: Watched)
    requires w.s.v < m && w.s.threads == [Thread(Loaded(w.s.v), [0]), Thread(Loaded(w.s.v), [0])] && w.missed == [0, 0]
    ensures var n := WatchedStep(m, WatchedStep(m, w, 0), 1);
      Quiescent(n.s) && n.interfered && n.lost == 0 && n.s.v == w.s.v
  {
    var w1 := WatchedStep(m, w, 0);
    assert [0][1..] == [];
    SmallMod(w.s.v, m);
    assert w1.s.threads == [Thread(Idle, []), Thread(Loaded(w.s.v), [0])] && 1 in w1.stale && w1.missed[1] == 0;
  }

  /** Two threads, one increment each: both load 0, and one update is lost. */
  lemma BareCanLose()
    ensures var s := System(0, None, [Thread(Idle, [1]), Thread(Idle, [1])]);
      var w := WatchedRun(0x1_0000_0000, s, [0, 1, 0, 1]);
      Initial(0x1_0000_0000, s) && OneWay(true, s) && NoZero(s) && Quiescent(w.s) && w.s.v == 1 && w.interfered
  {
    var m := 0x1_0000_0000;
    var s0 := System(0, None, [Thread(Idle, [1]), Thread(Idle, [1])]);
    var w0 := WatchedRun(m, s0, []);
    var w1 := WatchedRun(m, s0, [0]);
    assert [0, 1][..1] == [0] && [0, 1, 0][..2] == [0, 1] && [0, 1, 0, 1][..3] == [0, 1, 0];
    assert w1 == WatchedStep(m, w0, 0);
    var w2 := WatchedRun(m, s0, [0, 1]);
    assert w2 == WatchedStep(m, w1, 1);
    assert w2.s.threads == [Thread(Loaded(0), [1]), Thread(Loaded(0), [1])];
    var w3 := WatchedRun(m, s0, [0, 1, 0]);
    assert w3 == WatchedStep(m, w2, 0);
    assert [1][1..] == [];
    assert w3.s.threads == [Thread(Idle, []), Thread(Loaded(0), [1])];
  }

  /** Updates in both directions can cancel their losses: a thread that adds 5 to a
      value loaded before another thread's +1 and a third one's -1 still leaves the
      exact total. So the if-and-only-if above needs one direction. */
  lemma MixedLossesCanCancel()
    ensures var s := System(0, None, [Thread(Idle, [5]), Thread(Idle, [1]), Thread(Idle, [-1])]);
      var w := WatchedRun(0x1_0000_0000, s, [0, 1, 1, 2, 2, 0]);
      Quiescent(w.s) && w.interfered && w.s.v == 5 == s.v + AllOwed(s.threads)
  {
    var m := 0x1_0000_0000;
    var s := System(0, None, [Thread(Idle, [5]), Thread(Idle, [1]), Thread(Idle, [-1])]);
    assert AllOwed(s.threads) == 5 by {
      assert Sum([5]) == 5 + Sum([5][1..]) && Sum([1]) == 1 + Sum([1][1..]) && Sum([-1]) == -1 + Sum([-1][1..]);
      assert s.threads[1..] == [Thread(Idle, [1]), Thread(Idle, [-1])];
      assert s.threads[1..][1..] == [Thread(Idle, [-1])];
      assert AllOwed(s.threads[1..][1..]) == -1 + AllOwed([]);
    }
    var w1 := WatchedRun(m, s, [0, 1, 1]);
    LoadBehindStore(m, s);
    var w2 := WatchedRun(m, s, [0, 1, 1, 2, 2]);
    assert w2 == WatchedStep(m, WatchedStep(m, w1, 2), 2) by {
      assert [0, 1, 1, 2, 2][..4] == [0, 1, 1, 2] && [0, 1, 1, 2][..3] == [0, 1, 1];
    }
    SecondStore(m, w1);
    assert [0, 1, 1, 2, 2, 0][..5] == [0, 1, 1, 2, 2];
    LastStore(m, w2);
  }

  lemma LoadBehindStore(m: nat, s: System)
    requires m == 0x1_0000_0000
    requires s == System(0, None, [Thread(Idle, [5]), Thread(Idle, [1]), Thread(Idle, [-1])])
    ensures var w := WatchedRun(m, s, [0, 1, 1]);
      w.s == System(1, None, [Thread(Loaded(0), [5]), Thread(Idle, []), Thread(Idle, [-1])]) && 0 in w.stale
  {
    assert [0, 1, 1][..2] == [0, 1] && [0, 1][..1] == [0] && [0][..0] == [] && [1][1..] == [];
    var w0 := WatchedRun(m, s, []);
    var w1 := WatchedStep(m, w0, 0);
    var w2 := WatchedStep(m, w1, 1);
    assert WatchedRun(m, s, [0]) == w1 && WatchedRun(m, s, [0, 1]) == w2;
    assert w2.s.threads == [Thread(Loaded(0), [5]), Thread(Loaded(0), [1]), Thread(Idle, [-1])];
    var w3 := WatchedStep(m, w2, 1);
    assert w3.s.threads == [Thread(Loaded(0), [5]), Thread(Idle, []), Thread(Idle, [-1])];
    assert WatchedRun(m, s, [0, 1, 1]) == w3;
  }

  lemma SecondStore(m: nat, w: Watched)
    requires m == 0x1_0000_0000 && |w.missed| == |w.s.threads| && 0 in w.stale
    requires w.s == System(1, None, [Thread(Loaded(0), [5]), Thread(Idle, []), Thread(Idle, [-1])])
    ensures var n := WatchedStep(m, WatchedStep(m, w, 2), 2);
      n.s == System(0, None, [Thread(Loaded(0), [5]), Thread(Idle, []), Thread(Idle, [])]) && 0 in n.stale
  {
    var w1 := WatchedStep(m, w, 2);
    assert [-1][1..] == [];
    assert w1.s.threads == [Thread(Loaded(0), [5]), Thread(Idle, []), Thread(Loaded(1), [-1])];
    var w2 := WatchedStep(m, w1, 2);
    assert w2.s.threads == [Thread(Loaded(0), [5]), Thread(Idle, []), Thread(Idle, [])];
  }

  lemma LastStore(m: nat, w: Watched)
    requires m == 0x1_0000_0000 && |w.missed| == |w.s.threads| && 0 in w.stale
    requires w.s == System(0, None, [Thread(Loaded(0), [5]), Thread(Idle, []), Thread(Idle, [])])
    ensures var n := WatchedStep(m, w, 0); Quiescent(n.s) && n.interfered && n.s.v == 5
  {
    assert [5][1..] == [];
    assert WatchedStep(m, w, 0).s.threads == [Thread(Idle, []), Thread(Idle, []), Thread(Idle, [])];
  }
}
