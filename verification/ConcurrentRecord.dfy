/**
 Any number of threads recording into one histogram.

 Each atomic access is one step, in any interleaving. A thread may load an old maximum, and a
 compare-exchange may fail for no reason; only a successful one is sure of the current maximum.
 */
module ConcurrentRecords {
  import opened Types
  import opened Bits
  import opened LatencyHistograms

  datatype Thread =
    | Idle
    | Counted(ns: u64)           // bucket incremented
    | Totalled(ns: u64)          // total incremented
    | Trying(ns: u64, cur: u64)  // in the compare-exchange loop, having seen cur

  datatype State = State(
    counts: seq<nat>,
    total: nat,
    max: u64,
    threads: seq<Thread>,
    started: seq<u64>,   // samples whose recording has begun
    finished: seq<u64>)  // samples whose recording has returned

  ghost predicate Start(s: State, n: nat) {
    s == State(seq(BUCKETS, _ => 0), 0, 0, seq(n, _ => Idle), [], [])
  }

  // ---------------------------------------------------------------- steps of thread t

  ghost predicate Count(s: State, t: nat, ns: u64, s': State) {
    && t < |s.threads| && s.threads[t] == Idle && |s.counts| == BUCKETS
    && s' == s.(counts := s.counts[BucketIndex(ns) := s.counts[BucketIndex(ns)] + 1],
                threads := s.threads[t := Counted(ns)], started := s.started + [ns])
  }

  ghost predicate AddTotal(s: State, t: nat, s': State) {
    && t < |s.threads| && s.threads[t].Counted?
    && s' == s.(total := s.total + 1, threads := s.threads[t := Totalled(s.threads[t].ns)])
  }

  /** The loaded maximum may be old, so it is at most the current one. */
  ghost predicate LoadMax(s: State, t: nat, seen: u64, s': State) {
    && t < |s.threads| && s.threads[t].Totalled? && seen <= s.max
    && s' == s.(threads := s.threads[t := Trying(s.threads[t].ns, seen)])
  }

  /** The loop ends because the maximum seen is large enough. */
  ghost predicate Leave(s: State, t: nat, s': State) {
    && t < |s.threads| && s.threads[t].Trying? && s.threads[t].ns <= s.threads[t].cur
    && s' == s.(threads := s.threads[t := Idle], finished := s.finished + [s.threads[t].ns])
  }

  ghost predicate Swap(s: State, t: nat, s': State) {
    && t < |s.threads| && s.threads[t].Trying? && s.threads[t].ns > s.threads[t].cur == s.max
    && s' == s.(max := s.threads[t].ns, threads := s.threads[t := Idle],
                finished := s.finished + [s.threads[t].ns])
  }

  ghost predicate FailSwap(s: State, t: nat, seen: u64, s': State) {
    && t < |s.threads| && s.threads[t].Trying? && s.threads[t].ns > s.threads[t].cur && seen <= s.max
    && s' == s.(threads := s.threads[t := Trying(s.threads[t].ns, seen)])
  }

  ghost predicate ThreadStep(s: State, t: nat, x: u64, s': State) {
    Count(s, t, x, s') || AddTotal(s, t, s') || LoadMax(s, t, x, s') || Leave(s, t, s') || Swap(s, t, s') ||
    FailSwap(s, t, x, s')
  }

  /** One atomic access of thread t. */
  ghost predicate StepOf(s: State, t: nat, s': State) {
    exists x: u64 :: ThreadStep(s, t, x, s')
  }

  ghost predicate Next(s: State, s': State) {
    exists t: nat :: StepOf(s, t, s')
  }

  // ---------------------------------------------------------------- what every step keeps

  /** The threads that have counted their sample but not yet added it to the total. */
  ghost function Behind(threads: seq<Thread>): nat {
    if threads == [] then 0
    else Behind(threads[..|threads| - 1]) + if threads[|threads| - 1].Counted? then 1 else 0
  }

  lemma {:induction false} BehindUpdate(threads: seq<Thread>, t: nat, pc: Thread)
    requires t < |threads|
    ensures Behind(threads[t := pc]) + (if threads[t].Counted? then 1 else 0) ==
            Behind(threads) + (if pc.Counted? then 1 else 0)
  {
    var u, n := threads[t := pc], |threads| - 1;
    if t < n {
      assert u[..n] == threads[..n][t := pc];
      BehindUpdate(threads[..n], t, pc);
    } else {
      assert u[..n] == threads[..n];
    }
  }

  lemma {:induction false} NoneBehind(threads: seq<Thread>)
    requires forall t | 0 <= t < |threads| :: threads[t].Idle?
    ensures Behind(threads) == 0 && InFlight(threads) == multiset{}
  {
    if threads != [] {
      NoneBehind(threads[..|threads| - 1]);
    }
  }

  /** The samples that are being recorded. */
  ghost function InFlight(threads: seq<Thread>): multiset<u64> {
    if threads == [] then multiset{}
    else InFlight(threads[..|threads| - 1]) + Carried(threads[|threads| - 1])
  }

  ghost function Carried(pc: Thread): multiset<u64> {
    if pc.Idle? then multiset{} else multiset{pc.ns}
  }

  lemma {:induction false} InFlightUpdate(threads: seq<Thread>, t: nat, pc: Thread)
    requires t < |threads|
    ensures InFlight(threads[t := pc]) + Carried(threads[t]) == InFlight(threads) + Carried(pc)
  {
    hide Carried;
    var u, n := threads[t := pc], |threads| - 1;
    if t < n {
      assert u[..n] == threads[..n][t := pc];
      InFlightUpdate(threads[..n], t, pc);
      AddToBoth(InFlight(u[..n]), Carried(threads[t]), InFlight(threads[..n]), Carried(pc), Carried(threads[n]));
    } else {
      assert u[..n] == threads[..n];
      AddToBoth(Carried(pc), Carried(threads[n]), Carried(threads[n]), Carried(pc), InFlight(threads[..n]));
    }
  }

  lemma AddToBoth(a: multiset<u64>, b: multiset<u64>, c: multiset<u64>, d: multiset<u64>, e: multiset<u64>)
    requires a + b == c + d
    ensures a + e + b == c + e + d && e + a + b == e + c + d
  {
    assert a + e + b == a + b + e && c + e + d == c + d + e;
    assert e + a + b == e + (a + b) && e + c + d == e + (c + d);
  }

  lemma {:induction false} CarriedInFlight(threads: seq<Thread>, t: nat)
    requires t < |threads|
    ensures Carried(threads[t]) <= InFlight(threads)
  {
    if t < |threads| - 1 {
      CarriedInFlight(threads[..|threads| - 1], t);
    }
  }

  /** Every started sample has finished or is in flight, exactly once. */
  ghost predicate Balanced(s: State) {
    multiset(s.started) == multiset(s.finished) + InFlight(s.threads)
  }

  /** Nothing is lost or recorded twice, and the maximum covers everything that has returned. */
  ghost predicate Inv(s: State) {
    && |s.counts| == BUCKETS
    && (forall b | 0 <= b < BUCKETS :: s.counts[b] == CountIn(s.started, b))
    && s.total + Behind(s.threads) == |s.started|
    && Balanced(s)
    && (s.max == 0 || s.max in s.started)
    && (forall t | 0 <= t < |s.threads| && s.threads[t].Trying? :: s.threads[t].cur <= s.max)
    && (forall x | x in s.finished :: x <= s.max)
  }

  /** A step starts a sample, finishes one, or carries it on. */
  lemma StepCarries(s: State, t: nat, x: u64, s': State)
    requires ThreadStep(s, t, x, s')
    ensures t < |s.threads| && t < |s'.threads| && s'.threads == s.threads[t := s'.threads[t]]
    ensures var before, after := Carried(s.threads[t]), Carried(s'.threads[t]);
            || (before == multiset{} && multiset(s'.started) == multiset(s.started) + after && s'.finished == s.finished)
            || (after == multiset{} && multiset(s'.finished) == multiset(s.finished) + before && s'.started == s.started)
            || (before == after && s'.started == s.started && s'.finished == s.finished)
  {
    assert multiset(s.started + [x]) == multiset(s.started) + multiset{x};
    if t < |s.threads| && !s.threads[t].Idle? {
      var ns := s.threads[t].ns;
      assert multiset(s.finished + [ns]) == multiset(s.finished) + multiset{ns};
    }
  }

  lemma StepBalances(s: State, t: nat, x: u64, s': State)
    requires ThreadStep(s, t, x, s') && Balanced(s)
    ensures Balanced(s') && (!s.threads[t].Idle? ==> s.threads[t].ns in s.started)
  {
    hide InFlight, ThreadStep, Carried;
    StepCarries(s, t, x, s');
    var before, pc := s.threads[t], s'.threads[t];
    InFlightUpdate(s.threads, t, pc);
    Exchange(multiset(s.started), multiset(s.finished), InFlight(s.threads), InFlight(s'.threads),
             Carried(before), Carried(pc));
    if !before.Idle? {
      InFlightStarted(s, t);
    }
  }

  /** A sample that is being recorded has been started. */
  lemma InFlightStarted(s: State, t: nat)
    requires Balanced(s) && t < |s.threads| && !s.threads[t].Idle?
    ensures s.threads[t].ns in s.started
  {
    hide InFlight;
    CarriedInFlight(s.threads, t);
    assert s.threads[t].ns in multiset(s.started);
  }

  lemma Exchange(all: multiset<u64>, done: multiset<u64>, was: multiset<u64>, now: multiset<u64>,
                 before: multiset<u64>, after: multiset<u64>)
    requires all == done + was && now + before == was + after
    ensures before == multiset{} ==> all + after == done + now
    ensures after == multiset{} ==> all == done + before + now
    ensures before == after ==> all == done + now
  {
    assert forall x :: now[x] + before[x] == (now + before)[x] == (was + after)[x] == was[x] + after[x];
  }

  lemma StepKeepsInv(s: State, s': State)
    requires Inv(s) && Next(s, s')
    ensures Inv(s') && s.max <= s'.max && |s'.threads| == |s.threads|
  {
    hide Behind, Balanced, CountIn, BucketIndex, MaxOf;
    var t: nat :| StepOf(s, t, s');
    var x: u64 :| ThreadStep(s, t, x, s');
    var pc := s'.threads[t];
    assert s'.threads == s.threads[t := pc];
    BehindUpdate(s.threads, t, pc);
    StepBalances(s, t, x, s');
    AppendCounts(s.started, x);
  }

  // ---------------------------------------------------------------- every execution

  ghost predicate Execution(run: seq<State>, n: nat) {
    && run != [] && Start(run[0], n)
    && forall i | 0 <= i < |run| - 1 :: Next(run[i], run[i + 1])
  }

  lemma {:induction false} ExecutionKeepsInv(run: seq<State>, n: nat, i: nat)
    requires Execution(run, n) && i < |run|
    ensures Inv(run[i])
  {
    if i > 0 {
      ExecutionKeepsInv(run, n, i - 1);
      assert Next(run[i - 1], run[i - 1 + 1]);
      StepKeepsInv(run[i - 1], run[i]);
    } else {
      NoneBehind(run[0].threads);
    }
  }

  // ---------------------------------------------------------------- no thread waits for another

  /** How many steps a thread still takes when no other thread moves. */
  function StepsLeft(pc: Thread, max: u64): nat {
    match pc
    case Idle => 0
    case Counted(_) => 3
    case Totalled(_) => 2
    case Trying(ns, cur) => if ns > cur && cur != max then 2 else 1
  }

  lemma Advance(s: State, t: nat) returns (s': State)
    requires t < |s.threads| && !s.threads[t].Idle?
    ensures StepOf(s, t, s') && |s'.threads| == |s.threads|
    ensures StepsLeft(s'.threads[t], s'.max) == StepsLeft(s.threads[t], s.max) - 1
    ensures if s'.threads[t].Idle? then s'.finished == s.finished + [s.threads[t].ns]
            else s'.finished == s.finished && s'.threads[t].ns == s.threads[t].ns
  {
    var x := s.max;
    match s.threads[t]
    case Counted(ns) =>
      s' := s.(total := s.total + 1, threads := s.threads[t := Totalled(ns)]);
      assert ThreadStep(s, t, x, s');
    case Totalled(ns) =>
      s' := s.(threads := s.threads[t := Trying(ns, s.max)]);
      assert ThreadStep(s, t, x, s');
    case Trying(ns, cur) =>
      if ns <= cur {
        s' := s.(threads := s.threads[t := Idle], finished := s.finished + [ns]);
        assert ThreadStep(s, t, x, s');
      } else if cur == s.max {
        s' := s.(max := ns, threads := s.threads[t := Idle], finished := s.finished + [ns]);
        assert ThreadStep(s, t, x, s');
      } else {
        s' := s.(threads := s.threads[t := Trying(ns, s.max)]);
        assert ThreadStep(s, t, x, s');
      }
  }

  /**
   Recording waits for no other thread: wherever the others stopped, at most three steps of its own
   take a thread that has begun to record a sample to the end of the call.
   */
  lemma {:induction false} FinishesAlone(s: State, t: nat) returns (run: seq<State>)
    requires t < |s.threads| && !s.threads[t].Idle?
    ensures 2 <= |run| <= 4 && |run| == StepsLeft(s.threads[t], s.max) + 1 && run[0] == s
    ensures forall i | 0 <= i < |run| - 1 :: StepOf(run[i], t, run[i + 1])
    ensures var last := run[|run| - 1];
            && t < |last.threads| && last.threads[t].Idle?
            && last.finished == s.finished + [s.threads[t].ns]
    decreases StepsLeft(s.threads[t], s.max)
  {
    hide StepOf;
    var s' := Advance(s, t);
    if s'.threads[t].Idle? {
      run := [s, s'];
    } else {
      var rest := FinishesAlone(s', t);
      run := [s] + rest;
    }
  }

  /** The maximum never decreases. */
  lemma {:induction false} MaxGrows(run: seq<State>, n: nat, i: nat, j: nat)
    requires Execution(run, n) && i <= j < |run|
    ensures run[i].max <= run[j].max
  {
    hide Inv, StepOf;
    if i < j {
      MaxGrows(run, n, i, j - 1);
      ExecutionKeepsInv(run, n, j - 1);
      assert Next(run[j - 1], run[j - 1 + 1]);
      StepKeepsInv(run[j - 1], run[j]);
    }
  }

  function Sum(counts: seq<nat>): nat {
    if counts == [] then 0 else Sum(counts[..|counts| - 1]) + counts[|counts| - 1]
  }

  lemma {:induction false} BucketsSum(counts: seq<nat>, samples: seq<u64>)
    requires |counts| <= BUCKETS && forall b | 0 <= b < |counts| :: counts[b] == CountIn(samples, b)
    ensures Sum(counts) == CountBelow(samples, Edge(|counts|))
  {
    if counts == [] {
      CountNone(samples);
    } else {
      BucketsSum(counts[..|counts| - 1], samples);
      EdgeStep(samples, |counts| - 1);
    }
  }

  lemma MaxIs(samples: seq<u64>, m: u64)
    requires (m == 0 || m in samples) && forall x | x in multiset(samples) :: x <= m
    ensures m == MaxOf(samples)
  {
    hide MaxOf;
    MaxExact(samples);
    assert forall x | x in samples :: x in multiset(samples);
    if samples == [] {
      assert MaxOf([]) == 0 by { NoMax(); }
    }
  }

  lemma NoMax()
    ensures MaxOf([]) == 0
  {
  }

  /**
   In every state, finished samples are at most the maximum, which is 0 or a started sample. Once
   all threads are idle, every started sample has finished, the buckets add up to the total, the
   total is the number of samples, and the maximum is exact.
   */
  lemma RecordedExactly(run: seq<State>, n: nat, i: nat)
    requires Execution(run, n) && i < |run|
    ensures var s := run[i];
            && (s.max == 0 || s.max in s.started) && (forall x | x in s.finished :: x <= s.max)
            && ((forall t | 0 <= t < |s.threads| :: s.threads[t].Idle?) ==>
                  multiset(s.finished) == multiset(s.started) &&
                  Sum(s.counts) == s.total == |s.started| && s.max == MaxOf(s.started))
  {
    hide Behind, InFlight, CountIn, Sum, MaxOf, CountBelow, Execution, Pow2;
    var s := run[i];
    ExecutionKeepsInv(run, n, i);
    if forall t | 0 <= t < |s.threads| :: s.threads[t].Idle? {
      NoneBehind(s.threads);
      BucketsSum(s.counts, s.started);
      CountAll(s.started);
      assert multiset(s.finished) + multiset{} == multiset(s.finished);
      assert forall x | x in multiset(s.finished) :: x in s.finished;
      MaxIs(s.started, s.max);
      Powers();
    }
  }
}
