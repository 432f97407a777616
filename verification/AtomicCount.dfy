/**
  Retain and release by several threads on one counted object.

  The atomic add, the atomic subtract, the deinit handler and the deallocation are separate steps,
  and any thread may take the next step. A thread retains or releases only through a reference
  that it owns, and may pass a reference to another thread.
 */
module AtomicCounting {
  import opened Counting

  /** Where a thread stands: between calls, or after a subtract that returned one. */
  datatype Phase = Idle | MustDeinit | MustDeallocate | Finished | Aborted

  datatype Thread = Thread(owned: nat, phase: Phase)

  datatype State = State(count: int, threads: seq<Thread>, deinits: nat, deallocations: nat)

  datatype Step = Retain(t: nat) | Release(t: nat) | Pass(t: nat, to: nat) | Deinit(t: nat) | Deallocate(t: nat)

  predicate Enabled(s: State, step: Step) {
    && step.t < |s.threads|
    && var me := s.threads[step.t];
       match step
       case Retain(_) => me.phase.Idle? && me.owned > 0
       case Release(_) => me.phase.Idle? && me.owned > 0
       case Pass(t, to) => me.phase.Idle? && me.owned > 0 && to < |s.threads| && to != t
       case Deinit(_) => me.phase.MustDeinit?
       case Deallocate(_) => me.phase.MustDeallocate?
  }

  /** The phase that the old value returned by the subtract leads to. */
  function AfterSubtract(old_: int): Phase {
    if old_ == 1 then MustDeinit else if old_ <= 0 then Aborted else Idle
  }

  function Next(s: State, step: Step): State
    requires Enabled(s, step)
  {
    var me := s.threads[step.t];
    match step
    case Retain(t) =>
      s.(count := s.count + 1, threads := s.threads[t := me.(owned := me.owned + 1)])
    case Release(t) =>
      s.(count := s.count - 1, threads := s.threads[t := Thread(me.owned - 1, AfterSubtract(s.count))])
    case Pass(t, to) =>
      var given := s.threads[t := me.(owned := me.owned - 1)];
      s.(threads := given[to := given[to].(owned := given[to].owned + 1)])
    case Deinit(t) =>
      s.(deinits := s.deinits + 1, threads := s.threads[t := me.(phase := MustDeallocate)])
    case Deallocate(t) =>
      s.(deallocations := s.deallocations + 1, threads := s.threads[t := me.(phase := Finished)])
  }

  // ---- what is counted over the threads ----

  function Owned(threads: seq<Thread>): nat {
    if threads == [] then 0 else threads[0].owned + Owned(threads[1..])
  }

  /** Threads whose subtract returned one. */
  function SawLast(threads: seq<Thread>): nat {
    if threads == [] then 0 else (if threads[0].phase.Idle? then 0 else 1) + SawLast(threads[1..])
  }

  lemma {:induction false} OwnedUpdate(threads: seq<Thread>, t: nat, x: Thread)
    requires t < |threads|
    ensures Owned(threads[t := x]) == Owned(threads) - threads[t].owned + x.owned
    ensures Owned(threads) >= threads[t].owned
  {
    if t > 0 {
      OwnedUpdate(threads[1..], t - 1, x);
      assert threads[t := x][1..] == threads[1..][t - 1 := x];
    } else {
      assert threads[t := x][1..] == threads[1..];
    }
  }

  lemma {:induction false} SawLastUpdate(threads: seq<Thread>, t: nat, x: Thread)
    requires t < |threads|
    ensures SawLast(threads[t := x]) ==
            SawLast(threads) - (if threads[t].phase.Idle? then 0 else 1) + (if x.phase.Idle? then 0 else 1)
    ensures !threads[t].phase.Idle? ==> SawLast(threads) >= 1
  {
    if t > 0 {
      SawLastUpdate(threads[1..], t - 1, x);
      assert threads[t := x][1..] == threads[1..][t - 1 := x];
    } else {
      assert threads[t := x][1..] == threads[1..];
    }
  }

  lemma {:induction false} SomeoneSawLast(threads: seq<Thread>) returns (t: nat)
    requires SawLast(threads) > 0
    ensures t < |threads| && !threads[t].phase.Idle?
  {
    if threads[0].phase.Idle? {
      var k := SomeoneSawLast(threads[1..]);
      t := k + 1;
    } else {
      t := 0;
    }
  }

  lemma {:induction false} OnlyOneSawLast(threads: seq<Thread>, t: nat, u: nat)
    requires t < u < |threads| && !threads[t].phase.Idle? && !threads[u].phase.Idle?
    ensures SawLast(threads) >= 2
  {
    if t == 0 {
      SawLastUpdate(threads[1..], u - 1, threads[u]);
    } else {
      OnlyOneSawLast(threads[1..], t - 1, u - 1);
    }
  }

  // ---- the invariant ----

  function DeinitsOf(p: Phase): nat { if p.MustDeallocate? || p.Finished? then 1 else 0 }

  function DeallocationsOf(p: Phase): nat { if p.Finished? then 1 else 0 }

  /**
    The count is the number of owned references. While it is positive nobody has seen the last
    release; once it is zero exactly one thread has, and how far it got is what has been done.
   */
  predicate Inv(s: State) {
    && s.count == Owned(s.threads)
    && (forall t :: 0 <= t < |s.threads| ==> !s.threads[t].phase.Aborted?)
    && SawLast(s.threads) == (if s.count == 0 then 1 else 0)
    && (s.count > 0 ==> s.deinits == 0 && s.deallocations == 0)
    && (forall t :: 0 <= t < |s.threads| && !s.threads[t].phase.Idle? ==>
          s.deinits == DeinitsOf(s.threads[t].phase) && s.deallocations == DeallocationsOf(s.threads[t].phase))
  }

  /** An object fresh from creation: some threads, one of which owns the one reference. */
  predicate Initial(s: State) {
    && s.count == 1 && s.deinits == 0 && s.deallocations == 0 && Owned(s.threads) == 1
    && forall t :: 0 <= t < |s.threads| ==> s.threads[t].phase.Idle?
  }

  /** One thread that owns the one reference, and others that own none, start so. */
  lemma StartIsInitial(others: seq<Thread>)
    requires forall t :: 0 <= t < |others| ==> others[t] == Thread(0, Idle)
    ensures Initial(State(1, [Thread(1, Idle)] + others, 0, 0))
  {
    NothingOwned(others);
    assert ([Thread(1, Idle)] + others)[1..] == others;
  }

  lemma {:induction false} NothingOwned(threads: seq<Thread>)
    requires forall t :: 0 <= t < |threads| ==> threads[t] == Thread(0, Idle)
    ensures Owned(threads) == 0
  {
    if threads == [] {
    } else {
      NothingOwned(threads[1..]);
    }
  }

  lemma {:induction false} NobodySawLast(threads: seq<Thread>)
    requires forall t :: 0 <= t < |threads| ==> threads[t].phase.Idle?
    ensures SawLast(threads) == 0
  {
    if threads == [] {
    } else {
      NobodySawLast(threads[1..]);
    }
  }

  lemma RetainKeepsInv(s: State, t: nat)
    requires Inv(s) && Enabled(s, Retain(t))
    ensures Inv(Next(s, Retain(t)))
  {
    var x := Next(s, Retain(t)).threads[t];
    OwnedUpdate(s.threads, t, x);
    SawLastUpdate(s.threads, t, x);
  }

  lemma ReleaseKeepsInv(s: State, t: nat)
    requires Inv(s) && Enabled(s, Release(t))
    ensures Inv(Next(s, Release(t)))
  {
    var x := Next(s, Release(t)).threads[t];
    OwnedUpdate(s.threads, t, x);
    SawLastUpdate(s.threads, t, x);
    forall u | 0 <= u < |s.threads| ensures s.threads[u].phase.Idle? {
      SawLastUpdate(s.threads, u, s.threads[u]);
    }
  }

  lemma PassKeepsInv(s: State, t: nat, to: nat)
    requires Inv(s) && Enabled(s, Pass(t, to))
    ensures Inv(Next(s, Pass(t, to)))
  {
    var me := s.threads[t];
    var x := me.(owned := me.owned - 1);
    var given := s.threads[t := x];
    var y := given[to].(owned := given[to].owned + 1);
    OwnedUpdate(s.threads, t, x);
    SawLastUpdate(s.threads, t, x);
    OwnedUpdate(given, to, y);
    SawLastUpdate(given, to, y);
  }

  lemma TeardownKeepsInv(s: State, step: Step)
    requires Inv(s) && Enabled(s, step) && (step.Deinit? || step.Deallocate?)
    ensures Inv(Next(s, step))
  {
    var x := Next(s, step).threads[step.t];
    OwnedUpdate(s.threads, step.t, x);
    SawLastUpdate(s.threads, step.t, x);
    forall u | 0 <= u < |s.threads| && u != step.t ensures s.threads[u].phase.Idle? {
      if !s.threads[u].phase.Idle? {
        if u < step.t { OnlyOneSawLast(s.threads, u, step.t); } else { OnlyOneSawLast(s.threads, step.t, u); }
      }
    }
  }

  lemma StepKeepsInv(s: State, step: Step)
    requires Inv(s) && Enabled(s, step)
    ensures Inv(Next(s, step))
  {
    match step
    case Retain(t) => RetainKeepsInv(s, t);
    case Release(t) => ReleaseKeepsInv(s, t);
    case Pass(t, to) => PassKeepsInv(s, t, to);
    case Deinit(t) => TeardownKeepsInv(s, step);
    case Deallocate(t) => TeardownKeepsInv(s, step);
  }

  // ---- runs ----

  /** Every step of the sequence is possible where it happens. */
  predicate Possible(s: State, steps: seq<Step>)
    decreases |steps|
  {
    steps != [] ==> Enabled(s, steps[0]) && Possible(Next(s, steps[0]), steps[1..])
  }

  function After(s: State, steps: seq<Step>): State
    requires Possible(s, steps)
    decreases |steps|
  {
    if steps == [] then s else After(Next(s, steps[0]), steps[1..])
  }

  lemma {:induction false} RunKeepsInv(s: State, steps: seq<Step>)
    requires Inv(s) && Possible(s, steps)
    ensures Inv(After(s, steps))
    decreases |steps|
  {
    if steps == [] {
    } else {
      StepKeepsInv(s, steps[0]);
      RunKeepsInv(Next(s, steps[0]), steps[1..]);
    }
  }

  /**
    In every interleaving: the underflow branch is never taken, exactly one thread sees the last
    release and only once no reference is owned, deinit runs at most once and before the at most
    one deallocation, and neither runs while a thread owns a reference.
   */
  lemma EveryRunIsSafe(s: State, steps: seq<Step>)
    requires Initial(s) && Possible(s, steps)
    ensures var e := After(s, steps);
            && (forall t :: 0 <= t < |e.threads| ==> !e.threads[t].phase.Aborted?)
            && e.count == Owned(e.threads)
            && SawLast(e.threads) == (if Owned(e.threads) == 0 then 1 else 0)
            && e.deallocations <= e.deinits <= 1
            && (e.deinits > 0 ==> Owned(e.threads) == 0)
  {
    NobodySawLast(s.threads);
    RunKeepsInv(s, steps);
    var e := After(s, steps);
    if e.count == 0 { var t := SomeoneSawLast(e.threads); }
  }

  /** No thread takes a step on an object that has been deallocated. */
  lemma NothingAfterDeallocation(s: State, steps: seq<Step>, step: Step)
    requires Initial(s) && Possible(s, steps) && Enabled(After(s, steps), step)
    ensures After(s, steps).deallocations == 0
  {
    NobodySawLast(s.threads);
    RunKeepsInv(s, steps);
    var e := After(s, steps);
    OwnedUpdate(e.threads, step.t, e.threads[step.t]);
  }

  /** Nor is the teardown forgotten: until it is complete, some thread can carry it on. */
  lemma TeardownIsNotLost(s: State, steps: seq<Step>) returns (t: nat)
    requires Initial(s) && Possible(s, steps)
    requires Owned(After(s, steps).threads) == 0 && After(s, steps).deallocations == 0
    ensures Enabled(After(s, steps), Deinit(t)) || Enabled(After(s, steps), Deallocate(t))
  {
    NobodySawLast(s.threads);
    RunKeepsInv(s, steps);
    t := SomeoneSawLast(After(s, steps).threads);
  }

  // ---- what a run does, counted on its steps ----

  lemma {:induction false} PossibleFront(s: State, steps: seq<Step>, x: Step)
    requires Possible(s, steps + [x])
    ensures Possible(s, steps) && Enabled(After(s, steps), x)
    ensures After(s, steps + [x]) == Next(After(s, steps), x)
    decreases |steps|
  {
    if steps == [] {
      assert (steps + [x])[0] == x && (steps + [x])[1..] == [];
    } else {
      assert (steps + [x])[0] == steps[0] && (steps + [x])[1..] == steps[1..] + [x];
      PossibleFront(Next(s, steps[0]), steps[1..], x);
    }
  }

  /**
    Over any possible run the count rises by one for each retain and falls by one for each release,
    and deinits and deallocations are the steps that were taken.
   */
  lemma {:induction false} RunCounts(s: State, steps: seq<Step>)
    requires Possible(s, steps)
    ensures var e := After(s, steps);
            && e.count == s.count + Number(steps, (x: Step) => x.Retain?) - Number(steps, (x: Step) => x.Release?)
            && e.deinits == s.deinits + Number(steps, (x: Step) => x.Deinit?)
            && e.deallocations == s.deallocations + Number(steps, (x: Step) => x.Deallocate?)
    decreases |steps|
  {
    if steps == [] {
    } else {
      var n := |steps| - 1;
      var init, x := steps[..n], steps[n];
      assert steps == init + [x];
      PossibleFront(s, init, x);
      RunCounts(s, init);
    }
  }

  /**
    Over any possible run a thread owns what it started with, and one more for each of its retains and
    for each reference passed to it, and one less for each of its releases and each it passed on.
   */
  lemma {:induction false} RunOwned(s: State, steps: seq<Step>, t: nat)
    requires Possible(s, steps) && t < |s.threads|
    ensures |After(s, steps).threads| == |s.threads|
    ensures After(s, steps).threads[t].owned ==
            s.threads[t].owned + Number(steps, (x: Step) => (x.Retain? && x.t == t) || (x.Pass? && x.to == t))
                               - Number(steps, (x: Step) => (x.Release? || x.Pass?) && x.t == t)
    decreases |steps|
  {
    if steps == [] {
    } else {
      var n := |steps| - 1;
      var init, x := steps[..n], steps[n];
      assert steps == init + [x];
      PossibleFront(s, init, x);
      RunOwned(s, init, t);
    }
  }

  lemma OneMore(s: State, x: Step, rest: seq<Step>)
    requires Enabled(s, x) && Possible(Next(s, x), rest)
    ensures Possible(s, [x] + rest) && After(s, [x] + rest) == After(Next(s, x), rest)
  {
    assert ([x] + rest)[1..] == rest;
  }

  /** A thread that is between calls and owns a reference may retain, release and pass it on. */
  lemma OwnersMayAct(s: State, t: nat, to: nat)
    requires t < |s.threads| && s.threads[t].phase.Idle? && s.threads[t].owned > 0
    ensures Possible(s, [Retain(t)] + []) && Possible(s, [Release(t)] + [])
    ensures to < |s.threads| && to != t ==> Possible(s, [Pass(t, to)] + [])
  {
    hide After, Next;
    OneMore(s, Retain(t), []);
    OneMore(s, Release(t), []);
    if to < |s.threads| && to != t { OneMore(s, Pass(t, to), []); }
  }

  /** The thread whose release takes the count from one tears down and deallocates. */
  lemma LastMayTearDown(s: State, t: nat)
    requires t < |s.threads| && s.threads[t].phase.Idle? && s.threads[t].owned > 0 && s.count == 1
    ensures var steps := [Release(t)] + ([Deinit(t)] + ([Deallocate(t)] + []));
            && Possible(s, steps) && t < |After(s, steps).threads|
            && After(s, steps).threads[t] == Thread(s.threads[t].owned - 1, Finished)
  {
    var a := Next(s, Release(t));
    var b := Next(a, Deinit(t));
    OneMore(b, Deallocate(t), []);
    OneMore(a, Deinit(t), [Deallocate(t)] + []);
    OneMore(s, Release(t), [Deinit(t)] + ([Deallocate(t)] + []));
  }

  /** While anything is owned, nobody is tearing down; afterwards exactly one thread is, or has been. */
  lemma OneThreadTearsDown(s: State, steps: seq<Step>)
    requires Initial(s) && Possible(s, steps)
    ensures var e := After(s, steps);
            && (e.count > 0 ==> forall t :: 0 <= t < |e.threads| ==> e.threads[t].phase.Idle?)
            && (e.count == 0 ==> exists t :: 0 <= t < |e.threads| && !e.threads[t].phase.Idle? &&
                                   forall u :: 0 <= u < |e.threads| && u != t ==> e.threads[u].phase.Idle?)
  {
    hide After, Possible;
    NobodySawLast(s.threads);
    RunKeepsInv(s, steps);
    var e := After(s, steps);
    if e.count == 0 {
      var t := SomeoneSawLast(e.threads);
      forall u | 0 <= u < |e.threads| && u != t ensures e.threads[u].phase.Idle? {
        if !e.threads[u].phase.Idle? {
          if u < t { OnlyOneSawLast(e.threads, u, t); } else { OnlyOneSawLast(e.threads, t, u); }
        }
      }
    } else {
      forall u | 0 <= u < |e.threads| ensures e.threads[u].phase.Idle? {
        SawLastUpdate(e.threads, u, e.threads[u]);
      }
    }
  }
}
