/**
  Several threads on one heap.

  A thread owns references and may be in the middle of releases: its stack holds the objects that it
  is tearing down, innermost first, each with the items that are still to be released. The atomic
  add, the atomic subtract, the release of each item and the deallocation are separate steps, and any
  thread may take the next one. Objects keep their identity: a new object is none that was there.
 */
module Threads {
  import opened Counting
  import opened ReferenceCounting
  import opened Reachability

  datatype Frame = Frame(id: Ref, pending: seq<Ref>)

  datatype Thread = Thread(owned: multiset<Ref>, stack: seq<Frame>)

  /** `Corrupted` stands for a subtract on a freed object. */
  datatype Status = Running | Aborted | Corrupted

  /** `torn` and `freed` record the last releases and the deallocations. */
  datatype State = State(
    heap: Heap, threads: seq<Thread>, status: Status,
    used: set<Ref>, torn: multiset<Ref>, freed: multiset<Ref>)

  datatype Step =
    | Create(t: nat, id: Ref)
    | Retain(t: nat, id: Ref)
    | RetainItem(t: nat, holder: Ref, index: nat, id: Ref)
    | Put(t: nat, holder: Ref, value: Ref)
    | Pass(t: nat, to: nat, id: Ref)
    | Release(t: nat, id: Ref)
    | ReleaseNext(t: nat)
    | Deallocate(t: nat)

  /** A thread uses what it owns; one that is tearing down goes on with that. */
  predicate Enabled(s: State, step: Step) {
    && s.status.Running? && step.t < |s.threads|
    && var me := s.threads[step.t];
       match step
       case Create(_, id) => me.stack == [] && id !in s.used
       case Retain(_, id) => me.stack == [] && id in me.owned
       case RetainItem(_, holder, index, id) =>
         && me.stack == [] && holder in me.owned && holder in s.heap
         && index < |Edges(s.heap[holder])| && Edges(s.heap[holder])[index] == id
       case Put(_, holder, value) =>
         && me.stack == [] && holder in me.owned && value in me.owned
         && holder in s.heap && s.heap[holder].Counted?
       case Pass(t, to, id) => me.stack == [] && id in me.owned && to < |s.threads| && to != t
       case Release(_, id) => me.stack == [] && id in me.owned
       case ReleaseNext(_) => me.stack != [] && me.stack[0].pending != []
       case Deallocate(_) => me.stack != [] && me.stack[0].pending == []
  }

  /** The objects that a step reads or writes. */
  function Touched(s: State, step: Step): set<Ref>
    requires Enabled(s, step)
  {
    var me := s.threads[step.t];
    match step
    case Create(_, _) => {}
    case Retain(_, id) => {id}
    case RetainItem(_, holder, _, id) => {holder, id}
    case Put(_, holder, _) => {holder}
    case Pass(_, _, _) => {}
    case Release(_, id) => {id}
    case ReleaseNext(_) => {me.stack[0].id, me.stack[0].pending[0]}
    case Deallocate(_) => {me.stack[0].id}
  }

  function SetThread(s: State, t: nat, me: Thread): State
    requires t < |s.threads|
  {
    s.(threads := s.threads[t := me])
  }

  /** The thread with one owned reference less. */
  function Without(me: Thread, id: Ref): Thread { me.(owned := me.owned - multiset{id}) }

  /** The thread with one more owned reference. */
  function With(me: Thread, id: Ref): Thread { me.(owned := me.owned + multiset{id}) }

  function Passed(threads: seq<Thread>, t: nat, to: nat, id: Ref): seq<Thread>
    requires t < |threads| && to < |threads|
  {
    threads[t := Without(threads[t], id)][to := With(threads[t := Without(threads[t], id)][to], id)]
  }

  function Popped(threads: seq<Thread>, t: nat): seq<Thread>
    requires t < |threads| && threads[t].stack != []
  {
    threads[t := threads[t].(stack := threads[t].stack[1..])]
  }

  /** The atomic subtract and what the thread makes of the old value. */
  function Subtract(s: State, t: nat, me: Thread, id: Ref): State
    requires t < |s.threads|
  {
    if id !in s.heap then s.(status := Corrupted)
    else if s.heap[id].Static? then SetThread(s, t, me)
    else
      var before := s.heap[id].count;
      var s' := s.(heap := s.heap[id := s.heap[id].(count := before - 1)]);
      if before == 1 then
        SetThread(s', t, me.(stack := [Frame(id, s.heap[id].holds)] + me.stack)).(torn := s.torn + multiset{id})
      else if before <= 0 then s'.(status := Aborted)
      else SetThread(s', t, me)
  }

  function Add(s: State, t: nat, id: Ref): State
    requires t < |s.threads|
  {
    if id !in s.heap then s.(status := Corrupted)
    else
      SetThread(s, t, With(s.threads[t], id)).(heap := s.heap[id := Retained(s.heap[id])])
  }

  function Next(s: State, step: Step): State
    requires Enabled(s, step)
  {
    var t, me := step.t, s.threads[step.t];
    match step
    case Create(_, id) =>
      SetThread(s, t, With(me, id)).(heap := s.heap[id := Counted(1, [])], used := s.used + {id})
    case Retain(_, id) => Add(s, t, id)
    case RetainItem(_, _, _, id) => Add(s, t, id)
    case Put(_, holder, value) =>
      SetThread(s, t, Without(me, value))
      .(heap := s.heap[holder := s.heap[holder].(holds := s.heap[holder].holds + [value])])
    case Pass(_, to, id) => s.(threads := Passed(s.threads, t, to, id))
    case Release(_, id) => Subtract(s, t, Without(me, id), id)
    case ReleaseNext(_) =>
      var frame := me.stack[0];
      Subtract(s, t, Advanced(me), frame.pending[0])
    case Deallocate(_) =>
      var id := me.stack[0].id;
      s.(heap := s.heap - {id}, threads := Popped(s.threads, t), freed := s.freed + multiset{id})
  }

  // ---- what is counted over the threads ----

  function PendingOf(stack: seq<Frame>): multiset<Ref> {
    if stack == [] then multiset{} else multiset(stack[0].pending) + PendingOf(stack[1..])
  }

  function IdsOf(stack: seq<Frame>): multiset<Ref> {
    if stack == [] then multiset{} else multiset{stack[0].id} + IdsOf(stack[1..])
  }

  /** The references of a thread: owned ones, and those that its teardowns are still to release. */
  function ReferencesOf(me: Thread): multiset<Ref> { me.owned + PendingOf(me.stack) }

  function Total(threads: seq<Thread>): multiset<Ref> {
    if threads == [] then multiset{} else ReferencesOf(threads[0]) + Total(threads[1..])
  }

  /** The objects that are being torn down, once for each frame. */
  function Dying(threads: seq<Thread>): multiset<Ref> {
    if threads == [] then multiset{} else IdsOf(threads[0].stack) + Dying(threads[1..])
  }

  lemma AddFront(front: multiset<Ref>, a: multiset<Ref>, b: multiset<Ref>, c: multiset<Ref>, d: multiset<Ref>)
    requires a + b == c + d
    ensures front + a + b == front + c + d
  {
    assert front + a + b == front + (a + b) && front + c + d == front + (c + d);
  }

  lemma {:induction false} TotalUpdate(threads: seq<Thread>, t: nat, me: Thread)
    requires t < |threads|
    ensures Total(threads[t := me]) + ReferencesOf(threads[t]) == Total(threads) + ReferencesOf(me)
    ensures ReferencesOf(threads[t]) <= Total(threads)
  {
    hide ReferencesOf;
    if t == 0 {
      assert threads[t := me][1..] == threads[1..];
    } else {
      TotalUpdate(threads[1..], t - 1, me);
      assert threads[t := me][1..] == threads[1..][t - 1 := me];
      AddFront(ReferencesOf(threads[0]), Total(threads[1..][t - 1 := me]), ReferencesOf(threads[t]),
               Total(threads[1..]), ReferencesOf(me));
    }
  }

  lemma {:induction false} DyingUpdate(threads: seq<Thread>, t: nat, me: Thread)
    requires t < |threads|
    ensures Dying(threads[t := me]) + IdsOf(threads[t].stack) == Dying(threads) + IdsOf(me.stack)
    ensures IdsOf(threads[t].stack) <= Dying(threads)
  {
    hide IdsOf;
    if t == 0 {
      assert threads[t := me][1..] == threads[1..];
    } else {
      DyingUpdate(threads[1..], t - 1, me);
      assert threads[t := me][1..] == threads[1..][t - 1 := me];
      AddFront(IdsOf(threads[0].stack), Dying(threads[1..][t - 1 := me]), IdsOf(threads[t].stack),
               Dying(threads[1..]), IdsOf(me.stack));
    }
  }

  // ---- the invariant ----

  /** The objects at zero are those with a frame, and each has one. */
  predicate OneFrameEach(h: Heap, dying: multiset<Ref>) {
    && (forall x :: x in h && AtZero(h, x) ==> dying[x] == 1)
    && (forall x :: x in dying ==> AtZero(h, x))
  }

  /** What a frame has still to release is the rest of what its object holds. */
  predicate Fits(h: Heap, frame: Frame) {
    AtZero(h, frame.id) ==>
      var holds := h[frame.id].holds;
      |frame.pending| <= |holds| && frame.pending == holds[|holds| - |frame.pending|..]
  }

  predicate StackFits(h: Heap, stack: seq<Frame>) { forall k :: 0 <= k < |stack| ==> Fits(h, stack[k]) }

  predicate FramesFit(h: Heap, threads: seq<Thread>) {
    forall t :: 0 <= t < |threads| ==> StackFits(h, threads[t].stack)
  }

  /** Last releases and deallocations happen once to an object, in this order. */
  predicate History(h: Heap, used: set<Ref>, torn: multiset<Ref>, freed: multiset<Ref>) {
    && h.Keys <= used
    && (forall x :: x in torn ==> torn[x] == 1 && x in used && (AtZero(h, x) || x in freed))
    && (forall x :: x in freed ==> freed[x] == 1 && x in torn && x !in h)
    && (forall x :: x in h && AtZero(h, x) ==> x in torn)
  }

  /** Every count is owned references, pending ones and occurrences in live holders; and the above. */
  ghost predicate Inv(s: State) {
    && s.status.Running? && Conserved(s.heap, Total(s.threads), NoHole)
    && OneFrameEach(s.heap, Dying(s.threads)) && FramesFit(s.heap, s.threads)
    && History(s.heap, s.used, s.torn, s.freed)
  }

  // ---- a step of one thread, on what is counted ----

  lemma TotalMore(threads: seq<Thread>, t: nat, me: Thread, more: multiset<Ref>)
    requires t < |threads| && ReferencesOf(me) == ReferencesOf(threads[t]) + more
    ensures Total(threads[t := me]) == Total(threads) + more
  {
    hide Total, ReferencesOf;
    TotalUpdate(threads, t, me);
    var a, b, r := Total(threads[t := me]), Total(threads), ReferencesOf(threads[t]);
    assert a + r == b + more + r;
    Cancel(a, b + more, r);
  }

  lemma TotalSame(threads: seq<Thread>, t: nat, me: Thread)
    requires t < |threads| && ReferencesOf(me) == ReferencesOf(threads[t])
    ensures Total(threads[t := me]) == Total(threads)
  {
    hide Total, ReferencesOf;
    TotalUpdate(threads, t, me);
    Cancel(Total(threads[t := me]), Total(threads), ReferencesOf(me));
  }

  lemma TotalLess(threads: seq<Thread>, t: nat, me: Thread, id: Ref)
    requires t < |threads| && ReferencesOf(threads[t]) == ReferencesOf(me) + multiset{id}
    ensures id in Total(threads) && Total(threads[t := me]) == Total(threads) - multiset{id}
  {
    hide Total, ReferencesOf;
    TotalUpdate(threads, t, me);
    var a, b, r := Total(threads[t := me]), Total(threads), ReferencesOf(me);
    assert a + multiset{id} + r == b + r;
    Cancel(a + multiset{id}, b, r);
  }

  lemma DyingSame(threads: seq<Thread>, t: nat, me: Thread)
    requires t < |threads| && IdsOf(me.stack) == IdsOf(threads[t].stack)
    ensures Dying(threads[t := me]) == Dying(threads)
  {
    hide Dying, IdsOf;
    DyingUpdate(threads, t, me);
    Cancel(Dying(threads[t := me]), Dying(threads), IdsOf(me.stack));
  }

  lemma DyingMore(threads: seq<Thread>, t: nat, me: Thread, id: Ref)
    requires t < |threads| && IdsOf(me.stack) == multiset{id} + IdsOf(threads[t].stack)
    ensures Dying(threads[t := me]) == Dying(threads) + multiset{id}
  {
    hide Dying, IdsOf;
    DyingUpdate(threads, t, me);
    var a, b, r := Dying(threads[t := me]), Dying(threads), IdsOf(threads[t].stack);
    assert a + r == b + multiset{id} + r;
    Cancel(a, b + multiset{id}, r);
  }

  lemma DyingLess(threads: seq<Thread>, t: nat, me: Thread, id: Ref)
    requires t < |threads| && IdsOf(threads[t].stack) == multiset{id} + IdsOf(me.stack)
    ensures id in Dying(threads) && Dying(threads[t := me]) == Dying(threads) - multiset{id}
  {
    hide Dying, IdsOf;
    DyingUpdate(threads, t, me);
    var a, b, r := Dying(threads[t := me]), Dying(threads), IdsOf(me.stack);
    assert a + multiset{id} + r == b + r;
    Cancel(a + multiset{id}, b, r);
  }

  lemma {:induction false} FrameIdInStack(stack: seq<Frame>, k: nat)
    requires k < |stack|
    ensures stack[k].id in IdsOf(stack)
  {
    if k == 0 {
    } else {
      FrameIdInStack(stack[1..], k - 1);
    }
  }

  lemma FrameIsDying(threads: seq<Thread>, t: nat, k: nat)
    requires t < |threads| && k < |threads[t].stack|
    ensures threads[t].stack[k].id in Dying(threads)
  {
    hide Dying, IdsOf;
    FrameIdInStack(threads[t].stack, k);
    DyingUpdate(threads, t, threads[t]);
  }

  /** A stack keeps fitting when no other object comes to zero and none at zero is written to. */
  lemma StackStillFits(h: Heap, h': Heap, threads: seq<Thread>, u: nat)
    requires u < |threads| && StackFits(h, threads[u].stack)
    requires forall x :: x in Dying(threads) && AtZero(h', x) ==> AtZero(h, x) && h'[x] == h[x]
    ensures StackFits(h', threads[u].stack)
  {
    hide Dying;
    forall k | 0 <= k < |threads[u].stack| ensures Fits(h', threads[u].stack[k]) {
      FrameIsDying(threads, u, k);
      assert Fits(h, threads[u].stack[k]);
    }
  }

  lemma FramesStillFit(h: Heap, h': Heap, threads: seq<Thread>, t: nat, me: Thread)
    requires FramesFit(h, threads) && t < |threads| && StackFits(h', me.stack)
    requires forall x :: x in Dying(threads) && AtZero(h', x) ==> AtZero(h, x) && h'[x] == h[x]
    ensures FramesFit(h', threads[t := me])
  {
    hide Dying, StackFits, AtZero;
    var threads' := threads[t := me];
    forall u | 0 <= u < |threads'| ensures StackFits(h', threads'[u].stack) {
      if u != t { StackStillFits(h, h', threads, u); }
    }
  }

  /** The same for a thread whose stack stays. */
  lemma SameFrames(h: Heap, h': Heap, threads: seq<Thread>, t: nat, me: Thread)
    requires FramesFit(h, threads) && t < |threads| && me.stack == threads[t].stack
    requires forall x :: AtZero(h', x) ==> AtZero(h, x) && h'[x] == h[x]
    ensures FramesFit(h', threads[t := me])
  {
    hide Dying, StackFits, AtZero;
    StackStillFits(h, h', threads, t);
    FramesStillFit(h, h', threads, t, me);
  }

  /** Nothing comes to zero, and nothing is created or freed. */
  lemma SameShape(h: Heap, h': Heap, dying: multiset<Ref>, used: set<Ref>, torn: multiset<Ref>, freed: multiset<Ref>)
    requires OneFrameEach(h, dying) && History(h, used, torn, freed) && h'.Keys == h.Keys
    requires forall x :: AtZero(h', x) <==> AtZero(h, x)
    ensures OneFrameEach(h', dying) && History(h', used, torn, freed)
  {
  }

  // ---- the subtract ----

  /** What a step leaves of the thread before it subtracts. */
  ghost predicate Gives(s: State, t: nat, me: Thread, id: Ref) {
    && t < |s.threads| && ReferencesOf(s.threads[t]) == ReferencesOf(me) + multiset{id}
    && IdsOf(me.stack) == IdsOf(s.threads[t].stack)
    && StackFits(s.heap, me.stack)
  }

  ghost predicate FewerReferences(s: State, s': State) {
    Outstanding(s'.heap, Total(s'.threads)) < Outstanding(s.heap, Total(s.threads))
  }

  lemma GivenIsLive(s: State, t: nat, me: Thread, id: Ref)
    requires Inv(s) && Gives(s, t, me, id)
    ensures id in s.heap && (s.heap[id].Counted? ==> s.heap[id].count > 0) && id in Total(s.threads)
    ensures Total(s.threads[t := me]) == Total(s.threads) - multiset{id}
  {
    hide Conserved, Total, ReferencesOf;
    TotalLess(s.threads, t, me, id);
    OwnedIsLive(s.heap, Total(s.threads), NoHole, id);
  }

  lemma SubtractStatic(s: State, t: nat, me: Thread, id: Ref)
    requires Inv(s) && Gives(s, t, me, id) && id in s.heap && s.heap[id].Static?
    ensures Inv(Subtract(s, t, me, id)) && FewerReferences(s, Subtract(s, t, me, id))
  {
    hide Conserved, Total, Dying, IdsOf, ReferencesOf, Fits, Outstanding, FramesFit, History, OneFrameEach;
    GivenIsLive(s, t, me, id);
    StaticDropped(s.heap, Total(s.threads), NoHole, id);
    DyingSame(s.threads, t, me);
    FramesStillFit(s.heap, s.heap, s.threads, t, me);
  }

  lemma SubtractKept(s: State, t: nat, me: Thread, id: Ref)
    requires Inv(s) && Gives(s, t, me, id) && id in s.heap && s.heap[id].Counted? && s.heap[id].count > 1
    ensures Inv(Subtract(s, t, me, id)) && FewerReferences(s, Subtract(s, t, me, id))
  {
    hide Conserved, Total, Dying, IdsOf, ReferencesOf, Outstanding, FramesFit, History, OneFrameEach;
    var h := s.heap[id := s.heap[id].(count := s.heap[id].count - 1)];
    GivenIsLive(s, t, me, id);
    AfterDecrement(s.heap, Total(s.threads), NoHole, id);
    DyingSame(s.threads, t, me);
    FramesStillFit(s.heap, h, s.threads, t, me);
    SameShape(s.heap, h, Dying(s.threads), s.used, s.torn, s.freed);
  }

  lemma PushFrame(me: Thread, frame: Frame)
    ensures ReferencesOf(me.(stack := [frame] + me.stack)) == ReferencesOf(me) + multiset(frame.pending)
    ensures IdsOf([frame] + me.stack) == multiset{frame.id} + IdsOf(me.stack)
  {
    assert ([frame] + me.stack)[1..] == me.stack;
  }

  /** An object comes to zero and gets its frame. */
  lemma LastShape(
      h: Heap, h': Heap, id: Ref, dying: multiset<Ref>, used: set<Ref>, torn: multiset<Ref>, freed: multiset<Ref>)
    requires OneFrameEach(h, dying) && History(h, used, torn, freed)
    requires id in h && h[id].Counted? && h[id].count == 1 && h' == h[id := h[id].(count := 0)]
    ensures OneFrameEach(h', dying + multiset{id}) && History(h', used, torn + multiset{id}, freed)
  {
    assert id !in dying && id !in torn;
  }

  lemma OthersAtZero(h: Heap, id: Ref, dying: multiset<Ref>)
    requires id in h && h[id].Counted? && h[id].count == 1 && OneFrameEach(h, dying)
    ensures var h' := h[id := h[id].(count := 0)];
            forall x :: x in dying && AtZero(h', x) ==> AtZero(h, x) && h'[x] == h[x]
  {
  }

  lemma LastFits(h: Heap, id: Ref, threads: seq<Thread>, t: nat, me: Thread)
    requires id in h && h[id].Counted? && h[id].count == 1 && OneFrameEach(h, Dying(threads)) && t < |threads|
    requires IdsOf(me.stack) == IdsOf(threads[t].stack) && StackFits(h, me.stack)
    ensures StackFits(h[id := h[id].(count := 0)], [Frame(id, h[id].holds)] + me.stack)
  {
    hide Dying, IdsOf;
    var stack := [Frame(id, h[id].holds)] + me.stack;
    forall k | 0 <= k < |stack| ensures Fits(h[id := h[id].(count := 0)], stack[k]) {
      if k > 0 {
        assert stack[k] == me.stack[k - 1] && Fits(h, me.stack[k - 1]);
        FrameIdInStack(me.stack, k - 1);
        DyingUpdate(threads, t, threads[t]);
      }
    }
  }

  lemma SubtractLast(s: State, t: nat, me: Thread, id: Ref)
    requires Inv(s) && Gives(s, t, me, id) && id in s.heap && s.heap[id].Counted? && s.heap[id].count == 1
    ensures Inv(Subtract(s, t, me, id)) && FewerReferences(s, Subtract(s, t, me, id))
  {
    hide Conserved, Total, Dying, IdsOf, ReferencesOf, Outstanding, FramesFit, History, OneFrameEach, Fits;
    var h, holds := s.heap[id := s.heap[id].(count := 0)], s.heap[id].holds;
    var busy := me.(stack := [Frame(id, holds)] + me.stack);
    GivenIsLive(s, t, me, id);
    AfterLast(s.heap, Total(s.threads), NoHole, id);
    PushFrame(me, Frame(id, holds));
    TotalMore(s.threads[t := me], t, busy, multiset(holds));
    assert s.threads[t := me][t := busy] == s.threads[t := busy];
    DyingMore(s.threads, t, busy, id);
    LastFits(s.heap, id, s.threads, t, me);
    OthersAtZero(s.heap, id, Dying(s.threads));
    FramesStillFit(s.heap, h, s.threads, t, busy);
    LastShape(s.heap, h, id, Dying(s.threads), s.used, s.torn, s.freed);
  }

  lemma SubtractKeepsInv(s: State, t: nat, me: Thread, id: Ref)
    requires Inv(s) && Gives(s, t, me, id)
    ensures id in s.heap && Inv(Subtract(s, t, me, id)) && FewerReferences(s, Subtract(s, t, me, id))
  {
    hide Inv, Gives, Subtract, FewerReferences;
    GivenIsLive(s, t, me, id);
    if s.heap[id].Static? {
      SubtractStatic(s, t, me, id);
    } else if s.heap[id].count > 1 {
      SubtractKept(s, t, me, id);
    } else {
      SubtractLast(s, t, me, id);
    }
  }

  // ---- the other steps ----

  lemma OwnedMore(me: Thread, id: Ref)
    ensures ReferencesOf(With(me, id)) == ReferencesOf(me) + multiset{id} && With(me, id).stack == me.stack
  {
  }

  lemma OwnedLess(me: Thread, id: Ref)
    requires id in me.owned
    ensures ReferencesOf(me) == ReferencesOf(Without(me, id)) + multiset{id} && Without(me, id).stack == me.stack
  {
  }

  lemma OwnedInTotal(s: State, t: nat, id: Ref)
    requires t < |s.threads| && id in s.threads[t].owned
    ensures id in Total(s.threads)
  {
    TotalUpdate(s.threads, t, s.threads[t]);
  }

  lemma OwnedIsThere(s: State, t: nat, id: Ref)
    requires Inv(s) && t < |s.threads| && id in s.threads[t].owned
    ensures id in s.heap && IsLive(s.heap[id])
  {
    hide Conserved, Total;
    OwnedInTotal(s, t, id);
    OwnedIsLive(s.heap, Total(s.threads), NoHole, id);
  }

  /** What a live object holds is there and alive. */
  lemma ItemIsLive(h: Heap, owners: multiset<Ref>, holder: Ref, y: Ref)
    requires Conserved(h, owners, NoHole) && holder in h && IsLive(h[holder]) && y in Edges(h[holder])
    ensures y in h && IsLive(h[y])
  {
    hide Refs;
    HeldIsReferenced(h, holder, y);
    assert y in References(h, owners, NoHole);
  }

  lemma AddKeepsInv(s: State, t: nat, id: Ref)
    requires Inv(s) && t < |s.threads| && id in s.heap && IsLive(s.heap[id])
    ensures Inv(Add(s, t, id))
  {
    hide Conserved, Total, Dying, Outstanding, History, OneFrameEach, FramesFit, ReferencesOf, IdsOf, With, Without;
    var me := With(s.threads[t], id);
    AfterRetain(s.heap, Total(s.threads), NoHole, id);
    OwnedMore(s.threads[t], id);
    TotalMore(s.threads, t, me, multiset{id});
    DyingSame(s.threads, t, me);
    SameFrames(s.heap, s.heap[id := Retained(s.heap[id])], s.threads, t, me);
    SameShape(s.heap, s.heap[id := Retained(s.heap[id])], Dying(s.threads), s.used, s.torn, s.freed);
  }

  lemma NewIsNotThere(s: State, id: Ref)
    requires History(s.heap, s.used, s.torn, s.freed) && id !in s.used
    ensures id !in s.heap
  {
  }

  lemma CreatedShape(h: Heap, id: Ref, dying: multiset<Ref>, used: set<Ref>, torn: multiset<Ref>, freed: multiset<Ref>)
    requires OneFrameEach(h, dying) && History(h, used, torn, freed) && id !in used
    ensures OneFrameEach(h[id := Counted(1, [])], dying)
    ensures History(h[id := Counted(1, [])], used + {id}, torn, freed)
  {
  }

  lemma CreateKeepsInv(s: State, t: nat, id: Ref)
    requires Inv(s) && Enabled(s, Create(t, id))
    ensures Inv(Next(s, Create(t, id)))
  {
    NewIsNotThere(s, id);
    hide Conserved, Total, Dying, Outstanding, History, OneFrameEach, FramesFit, ReferencesOf, IdsOf, With, Without;
    var me := With(s.threads[t], id);
    AfterCreate(s.heap, Total(s.threads), id);
    OwnedMore(s.threads[t], id);
    TotalMore(s.threads, t, me, multiset{id});
    DyingSame(s.threads, t, me);
    CreatedShape(s.heap, id, Dying(s.threads), s.used, s.torn, s.freed);
    SameFrames(s.heap, s.heap[id := Counted(1, [])], s.threads, t, me);
  }

  lemma PutKeepsInv(s: State, t: nat, holder: Ref, value: Ref)
    requires Inv(s) && Enabled(s, Put(t, holder, value))
    ensures Inv(Next(s, Put(t, holder, value)))
  {
    hide Conserved, Total, Dying, Outstanding, History, OneFrameEach, FramesFit, ReferencesOf, IdsOf, With, Without;
    var me := Without(s.threads[t], value);
    OwnedIsThere(s, t, holder);
    OwnedLess(s.threads[t], value);
    TotalLess(s.threads, t, me, value);
    assert Total(s.threads) - multiset{value} + multiset{value} == Total(s.threads);
    AfterStore(s.heap, Total(s.threads) - multiset{value}, holder, value);
    DyingSame(s.threads, t, me);
    var h := s.heap[holder := s.heap[holder].(holds := s.heap[holder].holds + [value])];
    SameFrames(s.heap, h, s.threads, t, me);
    SameShape(s.heap, h, Dying(s.threads), s.used, s.torn, s.freed);
  }

  lemma PassKeepsTotal(threads: seq<Thread>, t: nat, to: nat, id: Ref)
    requires t < |threads| && to < |threads| && t != to && id in threads[t].owned
    ensures Total(Passed(threads, t, to, id)) == Total(threads)
    ensures Dying(Passed(threads, t, to, id)) == Dying(threads)
  {
    hide Total, Dying, ReferencesOf, IdsOf, With, Without;
    var me, other := Without(threads[t], id), With(threads[to], id);
    OwnedLess(threads[t], id);
    OwnedMore(threads[to], id);
    TotalLess(threads, t, me, id);
    TotalMore(threads[t := me], to, other, multiset{id});
    assert Total(threads) - multiset{id} + multiset{id} == Total(threads);
    DyingSame(threads, t, me);
    DyingSame(threads[t := me], to, other);
  }

  lemma PassKeepsFrames(h: Heap, threads: seq<Thread>, t: nat, to: nat, id: Ref)
    requires t < |threads| && to < |threads| && t != to && FramesFit(h, threads)
    ensures FramesFit(h, Passed(threads, t, to, id))
  {
    hide FramesFit, AtZero;
    SameFrames(h, h, threads, t, Without(threads[t], id));
    SameFrames(h, h, threads[t := Without(threads[t], id)], to, With(threads[to], id));
  }

  lemma PassKeepsInv(s: State, t: nat, to: nat, id: Ref)
    requires Inv(s) && Enabled(s, Pass(t, to, id))
    ensures Inv(Next(s, Pass(t, to, id)))
  {
    hide Conserved, Total, Dying, FramesFit, History, OneFrameEach, Passed;
    PassKeepsTotal(s.threads, t, to, id);
    PassKeepsFrames(s.heap, s.threads, t, to, id);
  }

  lemma OwnedGives(s: State, t: nat, id: Ref)
    requires FramesFit(s.heap, s.threads) && t < |s.threads| && id in s.threads[t].owned
    ensures Gives(s, t, Without(s.threads[t], id), id)
  {
    hide ReferencesOf, IdsOf, StackFits;
    OwnedLess(s.threads[t], id);
  }

  lemma ReleaseSubtracts(s: State, t: nat, id: Ref)
    requires Enabled(s, Release(t, id))
    ensures t < |s.threads| && id in s.threads[t].owned
    ensures Next(s, Release(t, id)) == Subtract(s, t, Without(s.threads[t], id), id)
  {
    hide Subtract;
  }

  lemma ReleaseKeepsInv(s: State, t: nat, id: Ref)
    requires Inv(s) && Enabled(s, Release(t, id))
    ensures Inv(Next(s, Release(t, id)))
  {
    assert FramesFit(s.heap, s.threads);
    hide Inv, Subtract, Gives, FramesFit, Enabled, Next, Without;
    ReleaseSubtracts(s, t, id);
    OwnedGives(s, t, id);
    SubtractKeepsInv(s, t, Without(s.threads[t], id), id);
  }

  lemma NextItem(stack: seq<Frame>)
    requires stack != [] && stack[0].pending != []
    ensures var rest := [stack[0].(pending := stack[0].pending[1..])] + stack[1..];
            && PendingOf(stack) == PendingOf(rest) + multiset{stack[0].pending[0]}
            && IdsOf(stack) == IdsOf(rest)
  {
    var rest := [stack[0].(pending := stack[0].pending[1..])] + stack[1..];
    assert rest[1..] == stack[1..];
    assert stack[0].pending == [stack[0].pending[0]] + stack[0].pending[1..];
  }

  lemma RestFits(h: Heap, frame: Frame)
    requires Fits(h, frame) && frame.pending != []
    ensures Fits(h, frame.(pending := frame.pending[1..]))
  {
  }

  /** The thread that has taken the next item off its top frame. */
  function Advanced(me: Thread): Thread
    requires me.stack != [] && me.stack[0].pending != []
  {
    me.(stack := [me.stack[0].(pending := me.stack[0].pending[1..])] + me.stack[1..])
  }

  lemma AdvancedGives(s: State, t: nat)
    requires FramesFit(s.heap, s.threads) && Enabled(s, ReleaseNext(t))
    ensures Gives(s, t, Advanced(s.threads[t]), s.threads[t].stack[0].pending[0])
  {
    var stack, me := s.threads[t].stack, Advanced(s.threads[t]);
    NextItem(stack);
    forall k | 0 <= k < |me.stack| ensures Fits(s.heap, me.stack[k]) {
      assert Fits(s.heap, stack[k]);
      if k == 0 { RestFits(s.heap, stack[0]); }
    }
  }

  lemma ReleaseNextKeepsInv(s: State, t: nat)
    requires Inv(s) && Enabled(s, ReleaseNext(t))
    ensures Inv(Next(s, ReleaseNext(t)))
  {
    assert FramesFit(s.heap, s.threads);
    hide Inv, Subtract, Gives, FramesFit;
    AdvancedGives(s, t);
    SubtractKeepsInv(s, t, Advanced(s.threads[t]), s.threads[t].stack[0].pending[0]);
  }

  lemma TopIsDying(s: State, t: nat)
    requires Inv(s) && t < |s.threads| && s.threads[t].stack != []
    ensures AtZero(s.heap, s.threads[t].stack[0].id) && Dying(s.threads)[s.threads[t].stack[0].id] == 1
  {
    hide Conserved, Total, Dying;
    FrameIsDying(s.threads, t, 0);
  }

  lemma PopFrame(me: Thread)
    requires me.stack != [] && me.stack[0].pending == []
    ensures ReferencesOf(me.(stack := me.stack[1..])) == ReferencesOf(me)
    ensures IdsOf(me.stack) == multiset{me.stack[0].id} + IdsOf(me.stack[1..])
  {
  }

  /** The books after a deallocation. */
  lemma {:induction false} DeallocatedBooks(h: Heap, threads: seq<Thread>, t: nat)
    requires Conserved(h, Total(threads), NoHole) && t < |threads|
    requires threads[t].stack != [] && threads[t].stack[0].pending == [] && AtZero(h, threads[t].stack[0].id)
    ensures var h', total' := h - {threads[t].stack[0].id}, Total(Popped(threads, t));
            Conserved(h', total', NoHole) && Outstanding(h', total') == Outstanding(h, Total(threads))
  {
    hide Conserved, Total, Outstanding, ReferencesOf, IdsOf, AtZero;
    PopFrame(threads[t]);
    AfterDeallocate(h, Total(threads), NoHole, threads[t].stack[0].id);
    TotalSame(threads, t, threads[t].(stack := threads[t].stack[1..]));
  }

  lemma DeallocatedShape(
      h: Heap, id: Ref, dying: multiset<Ref>, used: set<Ref>, torn: multiset<Ref>, freed: multiset<Ref>)
    requires OneFrameEach(h, dying) && History(h, used, torn, freed) && AtZero(h, id)
    ensures OneFrameEach(h - {id}, dying - multiset{id}) && History(h - {id}, used, torn, freed + multiset{id})
  {
    assert dying[id] == 1 && id !in freed;
  }

  lemma DeallocatedFits(h: Heap, threads: seq<Thread>, t: nat)
    requires FramesFit(h, threads) && t < |threads| && threads[t].stack != []
    ensures FramesFit(h - {threads[t].stack[0].id}, Popped(threads, t))
  {
    hide Dying;
    var me, h' := threads[t], h - {threads[t].stack[0].id};
    StackStillFits(h, h', threads, t);
    assert forall k :: 0 <= k < |me.stack[1..]| ==> me.stack[1..][k] == me.stack[k + 1];
    hide FramesFit;
    FramesStillFit(h, h', threads, t, me.(stack := me.stack[1..]));
  }

  lemma DeallocatedDying(threads: seq<Thread>, t: nat)
    requires t < |threads| && threads[t].stack != [] && threads[t].stack[0].pending == []
    ensures Dying(Popped(threads, t)) == Dying(threads) - multiset{threads[t].stack[0].id}
  {
    hide Dying, IdsOf, ReferencesOf;
    PopFrame(threads[t]);
    DyingLess(threads, t, threads[t].(stack := threads[t].stack[1..]), threads[t].stack[0].id);
  }

  lemma DeallocateIs(s: State, t: nat)
    requires Enabled(s, Deallocate(t))
    ensures t < |s.threads| && s.threads[t].stack != [] && s.threads[t].stack[0].pending == []
    ensures var id := s.threads[t].stack[0].id;
            Next(s, Deallocate(t)) ==
            State(s.heap - {id}, Popped(s.threads, t), s.status, s.used, s.torn, s.freed + multiset{id})
  {
    hide Popped;
  }

  lemma DeallocateKeepsInv(s: State, t: nat)
    requires Inv(s) && Enabled(s, Deallocate(t))
    ensures Inv(Next(s, Deallocate(t)))
  {
    hide Conserved, Total, Dying, Outstanding, History, OneFrameEach, FramesFit, AtZero, Popped, Next, Enabled;
    DeallocateIs(s, t);
    TopIsDying(s, t);
    DeallocatedBooks(s.heap, s.threads, t);
    DeallocatedDying(s.threads, t);
    DeallocatedShape(s.heap, s.threads[t].stack[0].id, Dying(s.threads), s.used, s.torn, s.freed);
    DeallocatedFits(s.heap, s.threads, t);
  }

  lemma StepKeepsInv(s: State, step: Step)
    requires Inv(s) && Enabled(s, step)
    ensures Inv(Next(s, step))
  {
    match step
    case Create(t, id) => CreateKeepsInv(s, t, id);
    case Retain(t, id) =>
      OwnedIsThere(s, t, id);
      AddKeepsInv(s, t, id);
    case RetainItem(t, holder, _, id) =>
      OwnedIsThere(s, t, holder);
      ItemIsLive(s.heap, Total(s.threads), holder, id);
      AddKeepsInv(s, t, id);
    case Put(t, holder, value) => PutKeepsInv(s, t, holder, value);
    case Pass(t, to, id) => PassKeepsInv(s, t, to, id);
    case Release(t, id) => ReleaseKeepsInv(s, t, id);
    case ReleaseNext(t) => ReleaseNextKeepsInv(s, t);
    case Deallocate(t) => DeallocateKeepsInv(s, t);
  }

  /** No step reads or writes an object that is not there. */
  lemma StepTouchesLive(s: State, step: Step)
    requires Inv(s) && Enabled(s, step)
    ensures Touched(s, step) <= s.heap.Keys
  {
    hide Conserved, Total, Dying, History, OneFrameEach, FramesFit;
    match step
    case Create(_, _) =>
    case Retain(t, id) => OwnedIsThere(s, t, id);
    case RetainItem(t, holder, _, id) =>
      OwnedIsThere(s, t, holder);
      ItemIsLive(s.heap, Total(s.threads), holder, id);
    case Put(_, _, _) =>
    case Pass(_, _, _) =>
    case Release(t, id) => OwnedIsThere(s, t, id);
    case ReleaseNext(t) =>
      TopIsDying(s, t);
      PendingIsThere(s, t);
    case Deallocate(t) => TopIsDying(s, t);
  }

  lemma PendingInTotal(threads: seq<Thread>, t: nat)
    requires t < |threads| && threads[t].stack != [] && threads[t].stack[0].pending != []
    ensures threads[t].stack[0].pending[0] in Total(threads)
  {
    TotalUpdate(threads, t, threads[t]);
    hide Total;
    NextItem(threads[t].stack);
    assert threads[t].stack[0].pending[0] in ReferencesOf(threads[t]);
  }

  lemma PendingIsThere(s: State, t: nat)
    requires Inv(s) && Enabled(s, ReleaseNext(t))
    ensures s.threads[t].stack[0].pending[0] in s.heap
  {
    var id := s.threads[t].stack[0].pending[0];
    PendingInTotal(s.threads, t);
    hide Conserved, Total, Dying, History, OneFrameEach, FramesFit;
    OwnedIsLive(s.heap, Total(s.threads), NoHole, id);
  }

  // ---- runs ----

  /** Every step of the sequence is possible where it is taken. */
  predicate Possible(s: State, steps: seq<Step>)
    decreases |steps|
  {
    steps != [] ==> Enabled(s, steps[0]) && Possible(Next(s, steps[0]), steps[1..])
  }

  function After(s: State, steps: seq<Step>): State
    requires Possible(s, steps)
    decreases |steps|
  {
    if steps == [] then s else After(Next(s, steps[0]), steps[1..])
  }

  /** Any heap at rest with balanced books, owned by threads of which none is tearing down. */
  ghost predicate Initial(s: State) {
    && s.status.Running? && Conserved(s.heap, Total(s.threads), NoHole) && AtRest(s.heap)
    && (forall t :: 0 <= t < |s.threads| ==> s.threads[t].stack == [])
    && s.used == s.heap.Keys && s.torn == multiset{} && s.freed == multiset{}
  }

  /** Threads that own nothing and an empty heap start so; all else can be created from there. */
  lemma EmptyIsInitial(threads: seq<Thread>)
    requires forall t :: 0 <= t < |threads| ==> threads[t] == Thread(multiset{}, [])
    ensures Initial(State(map[], threads, Running, {}, multiset{}, multiset{}))
  {
    NothingOwned(threads);
    assert Refs(map[]) == multiset{};
  }

  lemma {:induction false} NobodyDying(threads: seq<Thread>)
    requires forall t :: 0 <= t < |threads| ==> threads[t].stack == []
    ensures Dying(threads) == multiset{}
  {
    if threads == [] {
    } else {
      NobodyDying(threads[1..]);
    }
  }

  lemma InitialInv(s: State)
    requires Initial(s)
    ensures Inv(s)
  {
    hide Conserved, Total;
    NobodyDying(s.threads);
  }

  lemma {:induction false} RunKeepsInv(s: State, steps: seq<Step>)
    requires Inv(s) && Possible(s, steps)
    ensures Inv(After(s, steps))
    decreases |steps|
  {
    hide Inv, Enabled, Next;
    if steps == [] {
    } else {
      StepKeepsInv(s, steps[0]);
      RunKeepsInv(Next(s, steps[0]), steps[1..]);
    }
  }

  /**
    In every interleaving, at every moment: no subtract has underflowed or met a freed object; every
    count is what the threads own, what their teardowns still have to release, and what live objects
    hold; no object has been torn down or deallocated twice, none deallocated without its last
    release, and none is allocated after its deallocation.
   */
  lemma EveryRunIsSafe(s: State, steps: seq<Step>)
    requires Initial(s) && Possible(s, steps)
    ensures var e := After(s, steps);
            && e.status.Running?
            && (forall x :: x in e.heap && e.heap[x].Counted? ==>
                  e.heap[x].count == Total(e.threads)[x] + Refs(e.heap)[x])
            && (forall x :: e.torn[x] <= 1 && e.freed[x] <= e.torn[x])
            && (forall x :: x in e.freed ==> x !in e.heap)
  {
    hide After, Initial, Total, Dying, Refs;
    InitialInv(s);
    RunKeepsInv(s, steps);
  }

  /** No step of any interleaving touches a freed object. */
  lemma NothingFreedIsTouched(s: State, steps: seq<Step>, step: Step)
    requires Initial(s) && Possible(s, steps) && Enabled(After(s, steps), step)
    ensures Touched(After(s, steps), step) <= After(s, steps).heap.Keys
  {
    hide Inv, Initial, After, Enabled;
    InitialInv(s);
    RunKeepsInv(s, steps);
    StepTouchesLive(After(s, steps), step);
  }

  /** Once all threads are done and own nothing, an acyclic heap has no counted object left. */
  lemma QuietHeapIsEmpty(s: State, steps: seq<Step>)
    requires Initial(s) && Possible(s, steps)
    ensures var e := After(s, steps);
            (forall t :: 0 <= t < |e.threads| ==> e.threads[t] == Thread(multiset{}, [])) && Acyclic(e.heap) ==>
              forall x :: x in e.heap ==> e.heap[x].Static?
  {
    hide Initial, After, Inv, Acyclic;
    var e := After(s, steps);
    InitialInv(s);
    RunKeepsInv(s, steps);
    if (forall t :: 0 <= t < |e.threads| ==> e.threads[t] == Thread(multiset{}, [])) && Acyclic(e.heap) {
      forall x | x in e.heap ensures e.heap[x].Static? { QuietIsStatic(e, x); }
    }
  }

  lemma QuietIsStatic(e: State, x: Ref)
    requires Inv(e) && Acyclic(e.heap) && x in e.heap
    requires forall t :: 0 <= t < |e.threads| ==> e.threads[t] == Thread(multiset{}, [])
    ensures e.heap[x].Static?
  {
    hide Conserved, Total, Dying, Acyclic, History, FramesFit;
    NobodyDying(e.threads);
    NothingOwned(e.threads);
    NoneAtZero(e.heap, multiset{});
    if e.heap[x].Counted? { AcyclicNoLeak(e.heap, multiset{}, x); }
  }

  lemma NoneAtZero(h: Heap, owners: multiset<Ref>)
    requires Conserved(h, owners, NoHole) && forall x :: x in h ==> !AtZero(h, x)
    ensures AtRest(h)
  {
    hide Refs;
    forall x | x in h ensures IsLive(h[x]) { assert !AtZero(h, x); }
  }

  lemma {:induction false} NothingOwned(threads: seq<Thread>)
    requires forall t :: 0 <= t < |threads| ==> threads[t] == Thread(multiset{}, [])
    ensures Total(threads) == multiset{}
  {
    if threads == [] {
    } else {
      NothingOwned(threads[1..]);
    }
  }

  /** A teardown can always go on, and it comes to an end: each step leaves fewer references or objects. */
  lemma TeardownGoesOn(s: State, t: nat) returns (step: Step)
    requires Inv(s) && t < |s.threads| && s.threads[t].stack != []
    ensures step.t == t && Enabled(s, step) && (step.ReleaseNext? || step.Deallocate?)
    ensures var e := Next(s, step);
            || Outstanding(e.heap, Total(e.threads)) < Outstanding(s.heap, Total(s.threads))
            || (Outstanding(e.heap, Total(e.threads)) == Outstanding(s.heap, Total(s.threads)) && |e.heap| < |s.heap|)
  {
    hide Total, Outstanding, Subtract, Gives;
    if s.threads[t].stack[0].pending != [] {
      step := ReleaseNext(t);
      AdvancedGives(s, t);
      SubtractKeepsInv(s, t, Advanced(s.threads[t]), s.threads[t].stack[0].pending[0]);
    } else {
      step := Deallocate(t);
      FewerObjects(s, t);
    }
  }

  lemma FewerObjects(s: State, t: nat)
    requires Inv(s) && Enabled(s, Deallocate(t))
    ensures var e := Next(s, Deallocate(t));
            Outstanding(e.heap, Total(e.threads)) == Outstanding(s.heap, Total(s.threads)) && |e.heap| < |s.heap|
  {
    TopIsDying(s, t);
    hide Conserved, Total, Dying, Outstanding, History, OneFrameEach, FramesFit, AtZero;
    DeallocatedBooks(s.heap, s.threads, t);
    assert s.threads[t].stack[0].id in s.heap by { AtZeroIsThere(s.heap, s.threads[t].stack[0].id); }
    OneLess(s.heap, s.threads[t].stack[0].id);
  }

  lemma AtZeroIsThere(h: Heap, id: Ref)
    requires AtZero(h, id)
    ensures id in h
  {
  }

  lemma OneLess(h: Heap, id: Ref)
    requires id in h
    ensures |h - {id}| < |h|
  {
    assert (h - {id}).Keys == h.Keys - {id};
    assert |h.Keys - {id}| < |h.Keys|;
  }

  // ---- what a run does, counted on its steps ----

  lemma {:induction false} PossibleFront(s: State, steps: seq<Step>, x: Step)
    requires Possible(s, steps + [x])
    ensures Possible(s, steps) && Enabled(After(s, steps), x)
    ensures After(s, steps + [x]) == Next(After(s, steps), x)
    decreases |steps|
  {
    hide Enabled, Next;
    if steps == [] {
      assert (steps + [x])[0] == x && (steps + [x])[1..] == [];
    } else {
      assert (steps + [x])[0] == steps[0] && (steps + [x])[1..] == steps[1..] + [x];
      PossibleFront(Next(s, steps[0]), steps[1..], x);
    }
  }

  /** The subtract from a live object leaves the other threads, the owned references and the items alone. */
  lemma SubtractLeaves(s: State, t: nat, me: Thread, id: Ref)
    requires t < |s.threads| && id in s.heap && (s.heap[id].Counted? ==> s.heap[id].count > 0)
    ensures var e := Subtract(s, t, me, id);
            && |e.threads| == |s.threads| && e.threads[t].owned == me.owned
            && (forall u :: 0 <= u < |s.threads| && u != t ==> e.threads[u] == s.threads[u])
            && e.used == s.used && e.freed == s.freed && SameItems(s.heap, e.heap)
  {
  }

  /** The same objects, with the same items. */
  predicate SameItems(h: Heap, h': Heap) {
    h'.Keys == h.Keys && forall x :: x in h ==> Edges(h'[x]) == Edges(h[x])
  }

  predicate Gains(x: Step, t: nat, id: Ref) {
    || (x.t == t && (x.Create? || x.Retain? || x.RetainItem?) && x.id == id)
    || (x.Pass? && x.to == t && x.id == id)
  }

  predicate Loses(x: Step, t: nat, id: Ref) {
    x.t == t && ((x.Put? && x.value == id) || ((x.Pass? || x.Release?) && x.id == id))
  }

  ghost predicate OwnedAfter(s: State, x: Step, e: State, t: nat, id: Ref) {
    && t < |s.threads| && |e.threads| == |s.threads|
    && e.threads[t].owned[id] + (if Loses(x, t, id) then 1 else 0) ==
       s.threads[t].owned[id] + (if Gains(x, t, id) then 1 else 0)
  }

  lemma GainOwned(s: State, x: Step, t: nat, id: Ref)
    requires Enabled(s, x) && t < |s.threads| && (x.Create? || x.Retain? || x.RetainItem?)
    requires x.Create? || x.id in s.heap
    ensures OwnedAfter(s, x, Next(s, x), t, id)
  {
  }

  lemma PutOwned(s: State, x: Step, t: nat, id: Ref)
    requires Enabled(s, x) && t < |s.threads| && x.Put?
    ensures OwnedAfter(s, x, Next(s, x), t, id)
  {
  }

  lemma PassOwned(s: State, x: Step, t: nat, id: Ref)
    requires Enabled(s, x) && t < |s.threads| && x.Pass?
    ensures OwnedAfter(s, x, Next(s, x), t, id)
  {
  }

  lemma ReleaseOwned(s: State, x: Step, t: nat, id: Ref)
    requires Enabled(s, x) && t < |s.threads| && x.Release?
    requires x.id in s.heap && (s.heap[x.id].Counted? ==> s.heap[x.id].count > 0)
    ensures OwnedAfter(s, x, Next(s, x), t, id)
  {
    ReleaseSubtracts(s, x.t, x.id);
    hide Subtract, SameItems, Next;
    SubtractLeaves(s, x.t, Without(s.threads[x.t], x.id), x.id);
  }

  lemma TeardownOwned(s: State, x: Step, t: nat, id: Ref)
    requires Enabled(s, x) && t < |s.threads| && (x.ReleaseNext? || x.Deallocate?)
    requires x.ReleaseNext? ==>
               var y := s.threads[x.t].stack[0].pending[0];
               y in s.heap && (s.heap[y].Counted? ==> s.heap[y].count > 0)
    ensures OwnedAfter(s, x, Next(s, x), t, id)
  {
    hide Subtract, SameItems;
    if x.ReleaseNext? { SubtractLeaves(s, x.t, Advanced(s.threads[x.t]), s.threads[x.t].stack[0].pending[0]); }
  }

  /** What is subtracted from is alive. */
  lemma SubtractedIsLive(s: State, x: Step)
    requires Inv(s) && Enabled(s, x)
    ensures x.Release? ==> x.id in s.heap && (s.heap[x.id].Counted? ==> s.heap[x.id].count > 0)
    ensures x.ReleaseNext? ==>
              var y := s.threads[x.t].stack[0].pending[0];
              y in s.heap && (s.heap[y].Counted? ==> s.heap[y].count > 0)
  {
    assert FramesFit(s.heap, s.threads);
    hide Inv, Gives, FramesFit;
    if x.Release? {
      OwnedGives(s, x.t, x.id);
      GivenIsLive(s, x.t, Without(s.threads[x.t], x.id), x.id);
    } else if x.ReleaseNext? {
      AdvancedGives(s, x.t);
      GivenIsLive(s, x.t, Advanced(s.threads[x.t]), s.threads[x.t].stack[0].pending[0]);
    }
  }

  /** The effect of one step on what a thread owns. */
  lemma StepOwned(s: State, x: Step, t: nat, id: Ref)
    requires Inv(s) && Enabled(s, x) && t < |s.threads|
    ensures OwnedAfter(s, x, Next(s, x), t, id)
  {
    StepTouchesLive(s, x);
    SubtractedIsLive(s, x);
    hide Inv, OwnedAfter, Next;
    match x
    case Create(_, _) => GainOwned(s, x, t, id);
    case Retain(_, _) => GainOwned(s, x, t, id);
    case RetainItem(_, _, _, _) => GainOwned(s, x, t, id);
    case Put(_, _, _) => PutOwned(s, x, t, id);
    case Pass(_, _, _) => PassOwned(s, x, t, id);
    case Release(_, _) => ReleaseOwned(s, x, t, id);
    case ReleaseNext(_) => TeardownOwned(s, x, t, id);
    case Deallocate(_) => TeardownOwned(s, x, t, id);
  }

  /**
    Over any possible run a thread has of every object the references it started with, one more for
    each that it created, retained or was passed, and one less for each that it put into an array,
    passed on or released.
   */
  lemma {:induction false} RunOwned(s: State, steps: seq<Step>, t: nat, id: Ref)
    requires Initial(s) && Possible(s, steps) && t < |s.threads|
    ensures |After(s, steps).threads| == |s.threads|
    ensures After(s, steps).threads[t].owned[id] +
            Number(steps, (x: Step) =>
              x.t == t && ((x.Put? && x.value == id) || ((x.Pass? || x.Release?) && x.id == id))) ==
            s.threads[t].owned[id] +
            Number(steps, (x: Step) =>
              || (x.t == t && (x.Create? || x.Retain? || x.RetainItem?) && x.id == id)
              || (x.Pass? && x.to == t && x.id == id))
    decreases |steps|
  {
    hide Inv, Enabled, Next, Initial;
    if steps == [] {
    } else {
      var n := |steps| - 1;
      var init, x := steps[..n], steps[n];
      assert steps == init + [x];
      PossibleFront(s, init, x);
      RunOwned(s, init, t, id);
      InitialInv(s);
      RunKeepsInv(s, init);
      StepOwned(After(s, init), x, t, id);
    }
  }

  /** The effect of one step on the objects: which there are, and what they hold. */
  ghost predicate ObjectsAfter(s: State, x: Step, e: State) {
    && e.used == s.used + (if x.Create? then {x.id} else {})
    && (forall y :: y in e.heap && y !in s.heap ==> x.Create? && y == x.id && Edges(e.heap[y]) == [])
    && (forall y :: y in e.heap && y in s.heap ==>
          Edges(e.heap[y]) == Edges(s.heap[y]) + if x.Put? && x.holder == y then [x.value] else [])
    && (forall y :: y in s.heap && y !in e.heap ==> y in e.freed)
    && (x.Create? ==> x.id in e.heap) && s.freed <= e.freed && |e.freed| == |s.freed| + if x.Deallocate? then 1 else 0
  }

  lemma CreateObjects(s: State, x: Step)
    requires Enabled(s, x) && x.Create? && x.id !in s.heap
    ensures ObjectsAfter(s, x, Next(s, x))
  {
  }

  lemma AddObjects(s: State, x: Step)
    requires Enabled(s, x) && (x.Retain? || x.RetainItem?) && x.id in s.heap
    ensures ObjectsAfter(s, x, Next(s, x))
  {
  }

  lemma PutObjects(s: State, x: Step)
    requires Enabled(s, x) && x.Put?
    ensures ObjectsAfter(s, x, Next(s, x))
  {
  }

  lemma PassObjects(s: State, x: Step)
    requires Enabled(s, x) && x.Pass?
    ensures ObjectsAfter(s, x, Next(s, x))
  {
    hide Passed;
  }

  lemma DeallocateObjects(s: State, x: Step)
    requires Enabled(s, x) && x.Deallocate?
    ensures ObjectsAfter(s, x, Next(s, x))
  {
    hide Popped;
  }

  lemma SubtractObjects(s: State, x: Step)
    requires Enabled(s, x) && (x.Release? || x.ReleaseNext?)
    requires x.Release? ==> x.id in s.heap && (s.heap[x.id].Counted? ==> s.heap[x.id].count > 0)
    requires x.ReleaseNext? ==>
               var y := s.threads[x.t].stack[0].pending[0];
               y in s.heap && (s.heap[y].Counted? ==> s.heap[y].count > 0)
    ensures ObjectsAfter(s, x, Next(s, x))
  {
    hide Subtract;
    if x.Release? {
      SubtractLeaves(s, x.t, Without(s.threads[x.t], x.id), x.id);
    } else {
      SubtractLeaves(s, x.t, Advanced(s.threads[x.t]), s.threads[x.t].stack[0].pending[0]);
    }
  }

  lemma StepObjects(s: State, x: Step)
    requires Inv(s) && Enabled(s, x)
    ensures ObjectsAfter(s, x, Next(s, x))
  {
    StepTouchesLive(s, x);
    SubtractedIsLive(s, x);
    if x.Create? { NewIsNotThere(s, x.id); }
    hide Inv, ObjectsAfter, Next;
    match x
    case Create(_, _) => CreateObjects(s, x);
    case Retain(_, _) => AddObjects(s, x);
    case RetainItem(_, _, _, _) => AddObjects(s, x);
    case Put(_, _, _) => PutObjects(s, x);
    case Pass(_, _, _) => PassObjects(s, x);
    case Release(_, _) => SubtractObjects(s, x);
    case ReleaseNext(_) => SubtractObjects(s, x);
    case Deallocate(_) => DeallocateObjects(s, x);
  }

  /** Items are put into objects that were there before. */
  lemma {:induction false} PutsAreUsed(s: State, steps: seq<Step>, y: Ref, v: Ref)
    requires Initial(s) && Possible(s, steps) && y !in After(s, steps).used
    ensures y !in s.heap && Number(steps, (x: Step) => x.Put? && x.holder == y && x.value == v) == 0
    decreases |steps|
  {
    hide Inv, Next, Initial, Enabled;
    if steps == [] {
      StartObjects(s);
    } else {
      var n := |steps| - 1;
      var init, x := steps[..n], steps[n];
      assert steps == init + [x];
      PossibleFront(s, init, x);
      InitialInv(s);
      RunKeepsInv(s, init);
      StepObjects(After(s, init), x);
      PutsAreUsed(s, init, y, v);
      if x.Put? { PutIsThere(After(s, init), x); }
    }
  }

  lemma PutIsThere(s: State, x: Step)
    requires Inv(s) && Enabled(s, x) && x.Put?
    ensures x.holder in s.used
  {
    hide Conserved, OneFrameEach, FramesFit;
  }

  lemma StartObjects(s: State)
    requires Initial(s)
    ensures s.used == s.heap.Keys && s.freed == multiset{}
  {
    hide Conserved, AtRest;
  }

  /** An object grows by the item that is put into it, and a created one is empty. */
  lemma ItemsAfter(d: State, x: Step, y: Ref, v: Ref)
    requires Enabled(d, x) && ObjectsAfter(d, x, Next(d, x)) && y in Next(d, x).heap
    ensures y in d.heap ==>
              && Edges(d.heap[y]) <= Edges(Next(d, x).heap[y])
              && multiset(Edges(Next(d, x).heap[y]))[v] ==
                 multiset(Edges(d.heap[y]))[v] + if x.Put? && x.holder == y && x.value == v then 1 else 0
    ensures y !in d.heap ==> x.Create? && x.id == y && y !in d.used && Edges(Next(d, x).heap[y]) == []
  {
    hide Next;
  }

  /**
    Over any possible run an object that is still there holds what it held at the start, or nothing
    if it was created, followed by the items that were put into it.
   */
  lemma {:induction false} RunItems(s: State, steps: seq<Step>, y: Ref, v: Ref)
    requires Initial(s) && Possible(s, steps) && y in After(s, steps).heap
    ensures var start := if y in s.heap then Edges(s.heap[y]) else [];
            var items := Edges(After(s, steps).heap[y]);
            && start <= items
            && multiset(items)[v] ==
               multiset(start)[v] + Number(steps, (x: Step) => x.Put? && x.holder == y && x.value == v)
    decreases |steps|
  {
    hide Inv, Next, Initial, Enabled, ObjectsAfter, Edges;
    if steps == [] {
    } else {
      var n := |steps| - 1;
      var init, x := steps[..n], steps[n];
      assert steps == init + [x];
      PossibleFront(s, init, x);
      InitialInv(s);
      RunKeepsInv(s, init);
      StepObjects(After(s, init), x);
      ItemsAfter(After(s, init), x, y, v);
      if y in After(s, init).heap { RunItems(s, init, y, v); } else { PutsAreUsed(s, init, y, v); }
    }
  }

  lemma UsedAfter(d: State, x: Step, y: Ref)
    requires Inv(d) && Enabled(d, x) && ObjectsAfter(d, x, Next(d, x))
    requires y in d.used <==> y in d.heap || y in d.freed
    ensures y in Next(d, x).used <==> y in d.used || (x.Create? && x.id == y)
    ensures y in Next(d, x).used <==> y in Next(d, x).heap || y in Next(d, x).freed
    ensures |Next(d, x).freed| == |d.freed| + if x.Deallocate? then 1 else 0
  {
    hide Inv, Next, Enabled;
    StepKeepsInv(d, x);
    FreedIsUsed(Next(d, x), y);
  }

  lemma FreedIsUsed(s: State, y: Ref)
    requires Inv(s)
    ensures y in s.heap || y in s.freed ==> y in s.used
  {
    hide Conserved, OneFrameEach, FramesFit;
  }

  /**
    Over any possible run the objects that have been there are those of the start and the created
    ones, each of them is there or has been freed, and there are as many frees as deallocations.
   */
  lemma {:induction false} RunObjects(s: State, steps: seq<Step>, y: Ref)
    requires Initial(s) && Possible(s, steps)
    ensures var e := After(s, steps);
            && (y in e.used <==> y in s.heap || Number(steps, (x: Step) => x.Create? && x.id == y) > 0)
            && (y in e.used <==> y in e.heap || y in e.freed)
            && |e.freed| == Number(steps, (x: Step) => x.Deallocate?)
    decreases |steps|
  {
    hide Inv, Next, Initial, Enabled, ObjectsAfter;
    if steps == [] {
      StartObjects(s);
    } else {
      var n := |steps| - 1;
      var init, x := steps[..n], steps[n];
      assert steps == init + [x];
      PossibleFront(s, init, x);
      InitialInv(s);
      RunKeepsInv(s, init);
      RunObjects(s, init, y);
      StepObjects(After(s, init), x);
      UsedAfter(After(s, init), x, y);
    }
  }

  /** A thread between calls may use what it owns, and what an array that it owns holds. */
  lemma OwnersMayAct(s: State, t: nat, to: nat, id: Ref, holder: Ref, index: nat, new_: Ref)
    requires s.status.Running? && t < |s.threads| && s.threads[t].stack == [] && id in s.threads[t].owned
    ensures Enabled(s, Retain(t, id)) && Enabled(s, Release(t, id))
    ensures to < |s.threads| && to != t ==> Enabled(s, Pass(t, to, id))
    ensures new_ !in s.used ==> Enabled(s, Create(t, new_))
    ensures holder in s.threads[t].owned && holder in s.heap && s.heap[holder].Counted? ==>
              && Enabled(s, Put(t, holder, id))
              && (index < |s.heap[holder].holds| ==>
                    Enabled(s, RetainItem(t, holder, index, s.heap[holder].holds[index])))
  {
  }
}
