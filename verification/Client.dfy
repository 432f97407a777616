/**
  Whole runs of a client that keeps track of the references it owns: creating objects, retaining
  and releasing them, and putting them into and taking them out of arrays. It gives up only what it
  owns; arrays and items may be borrowed. A run is said on values first, and the runtime follows it.
 */
module Clients {
  import opened ReferenceCounting
  import opened Cascades
  import opened Reachability
  import opened Runtimes

  datatype Call =
    | New(id: Ref)
    | Keep(id: Ref)
    | Drop(id: Ref)
    | Store(holder: Ref, value: Ref, writable: bool)
    | Take(holder: Ref, index: int, isMutable: bool)

  /** A call on objects that are there; references are given up by their owner. Others are not made. */
  predicate Usable(h: Heap, mine: multiset<Ref>, call: Call) {
    match call
    case New(id) => id !in h
    case Keep(id) => id in h
    case Drop(id) => id in mine
    case Store(holder, value, _) => holder in h && h[holder].Counted? && value in h
    case Take(holder, _, _) => holder in h && h[holder].Counted?
  }

  /** Which calls are made. */
  lemma UsableIs(h: Heap, mine: multiset<Ref>, id: Ref, holder: Ref, index: int, flag: bool)
    ensures Usable(h, mine, New(id)) <==> id !in h
    ensures Usable(h, mine, Keep(id)) <==> id in h
    ensures Usable(h, mine, Drop(id)) <==> id in mine
    ensures Usable(h, mine, Store(holder, id, flag)) <==> holder in h && h[holder].Counted? && id in h
    ensures Usable(h, mine, Take(holder, index, flag)) <==> holder in h && h[holder].Counted?
  {
  }

  predicate Takes(h: Heap, call: Call) {
    call.Take? && call.isMutable && call.holder in h && h[call.holder].Counted? &&
    0 <= call.index < |h[call.holder].holds|
  }

  /** The guard: an array that an item is taken out of is supported. */
  ghost predicate Safe(h: Heap, mine: multiset<Ref>, call: Call) {
    Takes(h, call) ==> Supported(h, mine, call.holder, h[call.holder].holds[call.index])
  }

  /** The references the client holds after a call. */
  function HoldingAfter(mine: multiset<Ref>, call: Call): multiset<Ref> {
    match call
    case New(id) => mine + multiset{id}
    case Keep(id) => mine + multiset{id}
    case Drop(id) => mine - multiset{id}
    case Store(_, _, _) => mine
    case Take(_, _, _) => mine
  }

  /** The heap after a release that ends well. */
  ghost function Released(h: Heap, id: Ref, fuel: nat): Heap {
    var t := RunRelease(h, id, fuel);
    if t.Fine? then t.heap else h
  }

  ghost function Taken(h: Heap, holder: Ref, index: nat, fuel: nat): Heap
    requires holder in h && h[holder].Counted? && index < |h[holder].holds|
  {
    var left := Released(h, h[holder].holds[index], fuel);
    if holder in left && left[holder].Counted? && index < |left[holder].holds|
    then Closed(left, holder, index)
    else left
  }

  /** The heap after a usable and safe call. */
  ghost function HeapAfter(h: Heap, mine: multiset<Ref>, call: Call): Heap
    requires Usable(h, mine, call)
  {
    match call
    case New(id) => h[id := Counted(1, [])]
    case Keep(id) => h[id := Retained(h[id])]
    case Drop(id) => Released(h, id, Outstanding(h, mine))
    case Store(holder, value, writable) =>
      var kept := h[value := Retained(h[value])];
      if writable then kept[holder := kept[holder].(holds := kept[holder].holds + [value])] else h
    case Take(holder, index, _) => if Takes(h, call) then Taken(h, holder, index, Outstanding(h, mine) + 1) else h
  }

  /** Every call that is made meets the guard where it is made. */
  ghost predicate SafeRun(h: Heap, mine: multiset<Ref>, calls: seq<Call>)
    decreases |calls|
  {
    calls == [] ||
    if Usable(h, mine, calls[0])
    then Safe(h, mine, calls[0]) &&
         SafeRun(HeapAfter(h, mine, calls[0]), HoldingAfter(mine, calls[0]), calls[1..])
    else SafeRun(h, mine, calls[1..])
  }

  /** The heap and the holdings at the end of a safe run. */
  ghost function AfterRun(h: Heap, mine: multiset<Ref>, calls: seq<Call>): (Heap, multiset<Ref>)
    decreases |calls|
  {
    if calls == [] then (h, mine)
    else if Usable(h, mine, calls[0])
    then AfterRun(HeapAfter(h, mine, calls[0]), HoldingAfter(mine, calls[0]), calls[1..])
    else AfterRun(h, mine, calls[1..])
  }

  /** A run makes every usable call, one after the other. */
  lemma RunIs(h: Heap, mine: multiset<Ref>, call: Call, rest: seq<Call>)
    ensures SafeRun(h, mine, []) && AfterRun(h, mine, []) == (h, mine)
    ensures Usable(h, mine, call) ==>
              var h', mine' := HeapAfter(h, mine, call), HoldingAfter(mine, call);
              && (SafeRun(h, mine, [call] + rest) <==> Safe(h, mine, call) && SafeRun(h', mine', rest))
              && AfterRun(h, mine, [call] + rest) == AfterRun(h', mine', rest)
    ensures !Usable(h, mine, call) ==>
              && (SafeRun(h, mine, [call] + rest) <==> SafeRun(h, mine, rest))
              && AfterRun(h, mine, [call] + rest) == AfterRun(h, mine, rest)
  {
    hide Safe, HeapAfter, HoldingAfter, Usable;
    assert ([call] + rest)[1..] == rest;
  }

  /** A call is safe unless it takes an item out of an array that nothing supports. */
  lemma SafeIs(h: Heap, mine: multiset<Ref>, call: Call)
    ensures Safe(h, mine, call) <==>
            call.Take? && call.isMutable && call.holder in h && h[call.holder].Counted? &&
            0 <= call.index < |h[call.holder].holds| ==>
              Supported(h, mine, call.holder, h[call.holder].holds[call.index])
  {
  }

  ghost predicate Lawful(h: Heap, mine: multiset<Ref>) {
    Conserved(h, mine, NoHole) && AtRest(h)
  }

  // ---- one call ----

  lemma ReleaseKeepsLaw(h: Heap, mine: multiset<Ref>, id: Ref)
    requires Lawful(h, mine) && id in mine
    ensures Lawful(Released(h, id, Outstanding(h, mine)), mine - multiset{id})
    ensures OnlyReleased(h, Released(h, id, Outstanding(h, mine)))
  {
    hide Conserved, OnlyReleased, Outstanding, AtRest, RunRelease;
    var t := ReleaseRuns(h, mine, NoHole, [], id);
    assert RunRelease(h, id, Outstanding(h, mine)) == t;
    AtRestAfter(h, t.heap, mine - multiset{id});
  }

  /** What `call` makes of the heap and the holdings is lawful again. */
  ghost predicate KeepsLaw(h: Heap, mine: multiset<Ref>, call: Call)
    requires Usable(h, mine, call)
  {
    Lawful(HeapAfter(h, mine, call), HoldingAfter(mine, call))
  }

  lemma NewKeepsLaw(h: Heap, mine: multiset<Ref>, call: Call)
    requires Lawful(h, mine) && call.New? && Usable(h, mine, call)
    ensures KeepsLaw(h, mine, call)
  {
    hide Conserved;
    AfterCreate(h, mine, call.id);
  }

  lemma KeepKeepsLaw(h: Heap, mine: multiset<Ref>, call: Call)
    requires Lawful(h, mine) && call.Keep? && Usable(h, mine, call)
    ensures KeepsLaw(h, mine, call)
  {
    hide Conserved;
    AfterRetain(h, mine, NoHole, call.id);
  }

  lemma DropKeepsLaw(h: Heap, mine: multiset<Ref>, call: Call)
    requires Lawful(h, mine) && call.Drop? && Usable(h, mine, call)
    ensures KeepsLaw(h, mine, call)
  {
    hide Lawful, Released, Outstanding;
    ReleaseKeepsLaw(h, mine, call.id);
  }

  lemma StoreKeepsLaw(h: Heap, mine: multiset<Ref>, call: Call)
    requires Lawful(h, mine) && call.Store? && Usable(h, mine, call)
    ensures KeepsLaw(h, mine, call)
  {
    hide Conserved;
    if call.writable {
      AfterRetain(h, mine, NoHole, call.value);
      AfterStore(h[call.value := Retained(h[call.value])], mine, call.holder, call.value);
    }
  }

  lemma TakeKeepsLaw(h: Heap, mine: multiset<Ref>, call: Call)
    requires Lawful(h, mine) && call.Take? && Usable(h, mine, call) && Safe(h, mine, call)
    ensures KeepsLaw(h, mine, call)
  {
    hide Conserved, OnlyReleased, Outstanding, Supported, AtRest, RunRelease;
    if Takes(h, call) { RemovalExactly(h, mine, call.holder, call.index, Outstanding(h, mine) + 1); }
  }

  /** A safe call keeps the books balanced and the heap at rest. */
  lemma StepKeepsLaw(h: Heap, mine: multiset<Ref>, call: Call)
    requires Lawful(h, mine) && Usable(h, mine, call) && Safe(h, mine, call)
    ensures Lawful(HeapAfter(h, mine, call), HoldingAfter(mine, call))
  {
    assert KeepsLaw(h, mine, call) by {
      hide Lawful, Usable, Safe, KeepsLaw;
      match call
      case New(_) => NewKeepsLaw(h, mine, call);
      case Keep(_) => KeepKeepsLaw(h, mine, call);
      case Drop(_) => DropKeepsLaw(h, mine, call);
      case Store(_, _, _) => StoreKeepsLaw(h, mine, call);
      case Take(_, _, _) => TakeKeepsLaw(h, mine, call);
    }
  }

  /** One call: it aborts exactly when it is not safe; otherwise the law holds and the heap is as said. */
  method Perform(runtime: Runtime, mine: multiset<Ref>, call: Call) returns (aborted: bool)
    requires runtime.Valid() && AtRest(runtime.heap) && runtime.owners == mine
    requires Usable(runtime.heap, mine, call)
    modifies runtime
    ensures aborted <==> !Safe(old(runtime.heap), mine, call)
    ensures !aborted ==>
              && runtime.Valid() && AtRest(runtime.heap) && runtime.owners == HoldingAfter(mine, call)
              && runtime.heap == HeapAfter(old(runtime.heap), mine, call)
    ensures !aborted ==>
              match call
              case New(id) =>
                id in runtime.heap && runtime.heap[id] == Counted(1, []) && runtime.owners == mine + multiset{id}
              case Keep(id) => id in runtime.heap && runtime.owners == mine + multiset{id}
              case Drop(id) => runtime.owners == mine - multiset{id}
              case Store(holder, value, writable) =>
                && holder in runtime.heap && runtime.heap[holder].Counted? && runtime.owners == mine
                && runtime.heap[holder].holds == old(runtime.heap)[holder].holds + if writable then [value] else []
              case Take(holder, index, isMutable) =>
                && holder in runtime.heap && runtime.heap[holder].Counted? && runtime.owners == mine
                && var holds := old(runtime.heap)[holder].holds;
                   runtime.heap[holder].holds ==
                   if isMutable && 0 <= index < |holds| then holds[..index] + holds[index + 1..] else holds
  {
    hide Conserved, OnlyReleased, Outstanding, Supported, RunRelease, AtRest, Closed;
    ghost var h := runtime.heap;
    aborted := false;
    match call {
      case New(id) => runtime.Create(id);
      case Keep(id) =>
        LiveAtRest(h, id);
        runtime.Retain(id);
      case Drop(id) =>
        var outcome := runtime.Release(id);
        assert RunRelease(h, id, Outstanding(h, mine)) == Fine(runtime.heap);
      case Store(holder, value, writable) =>
        LiveAtRest(h, holder);
        LiveAtRest(h, value);
        var ok := runtime.ArrayAppend(holder, value, writable);
      case Take(holder, index, isMutable) =>
        LiveAtRest(h, holder);
        aborted := runtime.ArrayRemoveAt(holder, index, isMutable);
    }
    if !aborted { StepKeepsLaw(h, mine, call); }
  }

  // ---- whole runs ----

  /** Without owners and without cycles no counted object is left. */
  lemma NothingLeft(h: Heap, x: Ref)
    requires Conserved(h, multiset{}, NoHole) && AtRest(h) && Acyclic(h) && x in h
    ensures h[x].Static?
  {
    hide Conserved;
    if h[x].Counted? {
      AcyclicNoLeak(h, multiset{}, x);
      assert false;
    }
  }

  /**
    Any sequence of calls. The run aborts exactly when it takes an item out of an array that nothing
    supports. Otherwise every count is exact in the end, the client's references are all good, and on
    an acyclic heap every counted object is one that the client still reaches.
   */
  method RunClient(calls: seq<Call>) returns (runtime: Runtime, mine: multiset<Ref>, aborted: bool)
    ensures fresh(runtime) && (aborted <==> !SafeRun(map[], multiset{}, calls))
    ensures !aborted ==>
              && runtime.Valid() && AtRest(runtime.heap) && runtime.owners == mine
              && (runtime.heap, mine) == AfterRun(map[], multiset{}, calls)
              && (forall x :: x in mine ==> x in runtime.heap)
              && (Acyclic(runtime.heap) ==>
                    forall x :: x in runtime.heap && runtime.heap[x].Counted? ==> Reachable(runtime.heap, mine, x))
              && (mine == multiset{} && Acyclic(runtime.heap) ==>
                    forall x :: x in runtime.heap ==> runtime.heap[x].Static?)
  {
    hide Conserved, Safe, HeapAfter, Acyclic, Reachable;
    runtime := new Runtime();
    mine, aborted := multiset{}, false;
    assert calls[0..] == calls;
    for i := 0 to |calls|
      invariant fresh(runtime) && runtime.Valid() && AtRest(runtime.heap) && runtime.owners == mine
      invariant SafeRun(runtime.heap, mine, calls[i..]) == SafeRun(map[], multiset{}, calls)
      invariant AfterRun(runtime.heap, mine, calls[i..]) == AfterRun(map[], multiset{}, calls)
    {
      assert calls[i..][0] == calls[i] && calls[i..][1..] == calls[i + 1..];
      if Usable(runtime.heap, mine, calls[i]) {
        aborted := Perform(runtime, mine, calls[i]);
        if aborted { return; }
        mine := HoldingAfter(mine, calls[i]);
      }
    }
    forall x | x in mine ensures x in runtime.heap { OwnedIsLive(runtime.heap, mine, NoHole, x); }
    if Acyclic(runtime.heap) {
      forall x | x in runtime.heap && runtime.heap[x].Counted? ensures Reachable(runtime.heap, mine, x) {
        AcyclicNoLeak(runtime.heap, mine, x);
      }
      if mine == multiset{} {
        forall x | x in runtime.heap ensures runtime.heap[x].Static? { NothingLeft(runtime.heap, x); }
      }
    }
  }

  // ---- clients that are safe ----

  /** Taking out of an array that the client reaches from its own references is safe on any graph. */
  lemma TakingFromReachableIsSafe(h: Heap, mine: multiset<Ref>, call: Call)
    requires AtRest(h) && Takes(h, call) && Reachable(h, mine, call.holder)
    ensures Safe(h, mine, call)
  {
    ReachableIsSupported(h, mine, call.holder, h[call.holder].holds[call.index]);
  }

  lemma NestedAfterStore(h: Heap, rank: Ref -> nat, holder: Ref, value: Ref)
    requires Nested(h, rank) && holder in h && h[holder].Counted? && value in h && rank(value) < rank(holder)
    ensures var m := h[value := Retained(h[value])];
            Nested(m[holder := m[holder].(holds := m[holder].holds + [value])], rank)
  {
    var m := h[value := Retained(h[value])];
    var h' := m[holder := m[holder].(holds := m[holder].holds + [value])];
    forall x, y | x in h' && y in Edges(h'[x]) ensures rank(y) < rank(x) {
      if x == holder { assert y == value || y in Edges(h[holder]); } else { assert y in Edges(h[x]); }
    }
  }

  lemma NestedAfterClose(h: Heap, rank: Ref -> nat, holder: Ref, index: nat)
    requires Nested(h, rank) && holder in h && h[holder].Counted? && index < |h[holder].holds|
    ensures Nested(Closed(h, holder, index), rank)
  {
    var h' := Closed(h, holder, index);
    forall x, y | x in h' && y in Edges(h'[x]) ensures rank(y) < rank(x) {
      if x == holder { assert y in Edges(h[holder]); } else { assert y in Edges(h[x]); }
    }
  }

  lemma NestedAfterTake(h: Heap, mine: multiset<Ref>, rank: Ref -> nat, call: Call)
    requires Lawful(h, mine) && Nested(h, rank) && Takes(h, call) && Safe(h, mine, call)
    ensures Nested(HeapAfter(h, mine, call), rank)
  {
    hide Conserved, Nested, OnlyReleased, Outstanding, Supported, AtRest, RunRelease, Closed;
    RemovalExactly(h, mine, call.holder, call.index, Outstanding(h, mine) + 1);
    var t := RunRelease(h, h[call.holder].holds[call.index], Outstanding(h, mine) + 1);
    StillNested(h, t.heap, rank);
    NestedAfterClose(t.heap, rank, call.holder, call.index);
  }

  lemma NestedAfterRetain(h: Heap, rank: Ref -> nat, id: Ref)
    requires Nested(h, rank) && id in h
    ensures Nested(h[id := Retained(h[id])], rank)
  {
    assert Edges(Retained(h[id])) == Edges(h[id]);
  }

  lemma NestedAfterCreate(h: Heap, rank: Ref -> nat, id: Ref)
    requires Nested(h, rank) && id !in h
    ensures Nested(h[id := Counted(1, [])], rank)
  {
  }

  lemma StepKeepsNested(h: Heap, mine: multiset<Ref>, rank: Ref -> nat, call: Call)
    requires Lawful(h, mine) && Usable(h, mine, call) && Safe(h, mine, call) && Nested(h, rank)
    requires call.Store? ==> rank(call.value) < rank(call.holder)
    ensures Nested(HeapAfter(h, mine, call), rank)
  {
    hide Nested, Lawful, Safe, OnlyReleased, Released;
    match call
    case New(id) => NestedAfterCreate(h, rank, id);
    case Keep(id) => NestedAfterRetain(h, rank, id);
    case Drop(id) =>
      ReleaseKeepsLaw(h, mine, id);
      StillNested(h, Released(h, id, Outstanding(h, mine)), rank);
    case Store(holder, value, writable) => NestedAfterStore(h, rank, holder, value);
    case Take(_, _, _) => if Takes(h, call) { NestedAfterTake(h, mine, rank, call); }
  }

  /** A client that stores downwards in some ranking never aborts, whatever it borrows. */
  lemma {:induction false} StoringDownwardsIsSafe(h: Heap, mine: multiset<Ref>, rank: Ref -> nat, calls: seq<Call>)
    requires Lawful(h, mine) && Nested(h, rank)
    requires forall call :: call in calls && call.Store? ==> rank(call.value) < rank(call.holder)
    ensures SafeRun(h, mine, calls)
    decreases |calls|
  {
    hide Nested, HeapAfter, Conserved, AtRest, Acyclic, Supported;
    if calls == [] {
    } else if Usable(h, mine, calls[0]) {
      var call := calls[0];
      assert Acyclic(h) by { NestedIsAcyclic(h, rank); }
      if Takes(h, call) { AcyclicIsSupported(h, mine, call.holder, h[call.holder].holds[call.index]); }
      StepKeepsLaw(h, mine, call);
      StepKeepsNested(h, mine, rank, call);
      StoringDownwardsIsSafe(HeapAfter(h, mine, call), HoldingAfter(mine, call), rank, calls[1..]);
    } else {
      StoringDownwardsIsSafe(h, mine, rank, calls[1..]);
    }
  }

  lemma NestedIsAcyclic(h: Heap, rank: Ref -> nat)
    requires Nested(h, rank)
    ensures Acyclic(h)
  {
  }
}
