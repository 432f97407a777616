/**
  The cascade that a release may set off, on values.

  `RunRelease` does what the code does on any heap, whether its books balance or not. Where they
  balance it ends well; while an array has an open slot it either ends well or, when it comes back to
  the array, in an underflow, and what keeps it away from the array is a chain of live objects.
 */
module Cascades {
  import opened ReferenceCounting

  datatype Trace = Fine(heap: Heap) | Underflow | UseAfterFree | OutOfFuel

  /** A release as the code runs it: subtract, and at the last reference tear down and deallocate. */
  function RunRelease(h: Heap, id: Ref, fuel: nat): Trace
    decreases fuel, 0
  {
    if fuel == 0 then OutOfFuel
    else if id !in h then UseAfterFree
    else if h[id].Static? then Fine(h)
    else
      var before := h[id].count;
      var h' := h[id := h[id].(count := before - 1)];
      if before == 1 then
        var torn := RunReleases(h', h[id].holds, fuel - 1);
        if torn.Fine? then (if id in torn.heap then Fine(torn.heap - {id}) else UseAfterFree) else torn
      else if before <= 0 then Underflow
      else Fine(h')
  }

  function RunReleases(h: Heap, ids: seq<Ref>, fuel: nat): Trace
    decreases fuel, |ids| + 1
  {
    if ids == [] then Fine(h)
    else
      var first := RunRelease(h, ids[0], fuel);
      if first.Fine? then RunReleases(first.heap, ids[1..], fuel) else first
  }

  /** With fuel `n` or more, the release runs to `t`. */
  ghost predicate RunsTo(h: Heap, id: Ref, n: nat, t: Trace) {
    forall fuel: nat :: fuel >= n ==> RunRelease(h, id, fuel) == t
  }

  ghost predicate RunAllTo(h: Heap, ids: seq<Ref>, n: nat, t: Trace) {
    forall fuel: nat :: fuel >= n ==> RunReleases(h, ids, fuel) == t
  }

  // ---- steps of a run ----

  lemma RunKept(h: Heap, id: Ref, n: nat)
    requires id in h && n > 0 && (h[id].Counted? ==> h[id].count > 1)
    ensures RunsTo(h, id, n, Fine(if h[id].Static? then h else h[id := h[id].(count := h[id].count - 1)]))
  {
  }

  lemma RunAtZero(h: Heap, id: Ref, n: nat)
    requires AtZero(h, id) && n > 0
    ensures RunsTo(h, id, n, Underflow)
  {
  }

  /** The last release runs as the teardown does. */
  lemma RunLast(h: Heap, id: Ref, n: nat, m: nat, torn: Trace)
    requires id in h && h[id].Counted? && h[id].count == 1 && m < n
    requires RunAllTo(h[id := h[id].(count := 0)], h[id].holds, m, torn)
    ensures torn.Fine? && id in torn.heap ==> RunsTo(h, id, n, Fine(torn.heap - {id}))
    ensures torn.Underflow? ==> RunsTo(h, id, n, Underflow)
  {
    forall fuel: nat | fuel >= n
      ensures torn.Fine? && id in torn.heap ==> RunRelease(h, id, fuel) == Fine(torn.heap - {id})
      ensures torn.Underflow? ==> RunRelease(h, id, fuel) == Underflow
    {
      assert RunReleases(h[id := h[id].(count := 0)], h[id].holds, fuel - 1) == torn;
    }
  }

  lemma RunAllMore(h: Heap, ids: seq<Ref>, m: nat, n: nat, t: Trace)
    requires RunAllTo(h, ids, m, t) && m <= n
    ensures RunAllTo(h, ids, n, t)
  {
  }

  lemma RunNone(h: Heap, n: nat)
    ensures RunAllTo(h, [], n, Fine(h))
  {
  }

  /** Releases run one after the other. */
  lemma RunFirst(h: Heap, ids: seq<Ref>, n: nat, first: Trace, m: nat, t: Trace)
    requires ids != [] && RunsTo(h, ids[0], n, first)
    requires if first.Fine? then m <= n && RunAllTo(first.heap, ids[1..], m, t) else t == first
    ensures RunAllTo(h, ids, n, t)
  {
    forall fuel: nat | fuel >= n ensures RunReleases(h, ids, fuel) == t {
      assert RunRelease(h, ids[0], fuel) == first;
    }
  }

  lemma {:induction false} RunSplit(h: Heap, a: seq<Ref>, b: seq<Ref>, fuel: nat)
    requires RunReleases(h, a, fuel).Fine?
    ensures RunReleases(h, a + b, fuel) == RunReleases(RunReleases(h, a, fuel).heap, b, fuel)
    decreases |a|
  {
    if a == [] {
      assert a + b == b;
    } else {
      assert (a + b)[0] == a[0] && (a + b)[1..] == a[1..] + b;
      RunSplit(RunRelease(h, a[0], fuel).heap, a[1..], b, fuel);
    }
  }

  /** A run that ends well has only released; an object at zero is not touched by it. */
  lemma {:induction false} FineOnlyReleases(h: Heap, id: Ref, fuel: nat)
    requires RunRelease(h, id, fuel).Fine?
    ensures OnlyReleased(h, RunRelease(h, id, fuel).heap)
    decreases fuel, 0
  {
    hide OnlyReleased;
    if h[id].Static? {
      ReleasedNothing(h);
    } else if h[id].count == 1 {
      var h' := h[id := h[id].(count := 0)];
      FineAllRelease(h', h[id].holds, fuel - 1);
      FreedOnly(h, RunReleases(h', h[id].holds, fuel - 1).heap, id);
    } else {
      LoweredOnly(h, id);
    }
  }

  lemma {:induction false} FineAllRelease(h: Heap, ids: seq<Ref>, fuel: nat)
    requires RunReleases(h, ids, fuel).Fine?
    ensures OnlyReleased(h, RunReleases(h, ids, fuel).heap)
    decreases fuel, |ids| + 1
  {
    hide OnlyReleased;
    if ids == [] {
      ReleasedNothing(h);
    } else {
      var h' := RunRelease(h, ids[0], fuel).heap;
      FineOnlyReleases(h, ids[0], fuel);
      FineAllRelease(h', ids[1..], fuel);
      ReleasedTwice(h, h', RunReleases(h, ids, fuel).heap);
    }
  }

  // ---- what keeps the array with the open slot ----

  function SlotAt(hole: Hole, z: Ref): multiset<Ref> {
    if hole.Slot? && hole.holder == z then multiset{hole.value} else multiset{}
  }

  /** A chain of live objects down to the array with the open slot, which does not use that slot. */
  predicate Chain(h: Heap, hole: Hole, path: seq<Ref>) {
    hole.Slot? ==>
      && path != [] && path[|path| - 1] == hole.holder
      && (forall i :: 0 <= i < |path| ==> path[i] in h && h[path[i]].Counted? && h[path[i]].count > 0)
      && (forall i :: 0 <= i < |path| - 1 ==> path[i + 1] in Held(h[path[i]]) - SlotAt(hole, path[i]))
  }

  /** The chain starts at an owner or at an object that comes again. */
  predicate Rooted(owners: multiset<Ref>, path: seq<Ref>) {
    path != [] && (path[0] in owners || exists k :: 0 < k < |path| && path[k] == path[0])
  }

  /** An occurrence beside the open slot is in the books. */
  lemma OtherReference(h: Heap, hole: Hole, z: Ref, x: Ref)
    requires HoleLive(h, hole) && z in h && x in Held(h[z]) - SlotAt(hole, z)
    ensures x in Refs(h) - HoleRefs(hole)
  {
    HeldInSplit(h, h.Keys, z);
    if hole.Slot? && hole.holder != z {
      HeldInSplit(h, h.Keys, hole.holder);
      HeldInSplit(h, h.Keys - {hole.holder}, z);
    }
  }

  /** An object on a rooted chain has one more reference than the one about to be released. */
  lemma OnChainHasTwo(h: Heap, owners: multiset<Ref>, hole: Hole, path: seq<Ref>, id: Ref)
    requires Conserved(h, owners, hole) && id in owners && hole.Slot? && id in path
    requires Chain(h, hole, path) && Rooted(owners - multiset{id}, path)
    ensures h[id].count >= 2
  {
    hide Refs, Held;
    var k: nat :| k < |path| && path[k] == id;
    var j: nat := if k == 0 && path[0] !in owners - multiset{id}
      then var j :| 0 < j < |path| && path[j] == path[0]; j else k;
    HoleIsReferenced(h, hole);
    if j > 0 {
      assert path[j - 1 + 1] in Held(h[path[j - 1]]) - SlotAt(hole, path[j - 1]);
      OtherReference(h, hole, path[j - 1], id);
      assert References(h, owners, hole)[id] >= owners[id] + (Refs(h) - HoleRefs(hole))[id];
    } else {
      assert References(h, owners, hole)[id] >= owners[id] >= 2;
    }
  }

  lemma ChainAfter(h: Heap, h': Heap, hole: Hole, path: seq<Ref>)
    requires Chain(h, hole, path)
    requires hole.Slot? ==>
               forall x :: x in path ==> x in h' && h'[x].Counted? && h'[x].count > 0 && h'[x].holds == h[x].holds
    ensures Chain(h', hole, path)
  {
    if hole.Slot? {
      forall i | 0 <= i < |path| ensures path[i] in h' && Held(h'[path[i]]) == Held(h[path[i]]) {}
    }
  }

  // ---- a release on balanced books ----

  /** While a slot is open, what is being released is the slot's value or what that one held. */
  predicate BelowSlot(h: Heap, hole: Hole, id: Ref) {
    hole.Slot? ==> id == hole.value || AtZero(h, hole.value)
  }

  /**
    A release by an owner ends well or, when it comes back to the array with the open slot, in an
    underflow; where it ends well the books balance, and a rooted chain makes it end well.
   */
  lemma {:induction false} ReleaseRuns(h: Heap, owners: multiset<Ref>, hole: Hole, path: seq<Ref>, id: Ref)
    returns (t: Trace)
    requires Conserved(h, owners, hole) && id in owners && BelowSlot(h, hole, id)
    ensures RunsTo(h, id, Outstanding(h, owners), t) && (t.Fine? || t.Underflow?)
    ensures t.Fine? ==>
              && Conserved(t.heap, owners - multiset{id}, hole) && OnlyReleased(h, t.heap)
              && Outstanding(t.heap, owners - multiset{id}) < Outstanding(h, owners)
    ensures hole.NoHole? ==> t.Fine?
    ensures Chain(h, hole, path) && Rooted(owners - multiset{id}, path) ==> t.Fine? && Chain(t.heap, hole, path)
    decreases Outstanding(h, owners), 1, 0
  {
    hide Conserved, Outstanding, RunsTo, RunAllTo, OnlyReleased, Chain, Rooted, Held, Refs;
    OwnedIsLive(h, owners, hole, id);
    var n := Outstanding(h, owners);
    if h[id].Static? {
      t := Fine(h);
      StaticDropped(h, owners, hole, id);
      RunKept(h, id, n);
      ReleasedNothing(h);
    } else if h[id].count > 1 {
      t := Fine(h[id := h[id].(count := h[id].count - 1)]);
      AfterDecrement(h, owners, hole, id);
      RunKept(h, id, n);
      LoweredOnly(h, id);
      if Chain(h, hole, path) { ChainAfterDecrement(h, hole, path, id); }
    } else if hole.Slot? && hole.holder == id {
      t := Underflow;
      HolderTorn(h, owners, hole, id);
      if Chain(h, hole, path) && Rooted(owners - multiset{id}, path) {
        HolderOnChain(h, hole, path);
        OnChainHasTwo(h, owners, hole, path, id);
      }
    } else {
      t := LastRuns(h, owners, hole, path, id);
    }
  }

  /** The last release of an object other than the array with the open slot. */
  lemma {:induction false} LastRuns(h: Heap, owners: multiset<Ref>, hole: Hole, path: seq<Ref>, id: Ref)
    returns (t: Trace)
    requires Conserved(h, owners, hole) && id in owners && BelowSlot(h, hole, id)
    requires id in h && h[id].Counted? && h[id].count == 1 && (hole.Slot? ==> hole.holder != id)
    ensures RunsTo(h, id, Outstanding(h, owners), t) && (t.Fine? || t.Underflow?)
    ensures t.Fine? ==>
              && Conserved(t.heap, owners - multiset{id}, hole) && OnlyReleased(h, t.heap)
              && Outstanding(t.heap, owners - multiset{id}) < Outstanding(h, owners)
    ensures hole.NoHole? ==> t.Fine?
    ensures Chain(h, hole, path) && Rooted(owners - multiset{id}, path) ==> t.Fine? && Chain(t.heap, hole, path)
    decreases Outstanding(h, owners), 0, 0
  {
    hide Conserved, Outstanding, RunsTo, RunAllTo, OnlyReleased, Chain, Rooted, Held, Refs;
    var n, rest, h0 := Outstanding(h, owners), owners - multiset{id}, h[id := h[id].(count := 0)];
    AfterLast(h, owners, hole, id);
    if Chain(h, hole, path) && Rooted(rest, path) { ChainAfterLast(h, owners, hole, path, id); }
    var torn := ReleasesRun(h0, h[id].holds, rest, hole, path);
    RunLast(h, id, n, Outstanding(h0, rest + multiset(h[id].holds)), torn);
    if torn.Fine? {
      FreedOnly(h, torn.heap, id);
      AfterDeallocate(torn.heap, rest, hole, id);
      t := Fine(torn.heap - {id});
      if Chain(torn.heap, hole, path) { ChainAfterFree(torn.heap, hole, path, id); }
    } else {
      t := Underflow;
    }
  }

  /** The items of a dying object, one after the other. */
  lemma {:induction false} ReleasesRun(h: Heap, ids: seq<Ref>, rest: multiset<Ref>, hole: Hole, path: seq<Ref>)
    returns (t: Trace)
    requires Conserved(h, rest + multiset(ids), hole) && (hole.Slot? ==> AtZero(h, hole.value))
    ensures RunAllTo(h, ids, Outstanding(h, rest + multiset(ids)), t) && (t.Fine? || t.Underflow?)
    ensures t.Fine? ==>
              && Conserved(t.heap, rest, hole) && OnlyReleased(h, t.heap)
              && Outstanding(t.heap, rest) <= Outstanding(h, rest + multiset(ids))
    ensures hole.NoHole? ==> t.Fine?
    ensures Chain(h, hole, path) && Rooted(rest, path) ==> t.Fine? && Chain(t.heap, hole, path)
    decreases Outstanding(h, rest + multiset(ids)), 2, |ids|
  {
    hide Conserved, Outstanding, RunsTo, RunAllTo, OnlyReleased, Chain, Rooted, Held, Refs;
    var owners := rest + multiset(ids);
    if ids == [] {
      t := Fine(h);
      assert owners == rest;
      RunNone(h, Outstanding(h, owners));
      ReleasedNothing(h);
    } else {
      assert ids == [ids[0]] + ids[1..];
      assert owners - multiset{ids[0]} == rest + multiset(ids[1..]);
      if Rooted(rest, path) { MoreOwnersRoot(rest, multiset(ids[1..]), path); }
      var first := ReleaseRuns(h, owners, hole, path, ids[0]);
      t := first;
      var m := 0;
      if first.Fine? {
        if hole.Slot? { DyingStays(h, first.heap, hole.value); }
        m := Outstanding(first.heap, rest + multiset(ids[1..]));
        t := ReleasesRun(first.heap, ids[1..], rest, hole, path);
        if t.Fine? { ReleasedTwice(h, first.heap, t.heap); }
      }
      RunFirst(h, ids, Outstanding(h, owners), first, m, t);
    }
  }

  /** The array with the open slot is torn down itself: the item in the slot is released at zero. */
  lemma {:induction false} HolderTorn(h: Heap, owners: multiset<Ref>, hole: Hole, id: Ref)
    requires Conserved(h, owners, hole) && id in owners && BelowSlot(h, hole, id)
    requires hole.Slot? && hole.holder == id && id in h && h[id].Counted? && h[id].count == 1
    ensures RunsTo(h, id, Outstanding(h, owners), Underflow)
    decreases Outstanding(h, owners), 0, 0
  {
    hide Conserved, Outstanding, RunsTo, RunAllTo, OnlyReleased;
    var n, rest, h0 := Outstanding(h, owners), owners - multiset{id}, h[id := h[id].(count := 0)];
    var a, b := SlotPlace(h, owners, hole);
    AfterHolder(h, owners, hole, a, b);
    assert rest + multiset(a + b) == rest + multiset(b) + multiset(a);
    var before := ReleasesRun(h0, a, rest + multiset(b), NoHole, []);
    DyingStays(h0, before.heap, hole.value);
    RunAllMore(h0, a, Outstanding(h0, rest + multiset(b) + multiset(a)), n - 1, before);
    UnderflowsAt(h0, a, hole.value, b, n - 1, before.heap);
    RunLast(h, id, n, n - 1, Underflow);
  }

  lemma SlotPlace(h: Heap, owners: multiset<Ref>, hole: Hole) returns (a: seq<Ref>, b: seq<Ref>)
    requires Conserved(h, owners, hole) && hole.Slot?
    ensures hole.holder in h && h[hole.holder].Counted? && h[hole.holder].holds == a + ([hole.value] + b)
  {
    hide Refs, References, Balanced;
    var holds := h[hole.holder].holds;
    var k: nat :| k < |holds| && holds[k] == hole.value;
    a, b := holds[..k], holds[k + 1..];
  }

  lemma HandedOut(
      owners: multiset<Ref>, refs: multiset<Ref>, left: multiset<Ref>, more: multiset<Ref>, v: Ref, id: Ref)
    requires id in owners && refs == left + (more + multiset{v})
    ensures owners - multiset{id} + more + left - multiset{} == owners + refs - multiset{v} - multiset{id}
    ensures |owners - multiset{id} + more| + |left| + 2 == |owners| + |refs|
  {
  }

  /** The books when the array with the open slot is torn: the slot's reference is not there twice. */
  lemma HolderBooks(h: Heap, owners: multiset<Ref>, hole: Hole, more: multiset<Ref>)
    requires hole.Slot? && hole.holder in owners && hole.holder in h && h[hole.holder].Counted?
    requires h[hole.holder].count == 1 && multiset(h[hole.holder].holds) == more + multiset{hole.value}
    ensures var h0, rest := h[hole.holder := h[hole.holder].(count := 0)], owners - multiset{hole.holder} + more;
            && References(h0, rest, NoHole) == References(h, owners, hole) - multiset{hole.holder}
            && Outstanding(h0, rest) + 2 == Outstanding(h, owners)
  {
    hide Refs;
    var h0 := h[hole.holder := h[hole.holder].(count := 0)];
    LastRefs(h, hole.holder);
    HandedOut(owners, Refs(h), Refs(h0), more, hole.value, hole.holder);
  }

  lemma AfterHolder(h: Heap, owners: multiset<Ref>, hole: Hole, a: seq<Ref>, b: seq<Ref>)
    requires Conserved(h, owners, hole) && hole.Slot? && hole.holder in owners
    requires h[hole.holder].count == 1 && h[hole.holder].holds == a + ([hole.value] + b)
    ensures var h0 := h[hole.holder := h[hole.holder].(count := 0)];
            var rest := owners - multiset{hole.holder} + multiset(a + b);
            Conserved(h0, rest, NoHole) && Outstanding(h0, rest) + 2 == Outstanding(h, owners)
  {
    OwnedIsReferenced(h, owners, hole, hole.holder);
    hide Refs, Balanced, Held, References, Outstanding;
    Together(a, hole.value, b);
    HolderBooks(h, owners, hole, multiset(a + b));
    BalancedDecrement(h, References(h, owners, hole), hole.holder);
  }

  lemma Together(a: seq<Ref>, v: Ref, b: seq<Ref>)
    ensures multiset(a + ([v] + b)) == multiset(a + b) + multiset{v}
  {
  }

  lemma UnderflowsAt(h: Heap, a: seq<Ref>, v: Ref, b: seq<Ref>, n: nat, h': Heap)
    requires n > 0 && AtZero(h', v) && RunAllTo(h, a, n, Fine(h'))
    ensures RunAllTo(h, a + ([v] + b), n, Underflow)
  {
    forall fuel: nat | fuel >= n ensures RunReleases(h, a + ([v] + b), fuel) == Underflow {
      assert RunReleases(h, a, fuel) == Fine(h');
      RunSplit(h, a, [v] + b, fuel);
      assert ([v] + b)[0] == v;
    }
  }

  // ---- chains through the steps ----

  lemma ChainAfterDecrement(h: Heap, hole: Hole, path: seq<Ref>, id: Ref)
    requires Chain(h, hole, path) && id in h && h[id].Counted? && h[id].count > 1
    ensures Chain(h[id := h[id].(count := h[id].count - 1)], hole, path)
  {
    ChainAfter(h, h[id := h[id].(count := h[id].count - 1)], hole, path);
  }

  lemma ChainAfterLast(h: Heap, owners: multiset<Ref>, hole: Hole, path: seq<Ref>, id: Ref)
    requires Conserved(h, owners, hole) && id in owners && id in h && h[id].Counted? && h[id].count == 1
    requires Chain(h, hole, path) && Rooted(owners - multiset{id}, path)
    ensures Chain(h[id := h[id].(count := 0)], hole, path)
  {
    hide Conserved;
    if hole.Slot? && id in path { OnChainHasTwo(h, owners, hole, path, id); }
    ChainAfter(h, h[id := h[id].(count := 0)], hole, path);
  }

  lemma ChainAfterFree(h: Heap, hole: Hole, path: seq<Ref>, id: Ref)
    requires Chain(h, hole, path) && AtZero(h, id)
    ensures Chain(h - {id}, hole, path)
  {
    ChainAfter(h, h - {id}, hole, path);
  }

  lemma HolderOnChain(h: Heap, hole: Hole, path: seq<Ref>)
    requires hole.Slot? && Chain(h, hole, path)
    ensures hole.holder in path
  {
  }

  lemma MoreOwnersRoot(owners: multiset<Ref>, more: multiset<Ref>, path: seq<Ref>)
    requires Rooted(owners, path)
    ensures Rooted(owners + more, path)
  {
  }
}
