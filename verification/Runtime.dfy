/**
  The runtime's entry points: creating, retaining and releasing objects, and the two array
  operations that retain and release.

  `Cascade` and `Deinit` are the code of a release; they are proved against the run on values on
  every heap, also where that run ends in the underflow abort. The other methods keep the books.
 */
module Runtimes {
  import opened ReferenceCounting
  import opened Cascades
  import opened Reachability

  datatype Outcome = Kept | Freed | Aborted

  class Runtime {
    var heap: Heap
    ghost var owners: multiset<Ref>

    ghost predicate Valid()
      reads this
    {
      Conserved(heap, owners, NoHole)
    }

    constructor ()
      ensures Valid() && heap == map[] && owners == multiset{}
    {
      heap, owners := map[], multiset{};
    }

    /** A new object starts with one reference, which the caller owns. */
    method Create(id: Ref)
      requires Valid() && id !in heap
      modifies this
      ensures Valid() && heap == old(heap)[id := Counted(1, [])] && owners == old(owners) + multiset{id}
    {
      hide Conserved;
      AfterCreate(heap, owners, id);
      heap := heap[id := Counted(1, [])];
      owners := owners + multiset{id};
    }

    /** Another reference to a live object; static objects are not counted. */
    method Retain(id: Ref)
      requires Valid() && id in heap && IsLive(heap[id])
      modifies this
      ensures Valid() && owners == old(owners) + multiset{id}
      ensures heap == old(heap)[id := Retained(old(heap)[id])]
      ensures old(heap)[id].Counted? ==>
                heap == old(heap)[id := Counted(old(heap)[id].count + 1, old(heap)[id].holds)]
      ensures old(heap)[id].Static? ==> heap == old(heap)
    {
      hide Conserved;
      AfterRetain(heap, owners, NoHole, id);
      owners := owners + multiset{id};
      if heap[id].Static? {
        assert heap[id := heap[id]] == heap;
        return;
      }
      heap := heap[id := heap[id].(count := heap[id].count + 1)];
    }

    /** The code of a release, on any heap where it does not touch a freed object. */
    method Cascade(id: Ref, ghost fuel: nat) returns (outcome: Outcome)
      requires var t := RunRelease(heap, id, fuel); t.Fine? || t.Underflow?
      modifies this`heap
      ensures var t := RunRelease(old(heap), id, fuel);
              && (outcome == Aborted <==> t.Underflow?)
              && (t.Fine? ==> heap == t.heap && (outcome == Freed <==> id !in heap))
      decreases fuel, 0
    {
      if heap[id].Static? { return Kept; }
      var before := heap[id].count;
      heap := heap[id := heap[id].(count := before - 1)];
      if before == 1 {
        var ok := Deinit(id, fuel - 1);
        if !ok { return Aborted; }
        heap := heap - {id};
        return Freed;
      } else if before <= 0 {
        return Aborted;
      }
      return Kept;
    }

    /** The class handler: releases what the object holds, in order; the object itself stays allocated. */
    method Deinit(id: Ref, ghost fuel: nat) returns (ok: bool)
      requires AtZero(heap, id)
      requires var t := RunReleases(heap, heap[id].holds, fuel); t.Fine? || t.Underflow?
      modifies this`heap
      ensures var t := RunReleases(old(heap), old(heap)[id].holds, fuel);
              && (ok <==> t.Fine?)
              && (ok ==> heap == t.heap && AtZero(heap, id) && heap[id] == old(heap)[id])
      decreases fuel, 1
    {
      hide OnlyReleased;
      var index := 0;
      ghost var holds := heap[id].holds;
      assert holds[0..] == holds;
      while index < |heap[id].holds|
        invariant AtZero(heap, id) && heap[id] == old(heap)[id] && index <= |holds|
        invariant RunReleases(heap, holds[index..], fuel) == RunReleases(old(heap), holds, fuel)
        decreases |holds| - index
      {
        assert holds[index..][0] == holds[index] && holds[index..][1..] == holds[index + 1..];
        ghost var h := heap;
        var outcome := Cascade(heap[id].holds[index], fuel);
        if outcome == Aborted { return false; }
        FineOnlyReleases(h, holds[index], fuel);
        DyingStays(h, heap, id);
        index := index + 1;
      }
      assert holds[index..] == [];
      return true;
    }

    /**
      Gives up one owned reference. The last one tears the object down, which may release further
      objects. No object graph makes a count underflow or lets a freed object be touched, and the
      heap is what running the cascade on values gives.
     */
    method Release(id: Ref) returns (outcome: Outcome)
      requires Valid() && id in owners
      modifies this
      ensures Valid() && owners == old(owners) - multiset{id}
      ensures outcome != Aborted
      ensures OnlyReleased(old(heap), heap)
      ensures outcome == Freed <==> id !in heap
      ensures Outstanding(heap, owners) < old(Outstanding(heap, owners))
      ensures RunsTo(old(heap), id, old(Outstanding(heap, owners)), Fine(heap))
    {
      hide Conserved, Outstanding, OnlyReleased;
      ghost var n := Outstanding(heap, owners);
      ghost var t := ReleaseRuns(heap, owners, NoHole, [], id);
      assert RunRelease(heap, id, n) == t;
      outcome := Cascade(id, n);
      owners := owners - multiset{id};
    }

    /**
      Appends a live object to an array: the array keeps a reference of its own. An array that is
      immutable or cannot grow is not `writable`, and then nothing is retained.
     */
    method ArrayAppend(holder: Ref, value: Ref, writable: bool) returns (ok: bool)
      requires Valid()
      requires holder in heap && heap[holder].Counted? && heap[holder].count > 0
      requires value in heap && IsLive(heap[value])
      modifies this
      ensures Valid() && owners == old(owners) && ok == writable
      ensures !ok ==> heap == old(heap)
      ensures ok ==>
                var h := old(heap)[value := Retained(old(heap)[value])];
                heap == h[holder := h[holder].(holds := h[holder].holds + [value])]
    {
      hide Conserved;
      if !writable { return false; }
      Retain(value);
      AfterStore(heap, old(owners), holder, value);
      heap := heap[holder := heap[holder].(holds := heap[holder].holds + [value])];
      owners := owners - multiset{value};
      assert owners == old(owners);
      return true;
    }

    /**
      Removes an array's item: the item is released while the slot still holds it, and only then is
      the slot closed. The array may be borrowed. The call aborts exactly when the run of the release
      underflows, and between calls of the runtime that is exactly when nothing supports the array.
     */
    method ArrayRemoveAt(holder: Ref, index: int, isMutable: bool) returns (aborted: bool)
      requires Valid() && holder in heap && heap[holder].Counted? && heap[holder].count > 0
      modifies this
      ensures owners == old(owners) && (!aborted ==> Valid())
      ensures !isMutable || !(0 <= index < |old(heap)[holder].holds|) ==> !aborted && heap == old(heap)
      ensures isMutable && 0 <= index < |old(heap)[holder].holds| ==>
                var h, value := old(heap), old(heap)[holder].holds[index];
                var t := RunRelease(h, value, Outstanding(h, owners) + 1);
                && (aborted <==> t.Underflow?)
                && (Supported(h, owners, holder, value) ==> !aborted)
                && (AtRest(h) ==> (aborted <==> !Supported(h, owners, holder, value)))
                && (!aborted ==> t.Fine? && OnlyReleased(h, t.heap) && holder in t.heap && t.heap[holder].Counted? &&
                                 t.heap[holder].holds == h[holder].holds && heap == Closed(t.heap, holder, index))
      ensures !aborted && isMutable && 0 <= index < |old(heap)[holder].holds| ==>
                var holds := old(heap)[holder].holds;
                && holder in heap && heap[holder].Counted?
                && heap[holder].holds == holds[..index] + holds[index + 1..]
    {
      hide Conserved, Outstanding, OnlyReleased, Supported, AtRest, RunRelease;
      if !isMutable || index >= |heap[holder].holds| || index < 0 { return false; }
      ghost var n := Outstanding(heap, owners) + 1;
      RemovalRuns(heap, owners, holder, index, n);
      if AtRest(heap) { RemovalExactly(heap, owners, holder, index, n); }
      var outcome := Cascade(heap[holder].holds[index], n);
      if outcome == Aborted { return true; }
      var holds := heap[holder].holds;
      heap := heap[holder := heap[holder].(holds := holds[..index] + holds[index + 1..])];
      return false;
    }
  }

  /** One release through the runtime, from a state at rest. */
  method ReleaseAndAccount(runtime: Runtime, id: Ref) returns (outcome: Outcome)
    requires runtime.Valid() && AtRest(runtime.heap) && id in runtime.owners
    modifies runtime
    ensures runtime.Valid() && AtRest(runtime.heap) && outcome != Aborted
    ensures runtime.owners == old(runtime.owners) - multiset{id}
    ensures forall x :: x in old(runtime.heap) && old(runtime.heap)[x].Counted? ==>
              (Reachable(old(runtime.heap), runtime.owners, x) ==> x in runtime.heap)
    ensures Acyclic(old(runtime.heap)) ==>
              forall x :: x in old(runtime.heap) && old(runtime.heap)[x].Counted? ==>
                (x in runtime.heap <==> Reachable(old(runtime.heap), runtime.owners, x))
  {
    hide Conserved, Reachable, Acyclic, RunsTo;
    ghost var h := runtime.heap;
    outcome := runtime.Release(id);
    assert AtRest(runtime.heap) by { AtRestAfter(h, runtime.heap, runtime.owners); }
    forall x | x in h && h[x].Counted?
      ensures Reachable(h, runtime.owners, x) ==> x in runtime.heap
      ensures Acyclic(h) ==> (x in runtime.heap <==> Reachable(h, runtime.owners, x))
    {
      ReleaseFreesTheUnreachable(h, runtime.heap, runtime.owners, x);
    }
  }
}
