/**
  Reference counting over an object heap.

  An object holds the references that its class's deinit handler releases: the items of an array
  with object callbacks, the components and the cached path of a URL, the handle of a bit walker,
  nothing for strings and numbers. `owners` are the references held outside the heap, by callers
  and by releases that are still running.

  The conservation law: the count of every counted object is the number of owners plus the number
  of occurrences in live holders. An object whose count is zero is being torn down; it holds
  nothing any more, because its references have become owners, to be released one by one.
 */
module ReferenceCounting {

  type Ref = nat

  datatype Object = Static | Counted(count: int, holds: seq<Ref>)

  type Heap = map<Ref, Object>

  /** A slot of an array whose reference has been handed out, while the slot is still there. */
  datatype Hole = NoHole | Slot(holder: Ref, value: Ref)

  // ---- occurrences in live holders ----

  predicate IsLive(o: Object) { o.Static? || o.count > 0 }

  /** The object is being torn down. */
  predicate AtZero(h: Heap, x: Ref) { x in h && h[x].Counted? && h[x].count == 0 }

  function Held(o: Object): multiset<Ref> {
    if o.Counted? && o.count > 0 then multiset(o.holds) else multiset{}
  }

  ghost function HeldIn(h: Heap, keys: set<Ref>): multiset<Ref>
    requires keys <= h.Keys
  {
    if keys == {} then multiset{} else var k :| k in keys; Held(h[k]) + HeldIn(h, keys - {k})
  }

  ghost function Refs(h: Heap): multiset<Ref> { HeldIn(h, h.Keys) }

  lemma {:induction false} HeldInSplit(h: Heap, keys: set<Ref>, k: Ref)
    requires keys <= h.Keys && k in keys
    ensures HeldIn(h, keys) == Held(h[k]) + HeldIn(h, keys - {k})
    decreases keys
  {
    var j :| j in keys && HeldIn(h, keys) == Held(h[j]) + HeldIn(h, keys - {j});
    if j != k {
      HeldInSplit(h, keys - {j}, k);
      HeldInSplit(h, keys - {k}, j);
      assert keys - {j} - {k} == keys - {k} - {j};
    }
  }

  lemma {:induction false} HeldInSame(h: Heap, h': Heap, keys: set<Ref>)
    requires keys <= h.Keys && keys <= h'.Keys && forall k :: k in keys ==> Held(h[k]) == Held(h'[k])
    ensures HeldIn(h, keys) == HeldIn(h', keys)
    decreases keys
  {
    if keys == {} {
    } else {
      var k :| k in keys;
      HeldInSplit(h, keys, k);
      HeldInSplit(h', keys, k);
      HeldInSame(h, h', keys - {k});
    }
  }

  /** Changing one object changes the occurrences by what that object holds. */
  lemma RefsUpdate(h: Heap, k: Ref, o: Object)
    ensures k in h ==> Refs(h[k := o]) + Held(h[k]) == Refs(h) + Held(o)
    ensures k !in h ==> Refs(h[k := o]) == Refs(h) + Held(o)
  {
    var h' := h[k := o];
    HeldInSplit(h', h'.Keys, k);
    HeldInSame(h, h', h.Keys - {k});
    assert h'.Keys - {k} == h.Keys - {k};
    if k in h { HeldInSplit(h, h.Keys, k); } else { assert h.Keys - {k} == h.Keys; }
  }

  lemma Cancel(a: multiset<Ref>, b: multiset<Ref>, c: multiset<Ref>)
    requires a + c == b + c
    ensures a == b
  {
    forall x ensures a[x] == b[x] { assert (a + c)[x] == (b + c)[x]; }
  }

  lemma RefsGrow(h: Heap, k: Ref, o: Object, more: multiset<Ref>)
    requires k in h && Held(o) == Held(h[k]) + more
    ensures Refs(h[k := o]) == Refs(h) + more
  {
    hide Refs, Held;
    RefsUpdate(h, k, o);
    assert Refs(h) + Held(o) == Refs(h) + more + Held(h[k]);
    Cancel(Refs(h[k := o]), Refs(h) + more, Held(h[k]));
  }

  lemma RefsRemove(h: Heap, k: Ref)
    requires k in h && Held(h[k]) == multiset{}
    ensures Refs(h - {k}) == Refs(h)
  {
    HeldInSplit(h, h.Keys, k);
    HeldInSame(h, h - {k}, h.Keys - {k});
    assert (h - {k}).Keys == h.Keys - {k};
  }

  lemma {:induction false} SomeHolder(h: Heap, keys: set<Ref>, x: Ref) returns (z: Ref)
    requires keys <= h.Keys && x in HeldIn(h, keys)
    ensures z in keys && x in Held(h[z])
    decreases keys
  {
    var k :| k in keys;
    HeldInSplit(h, keys, k);
    if x in Held(h[k]) { z := k; } else { z := SomeHolder(h, keys - {k}, x); }
  }

  lemma HeldIsReferenced(h: Heap, z: Ref, x: Ref)
    requires z in h && x in Held(h[z])
    ensures x in Refs(h)
  {
    HeldInSplit(h, h.Keys, z);
  }

  // ---- the conservation law ----

  function HoleRefs(hole: Hole): multiset<Ref> {
    match hole case NoHole => multiset{} case Slot(_, value) => multiset{value}
  }

  /** The array with the open slot is alive and still has the value in it. */
  predicate HoleLive(h: Heap, hole: Hole) {
    hole.Slot? ==> hole.holder in h && h[hole.holder].Counted? && hole.value in Held(h[hole.holder])
  }

  function Edges(o: Object): seq<Ref> {
    match o case Static => [] case Counted(_, holds) => holds
  }

  /** References lead from higher to lower ranks. */
  ghost predicate Nested(h: Heap, rank: Ref -> nat) {
    forall x, y :: x in h && y in Edges(h[x]) ==> rank(y) < rank(x)
  }

  /** All references there are: owners and occurrences in live holders, without the open slot. */
  ghost function References(h: Heap, owners: multiset<Ref>, hole: Hole): multiset<Ref> {
    owners + Refs(h) - HoleRefs(hole)
  }

  /** No reference in the books dangles, and every count is what the books say. */
  predicate Balanced(h: Heap, books: multiset<Ref>) {
    && (forall x :: x in books ==> x in h)
    && (forall x :: x in h && h[x].Counted? ==> h[x].count == books[x])
  }

  /** How many references there are, which bounds what a cascade can release. */
  ghost function Outstanding(h: Heap, owners: multiset<Ref>): nat { |owners| + |Refs(h)| }

  ghost predicate Conserved(h: Heap, owners: multiset<Ref>, hole: Hole) {
    HoleLive(h, hole) && Balanced(h, References(h, owners, hole))
  }

  lemma HoleIsReferenced(h: Heap, hole: Hole)
    requires HoleLive(h, hole)
    ensures HoleRefs(hole) <= Refs(h)
  {
    hide Refs;
    if hole.Slot? { HeldIsReferenced(h, hole.holder, hole.value); }
  }

  lemma OwnedIsLive(h: Heap, owners: multiset<Ref>, hole: Hole, id: Ref)
    requires Conserved(h, owners, hole) && id in owners
    ensures id in h && (h[id].Counted? ==> h[id].count >= owners[id]) && Outstanding(h, owners) > 0
  {
    HoleIsReferenced(h, hole);
    hide Refs;
    assert References(h, owners, hole)[id] >= owners[id];
  }

  lemma SetCount(h: Heap, id: Ref, n: int)
    requires id in h && h[id].Counted? && h[id].count > 0 && n > 0
    ensures Refs(h[id := h[id].(count := n)]) == Refs(h)
  {
    hide Refs;
    RefsGrow(h, id, h[id].(count := n), multiset{});
  }

  lemma TakeOne(owners: multiset<Ref>, refs: multiset<Ref>, out: multiset<Ref>, id: Ref)
    requires id in owners && out <= refs
    ensures owners - multiset{id} + refs - out == owners + refs - out - multiset{id}
  {
  }

  lemma BalancedDecrement(h: Heap, books: multiset<Ref>, id: Ref)
    requires Balanced(h, books) && id in books && h[id].Counted?
    ensures Balanced(h[id := h[id].(count := h[id].count - 1)], books - multiset{id})
  {
  }

  /** A release takes one reference out of the books, and there is one less to release. */
  lemma TakenOut(h: Heap, h': Heap, owners: multiset<Ref>, hole: Hole, id: Ref)
    requires HoleLive(h, hole) && id in owners && Refs(h') == Refs(h)
    ensures References(h', owners - multiset{id}, hole) == References(h, owners, hole) - multiset{id}
    ensures Outstanding(h', owners - multiset{id}) < Outstanding(h, owners)
  {
    hide Refs, HoleLive;
    HoleIsReferenced(h, hole);
    TakeOne(owners, Refs(h), HoleRefs(hole), id);
  }

  /** The array with the open slot does not notice when the count of a live object changes. */
  lemma HoleStays(h: Heap, hole: Hole, id: Ref, n: int)
    requires HoleLive(h, hole) && id in h && h[id].Counted? && h[id].count > 0 && n > 0
    ensures HoleLive(h[id := h[id].(count := n)], hole)
  {
  }

  /** One step down: the reference that was released is gone from the books. */
  lemma AfterDecrement(h: Heap, owners: multiset<Ref>, hole: Hole, id: Ref)
    requires Conserved(h, owners, hole) && id in owners && id in h && h[id].Counted? && h[id].count > 1
    ensures Conserved(h[id := h[id].(count := h[id].count - 1)], owners - multiset{id}, hole)
    ensures Outstanding(h[id := h[id].(count := h[id].count - 1)], owners - multiset{id}) < Outstanding(h, owners)
  {
    OwnedIsReferenced(h, owners, hole, id);
    hide Refs, References, Outstanding, Balanced, HoleLive, Held;
    SetCount(h, id, h[id].count - 1);
    HoleStays(h, hole, id, h[id].count - 1);
    TakenOut(h, h[id := h[id].(count := h[id].count - 1)], owners, hole, id);
    BalancedDecrement(h, References(h, owners, hole), id);
  }

  lemma OwnedIsReferenced(h: Heap, owners: multiset<Ref>, hole: Hole, id: Ref)
    requires HoleLive(h, hole) && id in owners
    ensures References(h, owners, hole)[id] >= owners[id]
  {
    hide Refs;
    HoleIsReferenced(h, hole);
  }

  lemma BalancedStaticDrop(h: Heap, books: multiset<Ref>, id: Ref)
    requires Balanced(h, books) && id in h && h[id].Static?
    ensures Balanced(h, books - multiset{id})
  {
  }

  lemma StaticDropped(h: Heap, owners: multiset<Ref>, hole: Hole, id: Ref)
    requires Conserved(h, owners, hole) && id in owners && id in h && h[id].Static?
    ensures Conserved(h, owners - multiset{id}, hole) && Outstanding(h, owners - multiset{id}) < Outstanding(h, owners)
  {
    hide Refs, References, Outstanding, Balanced, HoleLive;
    TakenOut(h, h, owners, hole, id);
    BalancedStaticDrop(h, References(h, owners, hole), id);
  }

  lemma MoveToOwners(
      owners: multiset<Ref>, refs: multiset<Ref>, rest: multiset<Ref>, held: multiset<Ref>, out: multiset<Ref>, id: Ref)
    requires id in owners && refs == rest + held && out <= rest
    ensures owners - multiset{id} + held + rest - out == owners + refs - out - multiset{id}
  {
  }

  lemma LastRefs(h: Heap, id: Ref)
    requires id in h && h[id].Counted? && h[id].count == 1
    ensures Refs(h[id := h[id].(count := 0)]) + multiset(h[id].holds) == Refs(h)
  {
    hide Refs;
    RefsUpdate(h, id, h[id].(count := 0));
  }

  /** A torn object's references change sides in the books. */
  lemma ChangedSides(h: Heap, owners: multiset<Ref>, hole: Hole, id: Ref)
    requires HoleLive(h, hole) && id in owners && id in h && h[id].Counted? && h[id].count == 1
    requires hole.Slot? ==> hole.holder != id
    ensures var h', owners' := h[id := h[id].(count := 0)], owners - multiset{id} + multiset(h[id].holds);
            && HoleLive(h', hole)
            && References(h', owners', hole) == References(h, owners, hole) - multiset{id}
            && Outstanding(h', owners') < Outstanding(h, owners)
  {
    hide Refs;
    var h' := h[id := h[id].(count := 0)];
    LastRefs(h, id);
    HoleIsReferenced(h', hole);
    MoveToOwners(owners, Refs(h), Refs(h'), multiset(h[id].holds), HoleRefs(hole), id);
  }

  /** The last reference is gone: the object is at zero, and what it held is now owned by its deinit. */
  lemma AfterLast(h: Heap, owners: multiset<Ref>, hole: Hole, id: Ref)
    requires Conserved(h, owners, hole) && id in owners && id in h && h[id].Counted? && h[id].count == 1
    requires hole.Slot? ==> hole.holder != id
    ensures var h' := h[id := h[id].(count := 0)];
            && Conserved(h', owners - multiset{id} + multiset(h[id].holds), hole)
            && Outstanding(h', owners - multiset{id} + multiset(h[id].holds)) < Outstanding(h, owners)
  {
    OwnedIsReferenced(h, owners, hole, id);
    hide Refs, References, Outstanding, Balanced, HoleLive, Held;
    ChangedSides(h, owners, hole, id);
    BalancedDecrement(h, References(h, owners, hole), id);
  }

  lemma HoleOutlives(h: Heap, hole: Hole, id: Ref)
    requires HoleLive(h, hole) && AtZero(h, id)
    ensures HoleLive(h - {id}, hole)
  {
  }

  lemma FreedHeldNothing(h: Heap, id: Ref)
    requires AtZero(h, id)
    ensures Held(h[id]) == multiset{}
  {
  }

  lemma BalancedFree(h: Heap, books: multiset<Ref>, id: Ref)
    requires Balanced(h, books) && AtZero(h, id)
    ensures Balanced(h - {id}, books)
  {
    assert id !in books;
  }

  /** Deallocating an object that is at zero leaves nothing dangling. */
  lemma AfterDeallocate(h: Heap, owners: multiset<Ref>, hole: Hole, id: Ref)
    requires Conserved(h, owners, hole) && AtZero(h, id)
    ensures Conserved(h - {id}, owners, hole) && Outstanding(h - {id}, owners) == Outstanding(h, owners)
  {
    HoleOutlives(h, hole, id);
    hide Refs, Balanced, HoleLive, Held;
    FreedHeldNothing(h, id);
    RefsRemove(h, id);
    BalancedFree(h, References(h, owners, hole), id);
  }

  lemma BalancedIncrement(h: Heap, books: multiset<Ref>, id: Ref)
    requires Balanced(h, books) && id in h
    ensures Balanced(h[id := Retained(h[id])], books + multiset{id})
  {
  }

  lemma BalancedCreate(h: Heap, books: multiset<Ref>, id: Ref)
    requires Balanced(h, books) && id !in h
    ensures Balanced(h[id := Counted(1, [])], books + multiset{id})
  {
    assert id !in books;
  }

  lemma BalancedHolds(h: Heap, books: multiset<Ref>, id: Ref, holds: seq<Ref>)
    requires Balanced(h, books) && id in h && h[id].Counted?
    ensures Balanced(h[id := h[id].(holds := holds)], books)
  {
  }

  lemma AddOne(owners: multiset<Ref>, refs: multiset<Ref>, out: multiset<Ref>, id: Ref)
    requires out <= refs
    ensures owners + multiset{id} + refs - out == owners + refs - out + multiset{id}
  {
  }

  lemma AfterCreate(h: Heap, owners: multiset<Ref>, id: Ref)
    requires Conserved(h, owners, NoHole) && id !in h
    ensures Conserved(h[id := Counted(1, [])], owners + multiset{id}, NoHole)
  {
    hide Refs, Balanced;
    RefsUpdate(h, id, Counted(1, []));
    assert Held(Counted(1, [])) == multiset{};
    assert Refs(h[id := Counted(1, [])]) == Refs(h);
    AddOne(owners, Refs(h), multiset{}, id);
    BalancedCreate(h, References(h, owners, NoHole), id);
  }

  function Retained(o: Object): Object {
    match o case Static => Static case Counted(count, holds) => Counted(count + 1, holds)
  }

  lemma RetainedRefs(h: Heap, id: Ref)
    requires id in h && IsLive(h[id])
    ensures Refs(h[id := Retained(h[id])]) == Refs(h)
  {
    hide Refs;
    RefsGrow(h, id, Retained(h[id]), multiset{});
  }

  lemma AfterRetain(h: Heap, owners: multiset<Ref>, hole: Hole, id: Ref)
    requires Conserved(h, owners, hole) && id in h && IsLive(h[id])
    ensures Conserved(h[id := Retained(h[id])], owners + multiset{id}, hole)
  {
    hide Refs, Balanced;
    RetainedRefs(h, id);
    HoleIsReferenced(h, hole);
    AddOne(owners, Refs(h), HoleRefs(hole), id);
    BalancedIncrement(h, References(h, owners, hole), id);
  }

  /** A reference that the caller owned becomes an item of the holder. */
  lemma AfterStore(h: Heap, owners: multiset<Ref>, holder: Ref, value: Ref)
    requires Conserved(h, owners + multiset{value}, NoHole)
    requires holder in h && h[holder].Counted? && h[holder].count > 0
    ensures Conserved(h[holder := h[holder].(holds := h[holder].holds + [value])], owners, NoHole)
  {
    hide Refs, Balanced;
    var o := h[holder].(holds := h[holder].holds + [value]);
    assert Held(o) == Held(h[holder]) + multiset{value};
    RefsGrow(h, holder, o, multiset{value});
    assert References(h[holder := o], owners, NoHole) == References(h, owners + multiset{value}, NoHole);
    BalancedHolds(h, References(h, owners + multiset{value}, NoHole), holder, o.holds);
  }

  /** Moving a slot's reference to the owners changes no count. */
  lemma HandOut(h: Heap, owners: multiset<Ref>, holder: Ref, value: Ref)
    requires Conserved(h, owners, NoHole)
    requires holder in h && h[holder].Counted? && value in Held(h[holder])
    ensures Conserved(h, owners + multiset{value}, Slot(holder, value))
  {
    hide Refs;
    HeldIsReferenced(h, holder, value);
    assert References(h, owners + multiset{value}, Slot(holder, value)) == References(h, owners, NoHole);
  }

  lemma CloseSlot(h: Heap, owners: multiset<Ref>, holder: Ref, index: nat)
    requires holder in h && h[holder].Counted? && h[holder].count > 0 && index < |h[holder].holds|
    requires Conserved(h, owners, Slot(holder, h[holder].holds[index]))
    ensures var holds := h[holder].holds;
            Conserved(h[holder := h[holder].(holds := holds[..index] + holds[index + 1..])], owners, NoHole)
  {
    hide Refs, Balanced;
    var holds := h[holder].holds;
    var value := holds[index];
    var o := h[holder].(holds := holds[..index] + holds[index + 1..]);
    assert holds == holds[..index] + [value] + holds[index + 1..];
    assert Held(h[holder]) == Held(o) + multiset{value};
    var h' := h[holder := o];
    RefsGrow(h', holder, h[holder], multiset{value});
    assert h'[holder := h[holder]] == h;
    assert References(h', owners, NoHole) == References(h, owners, Slot(holder, value));
    BalancedHolds(h, References(h, owners, Slot(holder, value)), holder, o.holds);
  }

  /** What a release may do to the heap: lower counts and free objects, nothing else. */
  predicate OnlyReleased(h: Heap, h': Heap) {
    && h'.Keys <= h.Keys
    && (forall x :: x in h && h[x].Static? ==> x in h')
    && (forall x :: x in h' && h[x].Static? ==> h'[x] == h[x])
    && (forall x :: x in h' && h[x].Counted? ==> h'[x].Counted? && h'[x].holds == h[x].holds)
    && (forall x :: x in h' && h[x].Counted? ==> h'[x].count <= h[x].count && (h'[x].count == 0 <==> h[x].count == 0))
    && (forall x :: x in h && h[x].Counted? && h[x].count == 0 ==> x in h')
  }

  lemma StillNested(h: Heap, h': Heap, rank: Ref -> nat)
    requires OnlyReleased(h, h') && Nested(h, rank)
    ensures Nested(h', rank)
  {
    forall x | x in h' ensures Edges(h'[x]) == Edges(h[x]) {}
  }

  lemma ReleasedNothing(h: Heap)
    ensures OnlyReleased(h, h)
  {
  }

  lemma LoweredOnly(h: Heap, id: Ref)
    requires id in h && h[id].Counted? && h[id].count > 1
    ensures OnlyReleased(h, h[id := h[id].(count := h[id].count - 1)])
  {
  }

  lemma FreedOnly(h: Heap, h': Heap, id: Ref)
    requires id in h && h[id].Counted? && h[id].count == 1
    requires OnlyReleased(h[id := h[id].(count := 0)], h')
    ensures AtZero(h', id) && OnlyReleased(h, h' - {id})
  {
  }

  lemma ReleasedTwice(h0: Heap, h1: Heap, h2: Heap)
    requires OnlyReleased(h0, h1) && OnlyReleased(h1, h2)
    ensures OnlyReleased(h0, h2)
  {
  }

  lemma DyingStays(h: Heap, h': Heap, x: Ref)
    requires OnlyReleased(h, h') && AtZero(h, x)
    ensures AtZero(h', x) && h'[x] == h[x]
  {
  }

  lemma HolderStays(h: Heap, h': Heap, x: Ref)
    requires OnlyReleased(h, h') && x in h && x in h' && h[x].Counted?
    ensures h'[x].Counted? && h'[x].holds == h[x].holds
  {
  }
}
