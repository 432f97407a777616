/**
  Which objects a release frees: on any graph nothing that outside owners can still reach, and on
  acyclic graphs everything else. And when taking an item out of an array that the caller only
  borrows comes back to the array.
 */
module Reachability {
  import opened ReferenceCounting
  import opened Cascades

  /** A chain of references inside the heap. */
  predicate IsPath(h: Heap, path: seq<Ref>) {
    && path != []
    && (forall i :: 0 <= i < |path| ==> path[i] in h)
    && (forall i :: 0 <= i < |path| - 1 ==> path[i + 1] in Edges(h[path[i]]))
  }

  ghost predicate Reachable(h: Heap, owners: multiset<Ref>, x: Ref) {
    exists path :: IsPath(h, path) && path[0] in owners && path[|path| - 1] == x
  }

  /** Nothing is being torn down. */
  predicate AtRest(h: Heap) {
    forall x :: x in h ==> IsLive(h[x])
  }

  /** No reference leads back: the objects can be ranked so that references lead downwards. */
  ghost predicate Acyclic(h: Heap) {
    exists rank: Ref -> nat :: Nested(h, rank)
  }

  /** A heap whose references lead from higher to lower ranks is acyclic. */
  lemma RankedIsAcyclic(h: Heap, rank: Ref -> nat)
    requires forall x, y :: x in h && h[x].Counted? && y in h[x].holds ==> rank(y) < rank(x)
    ensures Nested(h, rank) && Acyclic(h)
  {
  }

  lemma {:induction false} RankBound(keys: set<Ref>, rank: Ref -> nat) returns (bound: nat)
    ensures forall x :: x in keys ==> rank(x) <= bound
    decreases keys
  {
    if keys == {} {
      bound := 0;
    } else {
      var k :| k in keys;
      bound := RankBound(keys - {k}, rank);
      if bound < rank(k) { bound := rank(k); }
      forall x | x in keys ensures rank(x) <= bound { assert x == k || x in keys - {k}; }
    }
  }

  lemma EdgeIsReference(h: Heap, owners: multiset<Ref>, x: Ref, y: Ref)
    requires Conserved(h, owners, NoHole) && x in h && IsLive(h[x]) && y in Edges(h[x])
    ensures y in h
  {
    hide Refs;
    HeldIsReferenced(h, x, y);
    assert y in References(h, owners, NoHole);
  }

  /** Whatever owners reach through the old graph is still allocated after the release. */
  lemma {:induction false} PathSurvives(h: Heap, h': Heap, owners: multiset<Ref>, path: seq<Ref>)
    requires IsPath(h, path) && path[0] in owners
    requires OnlyReleased(h, h') && AtRest(h') && Conserved(h', owners, NoHole)
    ensures path[|path| - 1] in h'
    decreases |path|
  {
    hide Refs;
    var last := path[|path| - 1];
    if |path| == 1 {
      OwnedIsLive(h', owners, NoHole, last);
    } else {
      var init := path[..|path| - 1];
      PathSurvives(h, h', owners, init);
      var before := init[|init| - 1];
      assert before == path[|path| - 2];
      EdgeIsReference(h', owners, before, last);
    }
  }

  /** A live object that is not owned has a live holder. */
  lemma LiveHasHolder(h: Heap, owners: multiset<Ref>, x: Ref) returns (z: Ref)
    requires Conserved(h, owners, NoHole) && AtRest(h) && x in h && h[x].Counted? && x !in owners
    ensures z in h && x in Edges(h[z]) && h[z].Counted?
  {
    hide Refs;
    assert References(h, owners, NoHole)[x] > 0;
    assert x in Refs(h);
    z := HolderOf(h, x);
  }

  lemma HolderOf(h: Heap, x: Ref) returns (z: Ref)
    requires x in Refs(h)
    ensures z in h && h[z].Counted? && x in h[z].holds
  {
    z := SomeHolder(h, h.Keys, x);
  }

  lemma OwnedIsReachable(h: Heap, owners: multiset<Ref>, x: Ref)
    requires x in h && x in owners
    ensures Reachable(h, owners, x)
  {
    assert IsPath(h, [x]) && [x][0] in owners && [x][|[x]| - 1] == x;
  }

  lemma ExtendPath(h: Heap, owners: multiset<Ref>, z: Ref, x: Ref)
    requires Reachable(h, owners, z) && x in h && z in h && x in Edges(h[z])
    ensures Reachable(h, owners, x)
  {
    var path :| IsPath(h, path) && path[0] in owners && path[|path| - 1] == z;
    var longer := path + [x];
    assert IsPath(h, longer) && longer[0] in owners && longer[|longer| - 1] == x;
  }

  lemma {:induction false} NestedNoLeak(h: Heap, owners: multiset<Ref>, rank: Ref -> nat, bound: nat, x: Ref)
    requires Conserved(h, owners, NoHole) && AtRest(h) && Nested(h, rank) && forall z :: z in h ==> rank(z) <= bound
    requires x in h && h[x].Counted?
    ensures Reachable(h, owners, x)
    decreases bound - rank(x)
  {
    hide Conserved;
    if x in owners {
      OwnedIsReachable(h, owners, x);
    } else {
      var z := LiveHasHolder(h, owners, x);
      NestedNoLeak(h, owners, rank, bound, z);
      ExtendPath(h, owners, z, x);
    }
  }

  /** Without cycles, every counted object that is alive can be reached by an owner. */
  lemma AcyclicNoLeak(h: Heap, owners: multiset<Ref>, x: Ref)
    requires Conserved(h, owners, NoHole) && AtRest(h) && Acyclic(h)
    requires x in h && h[x].Counted?
    ensures Reachable(h, owners, x)
  {
    hide Conserved, Reachable;
    var rank: Ref -> nat :| Nested(h, rank);
    var bound := RankBound(h.Keys, rank);
    NestedNoLeak(h, owners, rank, bound, x);
  }

  lemma PathInOld(h: Heap, h': Heap, path: seq<Ref>)
    requires OnlyReleased(h, h') && IsPath(h', path)
    ensures IsPath(h, path)
  {
    forall i | 0 <= i < |path| - 1 ensures path[i + 1] in Edges(h[path[i]]) {
      assert Edges(h'[path[i]]) == Edges(h[path[i]]);
    }
  }

  /**
    After a release nothing that owners reach has been freed, on any graph; on an acyclic graph the
    counted survivors are exactly the objects that owners reach through the graph as it was.
   */
  lemma ReleaseFreesTheUnreachable(h: Heap, h': Heap, owners: multiset<Ref>, x: Ref)
    requires AtRest(h) && OnlyReleased(h, h') && AtRest(h') && Conserved(h', owners, NoHole)
    requires x in h && h[x].Counted?
    ensures Reachable(h, owners, x) ==> x in h'
    ensures Acyclic(h) ==> (x in h' <==> Reachable(h, owners, x))
  {
    hide Conserved;
    if Reachable(h, owners, x) {
      var path :| IsPath(h, path) && path[0] in owners && path[|path| - 1] == x;
      PathSurvives(h, h', owners, path);
    }
    if Acyclic(h) && x in h' {
      StillAcyclic(h, h');
      AcyclicNoLeak(h', owners, x);
      var path :| IsPath(h', path) && path[0] in owners && path[|path| - 1] == x;
      PathInOld(h, h', path);
    }
  }

  lemma StillAcyclic(h: Heap, h': Heap)
    requires OnlyReleased(h, h') && Acyclic(h)
    ensures Acyclic(h')
  {
    var rank: Ref -> nat :| Nested(h, rank);
    StillNested(h, h', rank);
  }

  /** An unreachable object that is alive is held by another unreachable object that is alive. */
  lemma LeakIsHeldByLeak(h: Heap, owners: multiset<Ref>, x: Ref) returns (z: Ref)
    requires Conserved(h, owners, NoHole) && AtRest(h) && x in h && h[x].Counted?
    requires !Reachable(h, owners, x)
    ensures z in h && h[z].Counted? && x in h[z].holds && !Reachable(h, owners, z)
  {
    hide Conserved;
    if x in owners { OwnedIsReachable(h, owners, x); }
    z := LiveHasHolder(h, owners, x);
    if Reachable(h, owners, z) { ExtendPath(h, owners, z, x); }
  }

  /** A chain of `n` references between unreachable objects that ends at `x`. */
  lemma {:induction false} LeakChain(h: Heap, owners: multiset<Ref>, x: Ref, n: nat) returns (path: seq<Ref>)
    requires Conserved(h, owners, NoHole) && AtRest(h) && x in h && h[x].Counted?
    requires !Reachable(h, owners, x)
    ensures |path| == n + 1 && IsPath(h, path) && path[n] == x
    ensures forall z :: z in path ==> z in h && h[z].Counted? && !Reachable(h, owners, z)
    decreases n
  {
    hide Conserved, Reachable;
    if n == 0 {
      path := [x];
    } else {
      var z := LeakIsHeldByLeak(h, owners, x);
      var init := LeakChain(h, owners, z, n - 1);
      path := init + [x];
    }
  }

  /** More places than elements: one element comes twice. */
  lemma {:induction false} Pigeonhole(path: seq<Ref>, keys: set<Ref>) returns (i: nat, j: nat)
    requires |path| > |keys| && forall x :: x in path ==> x in keys
    ensures i < j < |path| && path[i] == path[j]
    decreases |path|
  {
    j := |path| - 1;
    var init := path[..j];
    if path[j] in init {
      i :| 0 <= i < j && init[i] == path[j];
    } else {
      assert path[j] in keys;
      i, j := Pigeonhole(init, keys - {path[j]});
    }
  }

  /**
    Only cycles leak: from an unreachable object that is alive, unreachable objects that are alive
    lead back, holder by holder, until one of them comes a second time.
   */
  lemma LeakComesFromCycle(h: Heap, owners: multiset<Ref>, x: Ref) returns (path: seq<Ref>, i: nat, j: nat)
    requires Conserved(h, owners, NoHole) && AtRest(h) && x in h && h[x].Counted?
    requires !Reachable(h, owners, x)
    ensures IsPath(h, path) && path[|path| - 1] == x
    ensures forall z :: z in path ==> z in h && h[z].Counted? && !Reachable(h, owners, z)
    ensures i < j < |path| && path[i] == path[j]
  {
    hide Conserved, Reachable, IsPath, AtRest;
    path := LeakChain(h, owners, x, |h.Keys|);
    i, j := Pigeonhole(path, h.Keys);
  }

  lemma MutualRefs(h: Heap, a: Ref, b: Ref)
    requires a != b && h.Keys == {a, b} && h[a] == Counted(1, [b]) && h[b] == Counted(1, [a])
    ensures Refs(h) == multiset{a, b}
  {
    HeldInSplit(h, h.Keys, a);
    HeldInSplit(h, h.Keys - {a}, b);
    assert h.Keys - {a} - {b} == {};
  }

  lemma MutualBalance(h: Heap, a: Ref, b: Ref)
    requires a != b && h.Keys == {a, b} && h[a] == Counted(1, [b]) && h[b] == Counted(1, [a])
    ensures Conserved(h, multiset{}, NoHole) && AtRest(h)
  {
    hide Refs;
    MutualRefs(h, a, b);
    assert References(h, multiset{}, NoHole) == multiset{a, b};
  }

  /** Two arrays that hold each other stay allocated when nobody owns them. */
  lemma MutualHoldersLeak(a: Ref, b: Ref)
    requires a != b
    ensures var h: Heap := map[a := Counted(1, [b]), b := Counted(1, [a])];
            Conserved(h, multiset{}, NoHole) && AtRest(h) && !Reachable(h, multiset{}, a)
  {
    hide Conserved, AtRest;
    MutualBalance(map[a := Counted(1, [b]), b := Counted(1, [a])], a, b);
  }

  lemma AtRestAfter(h: Heap, h': Heap, owners: multiset<Ref>)
    requires AtRest(h) && OnlyReleased(h, h') && Conserved(h', owners, NoHole)
    ensures AtRest(h')
  {
    hide Refs;
  }

  // ---- taking an item out of an array ----

  /** The array's items without the one at `index`. */
  function Closed(h: Heap, holder: Ref, index: nat): Heap
    requires holder in h && h[holder].Counted? && index < |h[holder].holds|
  {
    h[holder := h[holder].(holds := h[holder].holds[..index] + h[holder].holds[index + 1..])]
  }

  /**
    Something keeps the array while the item is released: a chain of live objects that does not use
    the slot, and that starts at an owner or at an object that comes again in it.
   */
  ghost predicate Supported(h: Heap, owners: multiset<Ref>, holder: Ref, value: Ref) {
    exists path :: Chain(h, Slot(holder, value), path) && Rooted(owners, path)
  }

  /** An array that an owner reaches is supported, on any graph. */
  lemma ReachableIsSupported(h: Heap, owners: multiset<Ref>, holder: Ref, value: Ref)
    requires AtRest(h) && Reachable(h, owners, holder) && h[holder].Counted?
    ensures Supported(h, owners, holder, value)
  {
    var path :| IsPath(h, path) && path[0] in owners && path[|path| - 1] == holder;
    var k := FirstPlace(path, holder);
    var chain := path[..k + 1];
    forall i | 0 <= i < |chain| - 1
      ensures h[chain[i]].Counted? && chain[i + 1] in Held(h[chain[i]]) - SlotAt(Slot(holder, value), chain[i])
    {
      assert chain[i] == path[i] && chain[i + 1] == path[i + 1] && path[i + 1] in Edges(h[path[i]]);
    }
    assert Chain(h, Slot(holder, value), chain) && chain[0] in owners;
  }

  lemma {:induction false} FirstPlace(path: seq<Ref>, x: Ref) returns (k: nat)
    requires x in path
    ensures k < |path| && path[k] == x && x !in path[..k]
    decreases |path|
  {
    if path[0] == x {
      k := 0;
    } else {
      var j := FirstPlace(path[1..], x);
      k := j + 1;
      assert path[..k] == [path[0]] + path[1..][..j];
    }
  }

  /** Without cycles every array is supported. */
  lemma AcyclicIsSupported(h: Heap, owners: multiset<Ref>, holder: Ref, value: Ref)
    requires Conserved(h, owners, NoHole) && AtRest(h) && Acyclic(h) && holder in h && h[holder].Counted?
    ensures Supported(h, owners, holder, value)
  {
    hide Conserved, Supported;
    AcyclicNoLeak(h, owners, holder);
    ReachableIsSupported(h, owners, holder, value);
  }

  /** A path of the heap that is left, read back in the heap before the item was released. */
  lemma ChainFromClosed(h: Heap, h': Heap, holder: Ref, index: nat, path: seq<Ref>)
    requires AtRest(h') && OnlyReleased(h, h') && holder in h' && h'[holder].Counted? && index < |h[holder].holds|
    requires h'[holder].holds == h[holder].holds
    requires IsPath(Closed(h', holder, index), path) && path[|path| - 1] == holder
    ensures Chain(h, Slot(holder, h[holder].holds[index]), path)
  {
    var c, hole := Closed(h', holder, index), Slot(holder, h[holder].holds[index]);
    forall i | 0 <= i < |path| - 1
      ensures h[path[i]].Counted? && path[i + 1] in Held(h[path[i]]) - SlotAt(hole, path[i])
    {
      assert path[i + 1] in Edges(c[path[i]]);
      if path[i] == holder { HeldBesideSlot(h[holder], index, path[i + 1]); }
    }
  }

  lemma HeldBesideSlot(o: Object, index: nat, y: Ref)
    requires o.Counted? && o.count > 0 && index < |o.holds| && y in o.holds[..index] + o.holds[index + 1..]
    ensures y in Held(o) - multiset{o.holds[index]}
  {
    assert o.holds == o.holds[..index] + [o.holds[index]] + o.holds[index + 1..];
  }

  /** What is left after a removal that ended well shows what kept the array. */
  lemma LeftoverSupports(h: Heap, h': Heap, owners: multiset<Ref>, holder: Ref, index: nat)
    requires holder in h && h[holder].Counted?
    requires AtRest(h') && OnlyReleased(h, h') && holder in h' && h'[holder].Counted? && index < |h[holder].holds|
    requires h'[holder].holds == h[holder].holds && AtRest(Closed(h', holder, index))
    requires Conserved(Closed(h', holder, index), owners, NoHole)
    ensures Supported(h, owners, holder, h[holder].holds[index])
  {
    hide Conserved, AtRest, Chain, OnlyReleased;
    var c, value := Closed(h', holder, index), h[holder].holds[index];
    if Reachable(c, owners, holder) {
      var path :| IsPath(c, path) && path[0] in owners && path[|path| - 1] == holder;
      ChainFromClosed(h, h', holder, index, path);
      assert Chain(h, Slot(holder, value), path) && Rooted(owners, path);
    } else {
      var path, i, j := LeakComesFromCycle(c, owners, holder);
      var lasso := path[i..];
      SuffixIsPath(c, path, i);
      ChainFromClosed(h, h', holder, index, lasso);
      assert lasso[j - i] == lasso[0];
      assert Chain(h, Slot(holder, value), lasso) && Rooted(owners, lasso);
    }
  }

  lemma SuffixIsPath(h: Heap, path: seq<Ref>, i: nat)
    requires IsPath(h, path) && i < |path|
    ensures IsPath(h, path[i..]) && path[i..][|path[i..]| - 1] == path[|path| - 1]
  {
    forall k | 0 <= k < |path[i..]| - 1 ensures path[i..][k + 1] in Edges(h[path[i..][k]]) {
      assert path[i + k + 1] in Edges(h[path[i + k]]);
    }
  }

  lemma RestWithSlot(h: Heap, h': Heap, owners: multiset<Ref>, hole: Hole)
    requires AtRest(h) && OnlyReleased(h, h') && Conserved(h', owners, hole)
    ensures AtRest(h')
  {
    hide Refs;
  }

  /** Of the release of an array's item while its slot is open, whatever else is being torn down. */
  lemma RemovalRuns(h: Heap, owners: multiset<Ref>, holder: Ref, index: nat, n: nat)
    requires Conserved(h, owners, NoHole) && n >= Outstanding(h, owners) + 1
    requires holder in h && h[holder].Counted? && h[holder].count > 0 && index < |h[holder].holds|
    ensures var t := RunRelease(h, h[holder].holds[index], n);
            && (t.Fine? || t.Underflow?)
            && (Supported(h, owners, holder, h[holder].holds[index]) ==> t.Fine?)
            && (t.Fine? ==> && OnlyReleased(h, t.heap) && holder in t.heap && t.heap[holder].Counted?
                            && t.heap[holder].holds == h[holder].holds
                            && Conserved(t.heap, owners, Slot(holder, h[holder].holds[index]))
                            && Conserved(Closed(t.heap, holder, index), owners, NoHole))
  {
    hide Conserved, Chain, Rooted, OnlyReleased, Outstanding, Refs;
    var value := h[holder].holds[index];
    var hole := Slot(holder, value);
    HandOut(h, owners, holder, value);
    assert owners + multiset{value} - multiset{value} == owners;
    OneMoreOutstanding(h, owners, value);
    var path := [];
    if Supported(h, owners, holder, value) {
      path :| Chain(h, hole, path) && Rooted(owners, path);
    }
    var t := ReleaseRuns(h, owners + multiset{value}, hole, path, value);
    if t.Fine? {
      HoleIsLive(t.heap, owners, hole);
      HolderStays(h, t.heap, holder);
      CloseSlot(t.heap, owners, holder, index);
    }
  }

  /**
    At rest it ends well, with the array still there and the books balanced once the slot is closed,
    exactly when the array is supported. Otherwise it comes back to the array and ends in the
    underflow abort.
   */
  lemma RemovalExactly(h: Heap, owners: multiset<Ref>, holder: Ref, index: nat, n: nat)
    requires Conserved(h, owners, NoHole) && AtRest(h) && n >= Outstanding(h, owners) + 1
    requires holder in h && h[holder].Counted? && index < |h[holder].holds|
    ensures var t := RunRelease(h, h[holder].holds[index], n);
            if Supported(h, owners, holder, h[holder].holds[index])
            then && t.Fine? && OnlyReleased(h, t.heap) && holder in t.heap && t.heap[holder].Counted?
                 && t.heap[holder].holds == h[holder].holds
                 && AtRest(Closed(t.heap, holder, index)) && Conserved(Closed(t.heap, holder, index), owners, NoHole)
            else t.Underflow?
  {
    hide Conserved, Supported, AtRest, OnlyReleased, Outstanding, RunRelease;
    LiveAtRest(h, holder);
    RemovalRuns(h, owners, holder, index, n);
    var t := RunRelease(h, h[holder].holds[index], n);
    if t.Fine? {
      RestWithSlot(h, t.heap, owners, Slot(holder, h[holder].holds[index]));
      ClosedAtRest(t.heap, holder, index);
      LeftoverSupports(h, t.heap, owners, holder, index);
    }
  }

  lemma ClosedAtRest(h: Heap, holder: Ref, index: nat)
    requires AtRest(h) && holder in h && h[holder].Counted? && index < |h[holder].holds|
    ensures AtRest(Closed(h, holder, index))
  {
  }

  lemma LiveAtRest(h: Heap, x: Ref)
    requires AtRest(h) && x in h
    ensures IsLive(h[x])
  {
  }

  lemma OneMoreOutstanding(h: Heap, owners: multiset<Ref>, value: Ref)
    ensures Outstanding(h, owners + multiset{value}) == Outstanding(h, owners) + 1
  {
    hide Refs;
  }

  lemma HoleIsLive(h: Heap, owners: multiset<Ref>, hole: Hole)
    requires Conserved(h, owners, hole)
    ensures HoleLive(h, hole)
  {
  }

  /**
    Two arrays that hold each other, of which one is only borrowed: removing its item releases the
    other one, whose teardown releases the borrowed array, whose teardown releases the item that is
    still in the slot once more. The run ends in the underflow abort.
   */
  lemma BorrowedCycleAborts(a: Ref, b: Ref, fuel: nat)
    requires a != b && fuel >= 3
    ensures RunRelease(map[a := Counted(1, [b]), b := Counted(1, [a])], b, fuel) == Underflow
  {
    var h: Heap := map[a := Counted(1, [b]), b := Counted(1, [a])];
    var h1 := h[b := Counted(0, [a])];
    var h2 := h1[a := Counted(0, [b])];
    assert RunRelease(h2, b, fuel - 2) == Underflow;
    assert RunReleases(h2, [b], fuel - 2) == Underflow;
    assert RunRelease(h1, a, fuel - 1) == Underflow;
    assert RunReleases(h1, [a], fuel - 1) == Underflow;
  }

  lemma MutualIsCyclic(h: Heap, a: Ref, b: Ref)
    requires a in h && b in h && b in Edges(h[a]) && a in Edges(h[b])
    ensures !Acyclic(h)
  {
    forall rank: Ref -> nat ensures !Nested(h, rank) {
      EdgeFalls(h, rank, a, b);
      EdgeFalls(h, rank, b, a);
    }
  }

  lemma EdgeFalls(h: Heap, rank: Ref -> nat, x: Ref, y: Ref)
    requires x in h && y in Edges(h[x])
    ensures Nested(h, rank) ==> rank(y) < rank(x)
  {
  }

  /** The same cycle below an owned array: its other member may be taken out of the borrowed one. */
  lemma HeldCycleIsSafe(a: Ref, b: Ref, c: Ref)
    requires a != b && a != c && b != c
    ensures var h: Heap := map[c := Counted(1, [a]), a := Counted(2, [b]), b := Counted(1, [a])];
            Supported(h, multiset{c}, a, b) && !Acyclic(h)
  {
    var h: Heap := map[c := Counted(1, [a]), a := Counted(2, [b]), b := Counted(1, [a])];
    var path := [c, a];
    assert IsPath(h, path) && path[0] in multiset{c} && path[|path| - 1] == a;
    ReachableIsSupported(h, multiset{c}, a, b);
    MutualIsCyclic(h, a, b);
  }
}
