/**
  Equality of objects: strings, numbers and nested arrays, compared through their classes.

  What an object means is written down as a tree; two objects are equal exactly when they mean the
  same, on every heap whose object arrays are nested without cycles. What the handler of arrays sees
  of an array without object callbacks is its count; `ContentOf` looks at the items as well, and the
  last section says exactly where the two differ.
 */
module Equality {
  import opened Arrays
  import opened Numbers
  import opened Strings

  type Ref = nat

  const NULL: Ref := 0

  /** `Plain` stands for the classes that have no equality handler. */
  datatype Object =
    | StringObject(text: Text)
    | NumberObject(number: Number)
    | ArrayObject(callbacks: Callbacks, items: seq<Ref>)
    | Plain(typeID: nat)

  type Heap = map<Ref, Object>

  predicate HoldsObjects(o: Object) { o.ArrayObject? && o.callbacks.ObjectCallbacks? }

  predicate IsRaw(o: Object) { o.ArrayObject? && o.callbacks.DefaultCallbacks? }

  /** No object at NULL, valid strings, and items of object arrays are objects. */
  predicate WellFormed(h: Heap) {
    && NULL !in h
    && (forall x :: x in h && h[x].StringObject? ==> ValidText(h[x].text))
    && (forall x, i :: x in h && HoldsObjects(h[x]) && 0 <= i < |h[x].items| ==> h[x].items[i] in h)
  }

  /** Object arrays hold objects of lower rank: nesting has no cycle. */
  ghost predicate Ranked(h: Heap, rank: Ref -> nat) {
    forall x, i :: x in h && HoldsObjects(h[x]) && 0 <= i < |h[x].items| ==> rank(h[x].items[i]) < rank(x)
  }

  /** What an object means; an array without object callbacks by its count or by its raw items. */
  datatype Meaning =
    | StringOf(bytes: seq<nat>)
    | NumberOf(number: Number)
    | ListOf(items: seq<Meaning>)
    | RawList(count: nat)
    | RawItems(raw: seq<Ref>)
    | Itself(ref: Ref)

  /** The meaning that the handlers can tell apart. */
  ghost function MeaningOf(h: Heap, rank: Ref -> nat, x: Ref): Meaning
    requires WellFormed(h) && Ranked(h, rank) && x in h
    decreases rank(x)
  {
    match h[x]
    case StringObject(text) => StringOf(text.bytes)
    case NumberObject(number) => NumberOf(number)
    case ArrayObject(DefaultCallbacks, items) => RawList(|items|)
    case ArrayObject(ObjectCallbacks, items) =>
      ListOf(seq(|items|, i requires 0 <= i < |items| => MeaningOf(h, rank, h[x].items[i])))
    case Plain(_) => Itself(x)
  }

  function TypeID(o: Object): nat {
    match o
    case StringObject(_) => 1
    case NumberObject(_) => 2
    case ArrayObject(_, _) => 12
    case Plain(typeID) => typeID
  }

  /** Classes without a handler are not strings, numbers or arrays. */
  predicate ProperTypes(h: Heap) {
    forall x :: x in h && h[x].Plain? ==> h[x].typeID !in {1, 2, 12}
  }

  ghost predicate ItemsSame(h: Heap, rank: Ref -> nat, a: Ref, b: Ref, n: nat)
    requires WellFormed(h) && a in h && b in h && HoldsObjects(h[a]) && HoldsObjects(h[b])
    requires n <= |h[a].items| && n <= |h[b].items|
    requires Ranked(h, rank)
  {
    forall i :: 0 <= i < n ==> MeaningOf(h, rank, h[a].items[i]) == MeaningOf(h, rank, h[b].items[i])
  }

  method EqualObjects(h: Heap, a: Ref, b: Ref, ghost rank: Ref -> nat) returns (same: bool)
    requires WellFormed(h) && ProperTypes(h) && Ranked(h, rank)
    requires (a == NULL || a in h) && (b == NULL || b in h)
    ensures same <==> a != NULL && b != NULL && MeaningOf(h, rank, a) == MeaningOf(h, rank, b)
    decreases if a in h then rank(a) + 1 else 0, 1
  {
    if a == NULL || b == NULL { return false; }
    if a == b { return true; }
    if TypeID(h[a]) != TypeID(h[b]) { return false; }
    match h[a] {
      case StringObject(text) => same := Strings.Equal(text, h[b].text);
      case NumberObject(number) => same := NumberEqual(number, h[b].number);
      case ArrayObject(_, _) => same := EqualArrays(h, a, b, rank);
      case Plain(_) => return false;
    }
  }

  /**
    The array class's handler: same callbacks, same count, and equal items where items can be
    compared. Without object callbacks the count decides.
   */
  method EqualArrays(h: Heap, a: Ref, b: Ref, ghost rank: Ref -> nat) returns (same: bool)
    requires WellFormed(h) && ProperTypes(h) && Ranked(h, rank)
    requires a in h && b in h && h[a].ArrayObject? && h[b].ArrayObject?
    ensures same <==> MeaningOf(h, rank, a) == MeaningOf(h, rank, b)
    ensures IsRaw(h[a]) && IsRaw(h[b]) ==> (same <==> |h[a].items| == |h[b].items|)
    ensures ContentOf(h, rank, a) == ContentOf(h, rank, b) <==> same && !RawConflict(h, rank, a, b)
    decreases rank(a) + 1, 0
  {
    hide ContentOf, RawConflict, Equals;
    EqualsIsSameMeaning(h, rank, a, b);
    SameContent(h, rank, a, b);
    var left, right := h[a], h[b];
    if left.callbacks != right.callbacks || |left.items| != |right.items| { return false; }
    for index := 0 to |left.items|
      invariant HoldsObjects(left) ==> ItemsSame(h, rank, a, b, index)
    {
      if left.items[index] == right.items[index] { continue; }
      if left.callbacks.ObjectCallbacks? {
        var itemsEqual := EqualObjects(h, left.items[index], right.items[index], rank);
        if !itemsEqual {
          assert MeaningOf(h, rank, a).items[index] != MeaningOf(h, rank, b).items[index];
          return false;
        }
      }
    }
    return true;
  }

  lemma ListMeaning(h: Heap, rank: Ref -> nat, a: Ref, b: Ref)
    requires WellFormed(h) && Ranked(h, rank) && a in h && b in h && HoldsObjects(h[a]) && HoldsObjects(h[b])
    ensures MeaningOf(h, rank, a) == MeaningOf(h, rank, b) <==>
            |h[a].items| == |h[b].items| && forall i :: 0 <= i < |h[a].items| ==>
              MeaningOf(h, rank, h[a].items[i]) == MeaningOf(h, rank, h[b].items[i])
  {
    var l, r := MeaningOf(h, rank, a).items, MeaningOf(h, rank, b).items;
    forall i | 0 <= i < |l| ensures l[i] == MeaningOf(h, rank, h[a].items[i]) {}
    forall i | 0 <= i < |r| ensures r[i] == MeaningOf(h, rank, h[b].items[i]) {}
    hide MeaningOf;
    if l == r {
      forall i | 0 <= i < |h[a].items|
        ensures MeaningOf(h, rank, h[a].items[i]) == MeaningOf(h, rank, h[b].items[i])
      {
        assert l[i] == r[i];
      }
    } else if |l| == |r| {
      var i :| 0 <= i < |l| && l[i] != r[i];
    }
  }

  /**
    When two objects mean the same: strings by their bytes, numbers by type and value, object arrays
    item by item, arrays without object callbacks by their counts, and all else only with itself.
   */
  lemma MeaningIs(h: Heap, rank: Ref -> nat, a: Ref, b: Ref)
    requires WellFormed(h) && Ranked(h, rank) && a in h && b in h
    ensures MeaningOf(h, rank, a) == MeaningOf(h, rank, b) <==>
            match (h[a], h[b])
            case (StringObject(s), StringObject(t)) => s.bytes == t.bytes
            case (NumberObject(m), NumberObject(n)) => m.numberType == n.numberType && m.value == n.value
            case (ArrayObject(DefaultCallbacks, xs), ArrayObject(DefaultCallbacks, ys)) => |xs| == |ys|
            case (ArrayObject(ObjectCallbacks, xs), ArrayObject(ObjectCallbacks, ys)) =>
              |xs| == |ys| && forall i :: 0 <= i < |xs| ==>
                MeaningOf(h, rank, h[a].items[i]) == MeaningOf(h, rank, h[b].items[i])
            case (Plain(_), Plain(_)) => a == b
            case _ => false
  {
    if HoldsObjects(h[a]) && HoldsObjects(h[b]) { ListMeaning(h, rank, a, b); }
  }

  // ---- equality as a relation ----

  /** The relation that the handlers define among themselves, pointer shortcuts included. */
  ghost predicate Equals(h: Heap, rank: Ref -> nat, a: Ref, b: Ref)
    requires WellFormed(h) && Ranked(h, rank) && a in h && b in h
    decreases rank(a)
  {
    a == b ||
    match (h[a], h[b])
    case (StringObject(s), StringObject(t)) => s.bytes == t.bytes
    case (NumberObject(m), NumberObject(n)) => NumberEqual(m, n)
    case (ArrayObject(c, xs), ArrayObject(d, ys)) =>
      c == d && |xs| == |ys| &&
      (c.ObjectCallbacks? ==>
         forall i :: 0 <= i < |xs| ==> xs[i] == ys[i] || Equals(h, rank, h[a].items[i], h[b].items[i]))
    case _ => false
  }

  lemma {:induction false} EqualsIsSameMeaning(h: Heap, rank: Ref -> nat, a: Ref, b: Ref)
    requires WellFormed(h) && Ranked(h, rank) && a in h && b in h
    ensures Equals(h, rank, a, b) <==> MeaningOf(h, rank, a) == MeaningOf(h, rank, b)
    decreases rank(a)
  {
    if HoldsObjects(h[a]) && HoldsObjects(h[b]) && |h[a].items| == |h[b].items| {
      var xs, ys := h[a].items, h[b].items;
      forall i | 0 <= i < |xs|
        ensures Equals(h, rank, xs[i], ys[i]) <==> MeaningOf(h, rank, xs[i]) == MeaningOf(h, rank, ys[i])
      {
        EqualsIsSameMeaning(h, rank, xs[i], ys[i]);
      }
      if MeaningOf(h, rank, a) == MeaningOf(h, rank, b) {
        forall i | 0 <= i < |xs| ensures Equals(h, rank, xs[i], ys[i]) {
          assert MeaningOf(h, rank, a).items[i] == MeaningOf(h, rank, b).items[i];
        }
      }
    } else {
    }
  }

  /** Equality is reflexive, symmetric and transitive. */
  lemma EqualsIsEquivalence(h: Heap, rank: Ref -> nat, a: Ref, b: Ref, c: Ref)
    requires WellFormed(h) && Ranked(h, rank) && a in h && b in h && c in h
    ensures Equals(h, rank, a, a)
    ensures Equals(h, rank, a, b) <==> Equals(h, rank, b, a)
    ensures Equals(h, rank, a, b) && Equals(h, rank, b, c) ==> Equals(h, rank, a, c)
  {
    hide Equals, MeaningOf;
    EqualsIsSameMeaning(h, rank, a, a);
    EqualsIsSameMeaning(h, rank, a, b);
    EqualsIsSameMeaning(h, rank, b, a);
    EqualsIsSameMeaning(h, rank, b, c);
    EqualsIsSameMeaning(h, rank, a, c);
  }

  // ---- equality of contents ----

  /** The meaning with the raw items of every array. */
  ghost function ContentOf(h: Heap, rank: Ref -> nat, x: Ref): Meaning
    requires WellFormed(h) && Ranked(h, rank) && x in h
    decreases rank(x)
  {
    match h[x]
    case StringObject(text) => StringOf(text.bytes)
    case NumberObject(number) => NumberOf(number)
    case ArrayObject(DefaultCallbacks, items) => RawItems(items)
    case ArrayObject(ObjectCallbacks, items) =>
      ListOf(seq(|items|, i requires 0 <= i < |items| => ContentOf(h, rank, h[x].items[i])))
    case Plain(_) => Itself(x)
  }

  /** Somewhere at the same place, `a` and `b` have arrays of the same count with other raw items. */
  ghost predicate RawConflict(h: Heap, rank: Ref -> nat, a: Ref, b: Ref)
    requires WellFormed(h) && Ranked(h, rank) && a in h && b in h
    decreases rank(a)
  {
    match (h[a], h[b])
    case (ArrayObject(DefaultCallbacks, xs), ArrayObject(DefaultCallbacks, ys)) => |xs| == |ys| && xs != ys
    case (ArrayObject(ObjectCallbacks, xs), ArrayObject(ObjectCallbacks, ys)) =>
      |xs| == |ys| && exists i :: 0 <= i < |xs| && RawConflict(h, rank, h[a].items[i], h[b].items[i])
    case _ => false
  }

  lemma ListContent(h: Heap, rank: Ref -> nat, a: Ref, b: Ref)
    requires WellFormed(h) && Ranked(h, rank) && a in h && b in h && HoldsObjects(h[a]) && HoldsObjects(h[b])
    ensures ContentOf(h, rank, a) == ContentOf(h, rank, b) <==>
            |h[a].items| == |h[b].items| && forall i :: 0 <= i < |h[a].items| ==>
              ContentOf(h, rank, h[a].items[i]) == ContentOf(h, rank, h[b].items[i])
  {
    var l, r := ContentOf(h, rank, a).items, ContentOf(h, rank, b).items;
    forall i | 0 <= i < |l| ensures l[i] == ContentOf(h, rank, h[a].items[i]) {}
    forall i | 0 <= i < |r| ensures r[i] == ContentOf(h, rank, h[b].items[i]) {}
    hide ContentOf;
    if l == r {
      forall i | 0 <= i < |h[a].items|
        ensures ContentOf(h, rank, h[a].items[i]) == ContentOf(h, rank, h[b].items[i])
      {
        assert l[i] == r[i];
      }
    } else if |l| == |r| {
      var i :| 0 <= i < |l| && l[i] != r[i];
    }
  }

  /** Contents of arrays without object callbacks are their raw items; of object arrays, item by item. */
  lemma ContentIs(h: Heap, rank: Ref -> nat, a: Ref, b: Ref)
    requires WellFormed(h) && Ranked(h, rank) && a in h && b in h && h[a].ArrayObject? && h[b].ArrayObject?
    ensures ContentOf(h, rank, a) == ContentOf(h, rank, b) <==>
            match (h[a], h[b])
            case (ArrayObject(DefaultCallbacks, xs), ArrayObject(DefaultCallbacks, ys)) => xs == ys
            case (ArrayObject(ObjectCallbacks, xs), ArrayObject(ObjectCallbacks, ys)) =>
              |xs| == |ys| && forall i :: 0 <= i < |xs| ==>
                ContentOf(h, rank, h[a].items[i]) == ContentOf(h, rank, h[b].items[i])
            case _ => false
  {
    if HoldsObjects(h[a]) && HoldsObjects(h[b]) { ListContent(h, rank, a, b); }
  }

  /** Contents are the same exactly when the handlers say so and no raw items are in conflict. */
  lemma {:induction false} SameContent(h: Heap, rank: Ref -> nat, a: Ref, b: Ref)
    requires WellFormed(h) && Ranked(h, rank) && a in h && b in h
    ensures ContentOf(h, rank, a) == ContentOf(h, rank, b) <==>
            Equals(h, rank, a, b) && !RawConflict(h, rank, a, b)
    decreases rank(a)
  {
    if HoldsObjects(h[a]) && HoldsObjects(h[b]) && |h[a].items| == |h[b].items| {
      var xs, ys := h[a].items, h[b].items;
      forall i | 0 <= i < |xs|
        ensures ContentOf(h, rank, xs[i]) == ContentOf(h, rank, ys[i]) <==>
                Equals(h, rank, xs[i], ys[i]) && !RawConflict(h, rank, xs[i], ys[i])
      {
        SameContent(h, rank, xs[i], ys[i]);
      }
      if ContentOf(h, rank, a) == ContentOf(h, rank, b) {
        forall i | 0 <= i < |xs| ensures ContentOf(h, rank, xs[i]) == ContentOf(h, rank, ys[i]) {
          assert ContentOf(h, rank, a).items[i] == ContentOf(h, rank, b).items[i];
        }
      }
    } else {
    }
  }

  /** On two arrays without object callbacks the answer is right unless equal counts hide other items. */
  lemma DefaultArraysExactly(h: Heap, rank: Ref -> nat, a: Ref, b: Ref)
    requires WellFormed(h) && Ranked(h, rank) && a in h && b in h
    requires IsRaw(h[a]) && IsRaw(h[b])
    ensures (Equals(h, rank, a, b) <==> ContentOf(h, rank, a) == ContentOf(h, rank, b)) <==>
            |h[a].items| != |h[b].items| || h[a].items == h[b].items
  {
    SameContent(h, rank, a, b);
  }

  /** No two arrays without object callbacks have the same count and different items. */
  predicate RawCountsTell(h: Heap) {
    forall x, y :: x in h && y in h && IsRaw(h[x]) && IsRaw(h[y]) && |h[x].items| == |h[y].items| ==>
      h[x].items == h[y].items
  }

  lemma {:induction false} NoConflict(h: Heap, rank: Ref -> nat, a: Ref, b: Ref)
    requires WellFormed(h) && Ranked(h, rank) && a in h && b in h && RawCountsTell(h)
    ensures !RawConflict(h, rank, a, b)
    decreases rank(a)
  {
    if HoldsObjects(h[a]) && HoldsObjects(h[b]) && |h[a].items| == |h[b].items| {
      forall i | 0 <= i < |h[a].items| ensures !RawConflict(h, rank, h[a].items[i], h[b].items[i]) {
        NoConflict(h, rank, h[a].items[i], h[b].items[i]);
      }
    } else {
    }
  }

  /** On a whole heap equality is equality of contents exactly when such counts tell the items apart. */
  lemma ContentEqualityExactly(h: Heap, rank: Ref -> nat)
    requires WellFormed(h) && Ranked(h, rank)
    ensures (forall a, b :: a in h && b in h ==>
               (Equals(h, rank, a, b) <==> ContentOf(h, rank, a) == ContentOf(h, rank, b))) <==>
            RawCountsTell(h)
  {
    hide Equals, ContentOf, RawConflict;
    if RawCountsTell(h) {
      forall a, b | a in h && b in h
        ensures Equals(h, rank, a, b) <==> ContentOf(h, rank, a) == ContentOf(h, rank, b)
      {
        SameContent(h, rank, a, b);
        NoConflict(h, rank, a, b);
      }
    } else {
      var a, b :| a in h && b in h && IsRaw(h[a]) && IsRaw(h[b]) && |h[a].items| == |h[b].items| &&
                  h[a].items != h[b].items;
      DefaultArraysExactly(h, rank, a, b);
    }
  }

  /** Two arrays of one raw item each, seven and eight, are equal to the handler. */
  lemma SevenEqualsEight(h: Heap, rank: Ref -> nat, a: Ref, b: Ref)
    requires WellFormed(h) && Ranked(h, rank) && a in h && b in h
    requires h[a] == ArrayObject(DefaultCallbacks, [7]) && h[b] == ArrayObject(DefaultCallbacks, [8])
    ensures Equals(h, rank, a, b) && ContentOf(h, rank, a) != ContentOf(h, rank, b)
  {
    assert [7][0] != [8][0];
    DefaultArraysExactly(h, rank, a, b);
  }
}
