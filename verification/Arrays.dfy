/**
  The growable array: a buffer, a count and a capacity that grows in steps of five.

  With object callbacks the array retains what it takes in and releases what it gives up. The
  ghost field `held` adds up those calls; `Valid` says that they balance with the contents. What a
  retain callback answers is a parameter (`accepts`).
 */
module Arrays {
  import opened Integers

  datatype Callbacks = DefaultCallbacks | ObjectCallbacks

  // ---- removing a range, on values ----

  function RemoveIndex<T>(s: seq<T>, index: int): seq<T> {
    if 0 <= index < |s| then s[..index] + s[index + 1..] else s
  }

  /** What is left after removing `length` items from `location` on; a range may run past the end. */
  function RemoveRange<T>(s: seq<T>, location: int, length: int): seq<T> {
    if 0 <= location < |s| && length > 0
    then s[..location] + (if location + length <= |s| then s[location + length..] else [])
    else s
  }

  // ---- reserving room for a bulk append, on numbers ----

  /** Blocks of five that `n` values take. */
  function Blocks(n: nat): nat { (n + 4) / 5 }

  /** The room beyond the count once `blocks` rounds, each of which checks for one more index, are done. */
  function SlackAfter(slack: nat, blocks: nat): (c: nat)
    ensures c >= slack
  {
    if blocks == 0 then slack
    else
      var c := SlackAfter(slack, blocks - 1);
      if c >= 5 * (blocks - 1) + 1 then c else c + 5
  }

  /** The rounds in closed form. */
  lemma {:induction false} ClosedForm(slack: nat, blocks: nat)
    ensures var room := 5 * (blocks - 1) + if slack % 5 == 0 then 5 else slack % 5;
            SlackAfter(slack, blocks) == if blocks == 0 || slack > room then slack else room
  {
    if blocks == 0 {
    } else {
      ClosedForm(slack, blocks - 1);
      var r := if slack % 5 == 0 then 5 else slack % 5;
      var q := (slack - r) / 5;
      assert slack == 5 * q + r;
      if q >= blocks - 1 { assert slack >= 5 * (blocks - 1) + r; } else { assert slack <= 5 * (blocks - 2) + r; }
    }
  }

  /** The guard under which the reservation makes room for `n` values. */
  predicate RoomSuffices(slack: nat, n: nat) {
    n == 0 || slack % 5 == 0 || slack >= n || (n - 1) % 5 + 1 <= slack % 5
  }

  /** The reservation is enough exactly under the guard. */
  lemma ReservationFits(slack: nat, n: nat)
    ensures SlackAfter(slack, Blocks(n)) >= n <==> RoomSuffices(slack, n)
    ensures SlackAfter(slack, Blocks(n)) >= n <==>
            n == 0 || slack % 5 == 0 || slack >= n || (n - 1) % 5 + 1 <= slack % 5
  {
    ClosedForm(slack, Blocks(n));
    if n > 0 {
      var b := (n - 1) / 5;
      assert n - 1 == 5 * b + (n - 1) % 5;
      assert Blocks(n) == b + 1;
    }
  }

  /** Room for one, five values: nothing is reserved. */
  lemma NoRoomForFive()
    ensures SlackAfter(1, Blocks(5)) == 1 && !RoomSuffices(1, 5)
  {
    ClosedForm(1, 1);
  }

  /** One more round grows the room exactly when its one index is not there yet. */
  lemma SlackStep(slack: nat, blocks: nat)
    ensures SlackAfter(slack, 0) == slack
    ensures var c := SlackAfter(slack, blocks);
            SlackAfter(slack, blocks + 1) == if c >= 5 * blocks + 1 then c else c + 5
  {
  }

  lemma RoundStep(slack: nat, blocks: nat, memory: nat -> bool)
    ensures RoundsDone(slack, 0, memory) == 0
    ensures var grows := SlackAfter(slack, blocks) >= 5 * blocks + 1 || memory(blocks);
            RoundsDone(slack, blocks, memory) == blocks && grows ==>
              RoundsDone(slack, blocks + 1, memory) == blocks + 1
  {
  }

  lemma {:induction false} SlackGrows(slack: nat, b: nat, c: nat)
    requires b <= c
    ensures SlackAfter(slack, b) <= SlackAfter(slack, c)
    decreases c
  {
    if b == c {
    } else {
      SlackGrows(slack, b, c - 1);
    }
  }

  /**
    How many rounds are done when `memory(k)` says whether round `k` may grow: all of them, or those
    before the first one that must grow and may not.
   */
  function RoundsDone(slack: nat, blocks: nat, memory: nat -> bool): (k: nat)
    ensures k <= blocks
  {
    if blocks == 0 then 0
    else
      var k := RoundsDone(slack, blocks - 1, memory);
      if k < blocks - 1 then k
      else if SlackAfter(slack, k) >= 5 * k + 1 || memory(k) then blocks
      else k
  }

  lemma {:induction false} RoundFails(slack: nat, blocks: nat, memory: nat -> bool, k: nat)
    requires k < blocks && RoundsDone(slack, k, memory) == k
    requires SlackAfter(slack, k) < 5 * k + 1 && !memory(k)
    ensures RoundsDone(slack, blocks, memory) == k
    decreases blocks
  {
    if k + 1 == blocks {
    } else {
      RoundFails(slack, blocks - 1, memory, k);
    }
  }

  /** With memory in every round all are done; without any, exactly when nothing had to grow. */
  lemma {:induction false} RoundsWithMemory(slack: nat, blocks: nat, memory: nat -> bool)
    ensures (forall k :: 0 <= k < blocks ==> memory(k)) ==> RoundsDone(slack, blocks, memory) == blocks
    ensures (forall k :: 0 <= k < blocks ==> !memory(k)) ==>
              (RoundsDone(slack, blocks, memory) == blocks <==> SlackAfter(slack, blocks) == slack)
    decreases blocks
  {
    if blocks == 0 {
    } else {
      RoundsWithMemory(slack, blocks - 1, memory);
      SlackGrows(slack, 0, blocks - 1);
    }
  }

  /** Under the guard, the reservation leaves the room as it is exactly when there was enough. */
  lemma NoGrowthNeeded(slack: nat, n: nat)
    requires RoomSuffices(slack, n)
    ensures SlackAfter(slack, Blocks(n)) == slack <==> slack >= n
  {
    hide SlackAfter, RoomSuffices, Blocks;
    ReservationFits(slack, n);
    ClosedForm(slack, Blocks(n));
    if n == 0 { assert Blocks(n) == 0 by { NoBlocks(); } }
    if slack >= n > 0 { EnoughRoom(slack, n); }
  }

  lemma NoBlocks()
    ensures Blocks(0) == 0
  {
  }

  lemma EnoughRoom(slack: nat, n: nat)
    requires slack >= n > 0
    ensures slack >= 5 * (Blocks(n) - 1) + if slack % 5 == 0 then 5 else slack % 5
  {
    var b, c := FiveBlocks(n);
    var q, r := FiveBlocks(slack);
    MoreBlocks(b, c, q, r);
  }

  /** Whole blocks of five, and one to five more. */
  lemma FiveBlocks(n: nat) returns (b: nat, c: nat)
    requires n > 0
    ensures n == 5 * b + c && 1 <= c <= 5 && Blocks(n) == b + 1 && c == if n % 5 == 0 then 5 else n % 5
  {
    b := (n - 1) / 5;
    c := n - 5 * b;
  }

  lemma MoreBlocks(b: nat, c: nat, q: nat, r: nat)
    requires 1 <= c <= 5 && 1 <= r <= 5 && 5 * q + r >= 5 * b + c
    ensures q >= b
  {
  }

  // ---- what an array holds ----

  /** The references that an array with these callbacks has to its items. */
  ghost function References<T>(callbacks: Callbacks, s: seq<T>): multiset<T> {
    if callbacks.ObjectCallbacks? then multiset(s) else multiset{}
  }

  lemma AppendReference<T>(callbacks: Callbacks, s: seq<T>, x: T)
    ensures References(callbacks, s + [x]) == References(callbacks, s) + References(callbacks, [x])
  {
  }

  lemma OneReference<T>(callbacks: Callbacks, x: T)
    ensures References(callbacks, [x]) == if callbacks == ObjectCallbacks then multiset{x} else multiset{}
  {
  }

  lemma ManyReferences<T>(callbacks: Callbacks, s: seq<T>, more: seq<T>)
    ensures References(callbacks, s + more) ==
            References(callbacks, s) + if callbacks == ObjectCallbacks then multiset(more) else multiset{}
  {
  }

  lemma RangeReferences<T>(callbacks: Callbacks, s: seq<T>, location: int, length: int)
    ensures RemoveRange(s, location, 0) == s
    ensures location < 0 || location >= |s| || length <= 0 ==> RemoveRange(s, location, length) == s
    ensures 0 <= location < |s| && length > 0 ==>
              var end := if location + length < |s| then location + length else |s|;
              && RemoveRange(s, location, length) == s[..location] + s[end..]
              && References(callbacks, s) == References(callbacks, s[..location] + s[end..]) +
                 if callbacks == ObjectCallbacks then multiset(s[location..end]) else multiset{}
  {
    if 0 <= location < |s| && length > 0 {
      var end := if location + length < |s| then location + length else |s|;
      assert s == s[..location] + s[location..end] + s[end..];
    }
  }

  lemma InsertReference<T>(callbacks: Callbacks, s: seq<T>, index: nat, x: T)
    requires index <= |s|
    ensures References(callbacks, s[..index] + [x] + s[index..]) ==
            References(callbacks, s) + References(callbacks, [x])
  {
    assert s == s[..index] + s[index..];
  }

  lemma RemoveReference<T>(callbacks: Callbacks, s: seq<T>, index: nat)
    requires index < |s|
    ensures References(callbacks, [s[index]]) <= References(callbacks, s)
    ensures References(callbacks, s[..index] + s[index + 1..]) ==
            References(callbacks, s) - References(callbacks, [s[index]])
  {
    assert s == s[..index] + [s[index]] + s[index + 1..];
  }

  // ---- the array ----

  class EFArray<T(0)> {
    var isMutable: bool
    const callbacks: Callbacks
    var items: array<T>
    var count: nat
    var capacity: nat
    ghost var held: multiset<T>

    ghost predicate Valid()
      reads this, items
    {
      Sized() && held == References(callbacks, Contents())
    }

    /** The capacity is that of the buffer, and the items fit. */
    predicate Sized()
      reads this
    {
      capacity == items.Length && count <= capacity
    }

    /** Object arrays hold one reference for each of their items, others hold none. */
    lemma HeldBalances()
      requires Valid()
      ensures callbacks == ObjectCallbacks ==> held == multiset(items[..count])
      ensures callbacks == DefaultCallbacks ==> held == multiset{}
    {
    }

    /** Whether the retain callback, if there is one, takes an item that it would `accept` or not. */
    predicate Retains(accept: bool) { callbacks.DefaultCallbacks? || accept }

    function Contents(): seq<T>
      reads this, items
      requires Sized()
    {
      items[..count]
    }

    constructor CreateMutable(callbacks: Callbacks, capacity: nat)
      ensures Valid() && fresh(items) && isMutable && this.callbacks == callbacks
      ensures Contents() == [] && this.capacity == capacity
    {
      this.isMutable, this.callbacks, this.count, this.capacity := true, callbacks, 0, capacity;
      items := new T[capacity];
      held := multiset{};
    }

    /**
      Makes room for one more index, or reports that there is no memory. During a bulk reservation
      the count runs ahead of the capacity.
     */
    method ResizeIfNeededForOneMoreIndex(memory: bool) returns (ok: bool)
      requires capacity == items.Length
      modifies this`items, this`capacity
      ensures ok <==> old(capacity) >= count + 1 || memory
      ensures capacity == items.Length == old(capacity) + if ok && old(capacity) < count + 1 then 5 else 0
      ensures items == old(items) || fresh(items)
      ensures items[..old(capacity)] == old(items[..])
    {
      if capacity >= count + 1 { return true; }
      var newCapacity := capacity + 5;
      if !memory { return false; }
      var p := new T[newCapacity];
      forall i | 0 <= i < capacity { p[i] := items[i]; }
      items := p;
      capacity := newCapacity;
      return true;
    }

    /** The callback that takes a reference to an item. */
    method RetainItem(x: T, accept: bool) returns (ok: bool)
      modifies this`held
      ensures ok <==> Retains(accept)
      ensures held == old(held) + if ok then References(callbacks, [x]) else multiset{}
    {
      ok := callbacks.DefaultCallbacks? || accept;
      if ok { held := held + References(callbacks, [x]); }
    }

    /** The callback that gives a reference to an item back. */
    method ReleaseItem(x: T)
      requires References(callbacks, [x]) <= held
      modifies this`held
      ensures held == old(held) - References(callbacks, [x])
    {
      held := held - References(callbacks, [x]);
    }

    /** Growth comes first: it stays when the callback then refuses the item. */
    method TakeIn(x: T, memory: bool, accept: bool) returns (ok: bool)
      requires Valid()
      modifies this`items, this`capacity, this`held
      ensures Sized() && (items == old(items) || fresh(items))
      ensures ok <==> (count < old(capacity) || memory) && Retains(accept)
      ensures capacity == old(capacity) + if count == old(capacity) && memory then 5 else 0
      ensures Contents() == old(Contents()) && (ok ==> count < capacity)
      ensures held == old(held) + if ok then References(callbacks, [x]) else multiset{}
    {
      hide References;
      ghost var was := Contents();
      ok := ResizeIfNeededForOneMoreIndex(memory);
      assert items[..count] == was;
      if !ok { return false; }
      ok := RetainItem(x, accept);
    }

    method AppendValue(x: T, memory: bool, accept: bool) returns (ok: bool)
      requires Valid()
      modifies this`items, this`capacity, this`count, this`held, items
      ensures Valid() && (items == old(items) || fresh(items))
      ensures ok <==>
              isMutable && (old(count) < old(capacity) || memory) && (callbacks == DefaultCallbacks || accept)
      ensures capacity == old(capacity) + if isMutable && old(count) == old(capacity) && memory then 5 else 0
      ensures Contents() == if ok then old(Contents()) + [x] else old(Contents())
      ensures items[..count] == old(items[..count]) + if ok then [x] else []
      ensures held == old(held) + if ok && callbacks == ObjectCallbacks then multiset{x} else multiset{}
    {
      OneReference(callbacks, x);
      hide References;
      if !isMutable { return false; }
      ghost var was := Contents();
      ok := TakeIn(x, memory, accept);
      if !ok { return false; }
      AppendReference(callbacks, was, x);
      items[count] := x;
      count := count + 1;
      assert items[..count] == was + [x];
    }

    method InsertValueAtIndex(index: int, x: T, memory: bool, accept: bool) returns (ok: bool)
      requires Valid()
      modifies this`items, this`capacity, this`count, this`held, items
      ensures Valid() && (items == old(items) || fresh(items))
      ensures ok <==>
              && isMutable && 0 <= index <= old(count) && (old(count) < old(capacity) || memory)
              && (callbacks == DefaultCallbacks || accept)
      ensures Contents() == if ok then old(Contents())[..index] + [x] + old(Contents())[index..] else old(Contents())
      ensures ok ==> items[..count] == old(items[..count])[..index] + [x] + old(items[..count])[index..]
      ensures held == old(held) + if ok && callbacks == ObjectCallbacks then multiset{x} else multiset{}
    {
      OneReference(callbacks, x);
      hide References;
      if !isMutable || index > count || index < 0 { return false; }
      ghost var was := Contents();
      ok := TakeIn(x, memory, accept);
      if !ok { return false; }
      InsertReference(callbacks, was, index, x);
      PutAt(index, x, was);
    }

    /** Moves the tail up and fills the slot; there is room for one more. */
    method PutAt(index: nat, x: T, ghost was: seq<T>)
      requires capacity == items.Length && index <= count < capacity && items[..count] == was
      modifies this`count, items
      ensures count == |was| + 1 && items[..count] == was[..index] + [x] + was[index..]
    {
      assert items[..index] == was[..index] && items[index..count] == was[index..];
      MoveUp(index);
      items[index] := x;
      count := count + 1;
      assert items[..count] == items[..index] + [items[index]] + items[index + 1..count];
    }

    /** Moves the items from `index` on up by one, as if through a copy. */
    method MoveUp(index: nat)
      requires index <= count < items.Length
      modifies items
      ensures items[..index] == old(items[..index])
      ensures items[index + 1..count + 1] == old(items[index..count])
    {
      forall i | index + 1 <= i < count + 1 { items[i] := items[i - 1]; }
    }

    method RemoveValueAtIndex(index: int)
      requires Valid()
      modifies this`count, this`held, items
      ensures Valid()
      ensures Contents() == if isMutable then RemoveIndex(old(Contents()), index) else old(Contents())
      ensures var was := old(items[..count]);
              if isMutable && 0 <= index < |was|
              then && items[..count] == was[..index] + was[index + 1..]
                   && held == old(held) - (if callbacks == ObjectCallbacks then multiset{was[index]} else multiset{})
              else items[..count] == was && held == old(held)
    {
      hide References;
      if !isMutable || index >= count || index < 0 { return; }
      ghost var was := Contents();
      RemoveReference(callbacks, was, index);
      OneReference(callbacks, was[index]);
      ReleaseItem(items[index]);
      forall i | index <= i < count - 1 { items[i] := items[i + 1]; }
      count := count - 1;
      assert items[..count] == was[..index] + was[index + 1..];
    }

    /** Removes at the same index once for each index of the range; surplus rounds do nothing. */
    method RemoveValuesInRange(location: int, length: int)
      requires Valid()
      modifies this`count, this`held, items
      ensures Valid()
      ensures Contents() == if isMutable then RemoveRange(old(Contents()), location, length) else old(Contents())
      ensures var was := old(items[..count]);
              if isMutable && 0 <= location < |was| && length > 0
              then var end := if location + length < |was| then location + length else |was|;
                   && items[..count] == was[..location] + was[end..]
                   && old(held) == held + (if callbacks == ObjectCallbacks
                                           then multiset(was[location..end])
                                           else multiset{})
              else items[..count] == was && held == old(held)
    {
      hide References, RemoveRange, RemoveIndex;
      ghost var was := Contents();
      RangeReferences(callbacks, was, location, length);
      RangeReferences(callbacks, was, location, 0);
      var ceiling := location + length;
      var index := location;
      while index < ceiling
        invariant location <= index && (index <= ceiling || index == location)
        invariant Valid()
        invariant Contents() == if isMutable then RemoveRange(was, location, index - location) else was
      {
        if isMutable { RemoveOneMore(was, location, index - location); }
        RemoveValueAtIndex(location);
        index := index + 1;
      }
      if isMutable && length <= 0 { assert Contents() == was; }
    }

    /**
      The reservation loop: the count is moved ahead block by block and then put back. When a round
      cannot grow, what earlier rounds grew stays.
     */
    method Reserve(n: nat, memory: nat -> bool) returns (ok: bool)
      requires Valid()
      modifies this`items, this`capacity, this`count
      ensures Valid() && Contents() == old(Contents()) && (items == old(items) || fresh(items))
      ensures var slack := old(capacity) - count;
              var k := RoundsDone(slack, Blocks(n), memory);
              ok == (k == Blocks(n)) && capacity == count + SlackAfter(slack, k)
    {
      hide References, SlackAfter, RoundsDone;
      ghost var was, slack := Contents(), capacity - count;
      var current := count;
      var remaining: int := n;
      var done := 0;
      SlackStep(slack, 0);
      RoundStep(slack, 0, memory);
      while remaining > 0
        invariant 0 <= done <= Blocks(n) && remaining == n - 5 * done
        invariant count == current + 5 * done && capacity == items.Length
        invariant capacity == current + SlackAfter(slack, done) && RoundsDone(slack, done, memory) == done
        invariant current <= capacity && items[..current] == was
        invariant items == old(items) || fresh(items)
        invariant held == References(callbacks, was)
      {
        SlackStep(slack, done);
        RoundStep(slack, done, memory);
        var room := ResizeIfNeededForOneMoreIndex(memory(done));
        if !room {
          RoundFails(slack, Blocks(n), memory, done);
          count := current;
          assert Contents() == was;
          return false;
        }
        count := count + 5;
        remaining := remaining - 5;
        done := done + 1;
      }
      count := current;
      return true;
    }

    /**
      Appends all values of another array. When the callback refuses a value, the values before it
      stay appended. That the reservation makes room for what is appended is the caller's business:
      otherwise the copying loop would write beyond the buffer.
     */
    method AppendValuesOfArray(other: EFArray<T>, memory: nat -> bool, accepts: T -> bool) returns (ok: bool)
      requires Valid() && other.Valid() && (other.count == 0 || (other != this && other.items != items))
      requires var slack, n := capacity - count, Blocks(other.count);
               isMutable && callbacks == other.callbacks && RoundsDone(slack, n, memory) == n ==>
                 Taken(callbacks, other.Contents(), accepts) <= SlackAfter(slack, n)
      modifies this`items, this`capacity, this`count, this`held, items
      ensures Valid() && other.Contents() == old(other.Contents())
      ensures var slack, n := old(capacity - count), Blocks(other.count);
              var reserved := isMutable && callbacks == other.callbacks && RoundsDone(slack, n, memory) == n;
              var taken := Taken(callbacks, other.Contents(), accepts);
              && ok == (reserved && taken == other.count)
              && Contents() == old(Contents()) + (if reserved then other.Contents()[..taken] else [])
              && held == old(held) + (if reserved && callbacks == ObjectCallbacks
                                      then multiset(other.Contents()[..taken])
                                      else multiset{})
    {
      hide SlackAfter, Blocks, RoundsDone, References;
      if !isMutable || callbacks != other.callbacks { return false; }
      var reserved := Reserve(other.count, memory);
      if !reserved { return false; }
      ok := CopyValues(other, accepts);
      ManyReferences(callbacks, old(Contents()), other.Contents()[..Taken(callbacks, other.Contents(), accepts)]);
    }

    /** The copying loop: there is room for what the callback takes. */
    method CopyValues(other: EFArray<T>, accepts: T -> bool) returns (ok: bool)
      requires Valid() && other.Valid() && (other.count == 0 || (other != this && other.items != items))
      requires count + Taken(callbacks, other.Contents(), accepts) <= capacity
      modifies this`count, this`held, items
      ensures Valid() && other.Contents() == old(other.Contents())
      ensures var taken := Taken(callbacks, other.Contents(), accepts);
              ok == (taken == other.count) && Contents() == old(Contents()) + other.Contents()[..taken]
    {
      hide References, Accepted;
      ghost var was, values := Contents(), other.Contents();
      assert was + values[..0] == was;
      for index := 0 to other.count
        invariant Sized() && count == |was| + index
        invariant items[..count] == was + values[..index] && other.Contents() == values
        invariant held == References(callbacks, was + values[..index])
        invariant Taken(callbacks, values, accepts) >= index
      {
        var x := other.items[index];
        assert x == values[index];
        if callbacks.ObjectCallbacks? { AcceptedStep(values, accepts, index); }
        var retained := RetainItem(x, accepts(x));
        if !retained { return false; }
        items[count] := x;
        count := count + 1;
        ghost var before := was + values[..index];
        assert was + values[..index + 1] == before + [x];
        AppendReference(callbacks, before, x);
        assert items[..count] == before + [x];
      }
      assert values[..other.count] == values;
      return true;
    }
  }

  /** The guard suffices for a bulk append, whatever the callback takes. */
  lemma GuardMakesRoom<T>(callbacks: Callbacks, slack: nat, values: seq<T>, accepts: T -> bool)
    requires RoomSuffices(slack, |values|)
    ensures Taken(callbacks, values, accepts) <= SlackAfter(slack, Blocks(|values|))
  {
    ReservationFits(slack, |values|);
  }

  /** How many values a callback takes before it refuses one. */
  function Accepted<T>(s: seq<T>, accepts: T -> bool): (k: nat)
    ensures k <= |s|
    ensures forall i :: 0 <= i < k ==> accepts(s[i])
    ensures k < |s| ==> !accepts(s[k])
  {
    if s == [] || !accepts(s[0]) then 0 else 1 + Accepted(s[1..], accepts)
  }

  /** How many of these values an array with these callbacks takes. */
  function Taken<T>(callbacks: Callbacks, values: seq<T>, accepts: T -> bool): (k: nat)
    ensures k <= |values|
  {
    if callbacks.DefaultCallbacks? then |values| else Accepted(values, accepts)
  }

  lemma {:induction false} AcceptedStep<T>(s: seq<T>, accepts: T -> bool, k: nat)
    requires k <= Accepted(s, accepts) && k < |s|
    ensures if accepts(s[k]) then Accepted(s, accepts) >= k + 1 else Accepted(s, accepts) == k
  {
    if k == 0 {
    } else {
      AcceptedStep(s[1..], accepts, k - 1);
    }
  }

  lemma RemoveOneMore<T>(s: seq<T>, location: int, k: nat)
    ensures RemoveIndex(RemoveRange(s, location, k), location) == RemoveRange(s, location, k + 1)
  {
  }

  /**
    An array that starts empty and takes four values has room for one; reserving for five more
    succeeds and leaves that room, so a bulk append of five would write beyond the buffer.
   */
  method FourThenFive(x: int) returns (a: EFArray<int>, ok: bool)
    ensures a.Valid() && a.Contents() == [x, x, x, x] && ok
    ensures !RoomSuffices(1, 5) && a.capacity - a.count == 1
  {
    a := new EFArray.CreateMutable(DefaultCallbacks, 0);
    for i := 0 to 4
      invariant a.Valid() && a.isMutable && a.callbacks == DefaultCallbacks && fresh(a) && fresh(a.items)
      invariant a.Contents() == seq(i, _ => x) && a.capacity == if i == 0 then 0 else 5
    {
      var appended := a.AppendValue(x, true, true);
    }
    NoRoomForFive();
    RoundsWithMemory(1, Blocks(5), _ => true);
    ok := a.Reserve(5, _ => true);
  }
}
