/** The growing array under most lists (src/ghost/dynamic_array.c). */
module DynamicArray {

  const NO_MAX: nat := 0

  /** The elements, the room for them, and, for the accounts only, how many elements all
      reallocations so far had to move and the largest size so far. */
  datatype State<T> = State(items: seq<T>, capacity: nat, moved: nat, peak: nat)

  datatype Op<T> = Append(item: T) | AppendMany(many: seq<T>) | RemoveAt(index: nat)

  datatype Result<T> = Result(ok: bool, state: State<T>)

  function Twice(c: nat, k: nat): (r: nat)
    ensures r >= c
  {
    if k == 0 then c else 2 * Twice(c, k - 1)
  }

  function Doubled(c: nat, target: nat): (r: nat)
    requires c > 0
    ensures r >= target && r >= c
    decreases if c < target then target - c else 0
  {
    if c < target then Doubled(2 * c, target) else c
  }

  /** The capacity that `expandtofit` picks: a doubling of the old one with room for
      `amount` elements beyond it, and not only beyond the elements there are. */
  function NewCapacity(capacity: nat, amount: nat): (r: nat)
    requires capacity > 0
    ensures r >= capacity + amount
  {
    Doubled(capacity, capacity + amount)
  }

  function Max(a: nat, b: nat): nat {
    if a < b then b else a
  }

  /** `gh_dynamicarray_expandtofit`. A reallocation moves the whole old room. */
  function Expand<T>(s: State<T>, amount: nat, max: nat): Result<T>
    requires s.capacity > 0
  {
    if |s.items| + amount <= s.capacity then Result(true, s)
    else
      var capacity := NewCapacity(s.capacity, amount);
      if max != NO_MAX && capacity > max then Result(false, s)
      else Result(true, s.(capacity := capacity, moved := s.moved + s.capacity))
  }

  function Push<T>(s: State<T>, many: seq<T>, max: nat): Result<T>
    requires s.capacity > 0
  {
    var r := Expand(s, |many|, max);
    if !r.ok then r
    else
      var items := s.items + many;
      Result(true, r.state.(items := items, peak := Max(s.peak, |items|)))
  }

  function Step<T>(s: State<T>, op: Op<T>, max: nat): Result<T>
    requires s.capacity > 0
  {
    match op
    case Append(item) => Push(s, [item], max)
    case AppendMany(many) => Push(s, many, max)
    case RemoveAt(i) =>
      if i >= |s.items| then Result(false, s) else Result(true, s.(items := s.items[..i] + s.items[i + 1..]))
  }

  function New<T>(capacity: nat): State<T> {
    State([], capacity, 0, 0)
  }

  function Run<T>(s: State<T>, ops: seq<Op<T>>, max: nat): (r: State<T>)
    requires s.capacity > 0
    ensures r.capacity > 0
    decreases |ops|
  {
    if ops == [] then s else Run(Step(s, ops[0], max).state, ops[1..], max)
  }

  /** What the operations mean for a sequence, when there is always room. */
  function Meaning<T>(items: seq<T>, ops: seq<Op<T>>): seq<T>
    decreases |ops|
  {
    if ops == [] then items
    else Meaning(match ops[0]
                 case Append(item) => items + [item]
                 case AppendMany(many) => items + many
                 case RemoveAt(i) => if i < |items| then items[..i] + items[i + 1..] else items,
                 ops[1..])
  }

  // ---------- cost ----------

  ghost predicate Sound<T>(s: State<T>, c0: nat) {
    && 0 < c0 <= s.capacity && |s.items| <= s.capacity && |s.items| <= s.peak
    && (exists k :: s.capacity == Twice(c0, k))
    && (s.capacity == c0 || s.capacity < 4 * s.peak)
    && s.moved + c0 <= s.capacity
    && (s.moved == 0 || s.moved < 2 * s.peak)
  }

  lemma {:induction false} DoubledIsTwice(c: nat, target: nat) returns (k: nat)
    requires c > 0
    ensures Doubled(c, target) == Twice(c, k)
    ensures c < target ==> k > 0 && Doubled(c, target) < 2 * target
    decreases if c < target then target - c else 0
  {
    k := 0;
    if c < target {
      var j := DoubledIsTwice(2 * c, target);
      TwiceTwice(c, 1, j);
      assert Twice(c, 1) == 2 * Twice(c, 0);
      k := 1 + j;
    }
  }

  lemma {:induction false} TwiceTwice(c: nat, i: nat, j: nat)
    ensures Twice(Twice(c, i), j) == Twice(c, i + j)
    decreases j
  {
    if j > 0 {
      TwiceTwice(c, i, j - 1);
    }
  }

  lemma {:induction false} PushKeeps<T>(s: State<T>, many: seq<T>, max: nat, c0: nat)
    requires Sound(s, c0)
    ensures Sound(Push(s, many, max).state, c0)
    ensures max == NO_MAX ==> Push(s, many, max).ok
  {
    hide Twice, NewCapacity;
    if |s.items| + |many| > s.capacity {
      NewCapacityBounds(s.capacity, |many|, c0);
    }
  }

  /** Making room at least doubles the capacity, and less than doubles what is asked for. */
  lemma {:induction false} NewCapacityBounds(c: nat, amount: nat, c0: nat)
    requires 0 < c && 0 < amount && exists k :: c == Twice(c0, k)
    ensures var n := NewCapacity(c, amount);
            && 2 * c <= n < 2 * (c + amount) && (amount <= c ==> n == 2 * c)
            && exists k :: n == Twice(c0, k)
  {
    var k :| c == Twice(c0, k);
    var j := DoubledIsTwice(c, c + amount);
    TwiceTwice(c0, k, j);
    assert Twice(c, j) == 2 * Twice(c, j - 1);
    hide Twice, Doubled;
    if amount <= c {
      OneDoubling(c, amount);
    }
  }

  lemma {:induction false} OneDoubling(c: nat, amount: nat)
    requires 0 < amount <= c
    ensures Doubled(c, c + amount) == 2 * c
  {
  }

  /** Any mix of operations on an array that started with room for `c0` elements: it holds
      what a sequence would hold; its capacity is a doubling of `c0`, and below four times
      the largest size it ever had once it has grown; and all reallocations together
      moved less than twice that size. */
  lemma {:induction false} RunKeeps<T>(s: State<T>, ops: seq<Op<T>>, max: nat, c0: nat)
    requires Sound(s, c0)
    ensures Sound(Run(s, ops, max), c0)
    ensures max == NO_MAX ==> Run(s, ops, max).items == Meaning(s.items, ops)
    decreases |ops|
  {
    hide Push;
    if ops != [] {
      StepKeeps(s, ops[0], max, c0);
      RunKeeps(Step(s, ops[0], max).state, ops[1..], max, c0);
    }
  }

  lemma {:induction false} StepKeeps<T>(s: State<T>, op: Op<T>, max: nat, c0: nat)
    requires Sound(s, c0)
    ensures Sound(Step(s, op, max).state, c0)
    ensures max == NO_MAX && !op.RemoveAt? ==>
              Step(s, op, max).state.items == s.items + (if op.Append? then [op.item] else op.many)
  {
    match op
    case Append(item) => PushKeeps(s, [item], max, c0);
    case AppendMany(many) => PushKeeps(s, many, max, c0);
    case RemoveAt(i) =>
  }

  lemma {:induction false} NewIsSound<T>(c0: nat)
    requires c0 > 0
    ensures Sound(New<T>(c0), c0)
  {
    assert c0 == Twice(c0, 0);
  }

  // ---------- the array ----------

  class DynamicArray<T(0)> {
    const max: nat
    var buffer: array<T>
    var size: nat
    ghost var moved: nat
    ghost var peak: nat

    ghost predicate Valid()
      reads this
    {
      0 < buffer.Length && size <= buffer.Length
    }

    ghost function View(): State<T>
      reads this, buffer
      requires Valid()
    {
      State(buffer[..size], buffer.Length, moved, peak)
    }

    constructor (capacity: nat, max: nat)
      requires capacity > 0
      ensures Valid() && fresh(buffer) && View() == New(capacity) && this.max == max
    {
      this.max := max;
      buffer := new T[capacity];
      size, moved, peak := 0, 0, 0;
    }

    method ExpandToFit(amount: nat) returns (ok: bool)
      requires Valid()
      modifies this
      ensures Valid() && Result(ok, View()) == Expand(old(View()), amount, max)
      ensures buffer == old(buffer) || fresh(buffer)
      ensures ok ==> size + amount <= buffer.Length
    {
      if size + amount <= buffer.Length {
        return true;
      }
      var capacity := buffer.Length;
      var target := capacity + amount;
      while capacity < target
        invariant 0 < capacity && Doubled(capacity, target) == NewCapacity(buffer.Length, amount)
        invariant capacity == buffer.Length || max == NO_MAX || capacity <= max
        decreases target - capacity
      {
        capacity := capacity * 2;
        if max != NO_MAX && capacity > max {
          return false;
        }
      }
      assert capacity == NewCapacity(buffer.Length, amount);
      var larger := new T[capacity];
      forall k | 0 <= k < buffer.Length {
        larger[k] := buffer[k];
      }
      assert larger[..size] == buffer[..size];
      moved := moved + buffer.Length;
      buffer := larger;
      return true;
    }

    method AppendItems(many: seq<T>) returns (ok: bool)
      requires Valid()
      modifies this, buffer
      ensures Valid() && Result(ok, View()) == Push(old(View()), many, max)
      ensures buffer == old(buffer) || fresh(buffer)
    {
      ok := ExpandToFit(|many|);
      if !ok {
        return;
      }
      forall k | 0 <= k < |many| {
        buffer[size + k] := many[k];
      }
      size := size + |many|;
      peak := Max(peak, size);
    }

    /** `gh_dynamicarray_append` */
    method Append(item: T) returns (ok: bool)
      requires Valid()
      modifies this, buffer
      ensures Valid() && Result(ok, View()) == Step(old(View()), Op.Append(item), max)
    {
      ok := AppendItems([item]);
    }

    /** `gh_dynamicarray_appendmany` */
    method AppendMany(many: seq<T>) returns (ok: bool)
      requires Valid()
      modifies this, buffer
      ensures Valid() && Result(ok, View()) == Step(old(View()), Op.AppendMany(many), max)
    {
      ok := AppendItems(many);
    }

    /** `gh_dynamicarray_removeat`: the elements behind move up one place. */
    method RemoveAt(index: nat) returns (ok: bool)
      requires Valid()
      modifies this, buffer
      ensures Valid() && buffer == old(buffer) && Result(ok, View()) == Step(old(View()), Op.RemoveAt(index), max)
    {
      if index >= size {
        return false;
      }
      ghost var items := buffer[..size];
      var i := index;
      while i < size - 1
        invariant index <= i <= size - 1 && size == old(size) && buffer == old(buffer)
        invariant |items| == size && moved == old(moved) && peak == old(peak)
        invariant forall k | index <= k < i :: buffer[k] == items[k + 1]
        invariant forall k | 0 <= k < index :: buffer[k] == items[k]
        invariant forall k | i <= k < size :: buffer[k] == items[k]
      {
        buffer[i] := buffer[i + 1];
        i := i + 1;
      }
      size := size - 1;
      assert buffer[..size] == items[..index] + items[index + 1..];
      return true;
    }
  }
}
