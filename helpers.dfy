/** Generic helpers shared by the two simulations: a stepped integer range,
    array initialisation and a key-based memoiser. */
module Helpers {

  /** The values low, low+step, ... that do not exceed high. When step is not
      positive the loop in Range never ends unless it never starts, so callers
      must supply a positive step or an empty interval. */
  function Stepped(low: int, high: int, step: int): (r: seq<int>)
    requires step > 0 || low > high
    ensures r == [] <==> low > high
    ensures r != [] ==> r[0] == low
    decreases if low > high then 0 else high - low + 1
  {
    if low > high then [] else [low] + Stepped(low + step, high, step)
  }

  /** Inclusive stepped range, built by a loop that pushes onto an array. */
  method Range(low: int, high: int, step: int) returns (arr: seq<int>)
    requires step > 0 || low > high
    ensures arr == Stepped(low, high, step)
  {
    arr := [];
    var i := low;
    while i <= high
      invariant step > 0 || i > high
      invariant arr + Stepped(i, high, step) == Stepped(low, high, step)
      decreases high - i
    {
      arr := arr + [i];
      i := i + step;
    }
  }

  /** The k-th element of a stepped range is low + k * step. */
  lemma {:induction false} SteppedAt(low: int, high: int, step: int, k: nat)
    requires step > 0 || low > high
    requires k < |Stepped(low, high, step)|
    ensures Stepped(low, high, step)[k] == low + k * step
    decreases k
  {
    if k > 0 {
      SteppedAt(low + step, high, step, k - 1);
      assert (k - 1) * step + step == k * step;
    }
  }

  /** Every element of a stepped range lies in [low, high]. */
  lemma {:induction false} SteppedWithin(low: int, high: int, step: int)
    requires step > 0 || low > high
    ensures forall v :: v in Stepped(low, high, step) ==> low <= v <= high
    decreases if low > high then 0 else high - low + 1
  {
    if low <= high {
      SteppedWithin(low + step, high, step);
    }
  }

  /** With a positive step the range is strictly increasing. */
  lemma SteppedIncreasing(low: int, high: int, step: int)
    requires step > 0
    ensures forall i, j :: 0 <= i < j < |Stepped(low, high, step)| ==>
      Stepped(low, high, step)[i] < Stepped(low, high, step)[j]
  {
    var r := Stepped(low, high, step);
    forall i, j | 0 <= i < j < |r|
      ensures r[i] < r[j]
    {
      SteppedAt(low, high, step, i);
      SteppedAt(low, high, step, j);
      assert j * step - i * step == (j - i) * step;
    }
  }

  /** The last element of a stepped range is followed by a value above high:
      the range stops at the first value that exceeds high. */
  lemma {:induction false} SteppedMaximal(low: int, high: int, step: int)
    requires step > 0 && low <= high
    ensures var r := Stepped(low, high, step); r[|r| - 1] + step > high
    decreases high - low + 1
  {
    var rest := Stepped(low + step, high, step);
    assert Stepped(low, high, step) == [low] + rest;
    if low + step <= high {
      SteppedMaximal(low + step, high, step);
    } else {
      assert rest == [];
    }
  }

  /** With step 1 the range has max(0, high - low + 1) elements. */
  lemma {:induction false} UnitRangeLength(low: int, high: int)
    ensures |Stepped(low, high, 1)| == if low > high then 0 else high - low + 1
    decreases if low > high then 0 else high - low + 1
  {
    if low <= high {
      UnitRangeLength(low + 1, high);
    }
  }

  /** An array of num independent copies of init. */
  function InitArray<T>(num: nat, init: T): (r: seq<T>)
    ensures |r| == num
    ensures forall i :: 0 <= i < num ==> r[i] == init
  {
    seq(num, _ => init)
  }

  /** A memoised wrapper around fn: results are stored in store under
      key(args); a stored result is returned without calling fn again. */
  class Memo<A, K(==), V> {
    const fn: A -> V
    const key: A -> K
    var store: map<K, V>

    constructor (fn: A -> V, store: map<K, V>, key: A -> K)
      ensures this.fn == fn && this.key == key && this.store == store
    {
      this.fn := fn;
      this.key := key;
      this.store := store;
    }

    method Call(a: A) returns (r: V)
      modifies this
      ensures key(a) in old(store) ==> r == old(store)[key(a)] && store == old(store)
      ensures key(a) !in old(store) ==> r == fn(a) && store == old(store)[key(a) := r]
      ensures key(a) in store && store[key(a)] == r
      ensures forall k :: k in old(store) ==> k in store && store[k] == old(store)[k]
    {
      var k := key(a);
      if k in store {
        return store[k];
      }
      r := fn(a);
      store := store[k := r];
    }
  }

  /** Idempotence: two calls whose arguments share a key return the same value,
      and the second call leaves the store as the first call left it. */
  method CallTwice<A, K(==), V>(m: Memo<A, K, V>, a: A, b: A) returns (first: V, second: V)
    requires m.key(a) == m.key(b)
    modifies m
    ensures first == second
    ensures m.key(a) in m.store && m.store[m.key(a)] == first
  {
    first := m.Call(a);
    second := m.Call(b);
  }
}
