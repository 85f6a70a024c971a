/**
 * Function tools declared with their documentation: `identity`, `lazyish`,
 * the value-locking `locker`, and argument rearrangement `rearg`. Only what
 * the documentation asserts is modelled.
 */
module Tools {
  import opened Js
  import Utils

  // ---------------------------------------------------------------------
  // identity and lazyish
  // ---------------------------------------------------------------------

  /** `identity(x)`: the value passed as the first argument. */
  function Identity<T>(x: T): (r: T)
    ensures r == x
  {
    x
  }

  /** `lazyish(x)`: the value put under a function abstraction. */
  function Lazyish<T>(x: T): (thunk: () -> T)
    ensures thunk() == x
  {
    () => x
  }

  /** Calling the abstraction gives back the value it was made from. */
  lemma LazyishForces<T>(x: T)
    ensures Lazyish(x)() == Identity(x)
  {
  }

  // ---------------------------------------------------------------------
  // locker
  // ---------------------------------------------------------------------

  /** What the last of the calls `calls` on a fresh `locker(n)` returns: its
      own argument during the first `n` calls, and from then on the argument
      of the `n`-th call, which the lock keeps. */
  function LockerOutput<T>(n: nat, calls: seq<T>): (r: T)
    requires 1 <= n && calls != []
    ensures r in calls
    ensures |calls| <= n ==> r == calls[|calls| - 1]
    ensures |calls| >= n ==> r == calls[n - 1]
  {
    if |calls| <= n then calls[|calls| - 1] else calls[n - 1]
  }

  /** Once a lock has had `n` calls it is frozen: every later call returns the
      same value, whatever the arguments of the calls after the `n`-th. */
  lemma LockerFrozen<T>(n: nat, h1: seq<T>, h2: seq<T>)
    requires 1 <= n < |h1| && n < |h2|
    requires h1[..n] == h2[..n]
    ensures LockerOutput(n, h1) == LockerOutput(n, h2) == h1[n - 1]
  {
    assert h1[n - 1] == h1[..n][n - 1];
    assert h2[n - 1] == h2[..n][n - 1];
  }

  /** The function `locker(n)` returns, with its lock state: the number of
      calls so far and the locked value, set by the `n`-th call and never
      overwritten. */
  class Locker<T> {
    const n: nat
    var count: nat
    var locked: Option<T>
    ghost var calls: seq<T>

    /** `count` counts the calls, and the locked value is the argument of the
        `n`-th call once there has been one. */
    ghost predicate Valid()
      reads this
    {
      && 1 <= n
      && count == |calls|
      && locked == if |calls| >= n then Some(calls[n - 1]) else None
    }

    /** `locker(n)`, by default `locker(1)`: a lock that has seen no call. */
    constructor (n: nat := 1)
      requires 1 <= n
      ensures Valid() && this.n == n && calls == []
    {
      this.n := n;
      count := 0;
      locked := None;
      calls := [];
    }

    /** One call of the lock: identity during the first `n` calls (the `n`-th
        one also locks its argument), the locked value afterwards. */
    method Call(x: T) returns (r: T)
      requires Valid()
      modifies this
      ensures Valid() && calls == old(calls) + [x]
      ensures r == LockerOutput(n, calls)
      ensures |old(calls)| < n ==> r == x
      ensures |old(calls)| >= n ==> r == old(locked).value
    {
      count := count + 1;
      calls := calls + [x];
      if count <= n {
        if count == n {
          locked := Some(x);
        }
        r := x;
      } else {
        r := locked.value;
      }
    }
  }

  /** The documented session: `locker()` keeps its first value; `locker(2)`
      passes "Repeat after me!" and 42 through and then keeps 42; and the
      first lock, already frozen, is not disturbed by the second. */
  method LockerExamples() returns (a1: JsValue, a2: JsValue, b1: JsValue, b2: JsValue, b3: JsValue, a3: JsValue)
    ensures a1 == Str("I like you!") && a2 == Str("I like you!")
    ensures b1 == Str("Repeat after me!") && b2 == Num(42) && b3 == Num(42)
    ensures a3 == Str("I like you!")
  {
    var lock := new Locker<JsValue>();
    a1 := lock.Call(Str("I like you!"));
    a2 := lock.Call(Str("I hate you."));
    var lock2 := new Locker<JsValue>(2);
    b1 := lock2.Call(Str("Repeat after me!"));
    b2 := lock2.Call(Num(42));
    b3 := lock2.Call(Str("All right..."));
    a3 := lock.Call(Num(42));
  }

  // ---------------------------------------------------------------------
  // rearg
  // ---------------------------------------------------------------------

  /** `indices` names every position `0 .. |indices| - 1` exactly once. */
  ghost predicate IsPermutation(indices: seq<nat>)
  {
    && (forall i | 0 <= i < |indices| :: indices[i] < |indices|)
    && (forall i, j | 0 <= i < j < |indices| :: indices[i] != indices[j])
  }

  /** `base` with `args[i]` written at position `indices[i]`, for each `i`. */
  function Scatter<V>(indices: seq<nat>, args: seq<V>, base: seq<V>): (r: seq<V>)
    requires |args| == |indices|
    requires forall i | 0 <= i < |indices| :: indices[i] < |base|
    requires forall i, j | 0 <= i < j < |indices| :: indices[i] != indices[j]
    ensures |r| == |base|
    ensures forall i | 0 <= i < |indices| :: r[indices[i]] == args[i]
  {
    if indices == [] then base
    else
      var last := |indices| - 1;
      Scatter(indices[..last], args[..last], base)[indices[last] := args[last]]
  }

  /** The argument list `f` receives from the rearranged function: the
      `i`-th argument given goes to position `indices[i]`. */
  function Rearrange<V>(indices: seq<nat>, args: seq<V>): (r: seq<V>)
    requires IsPermutation(indices)
    requires |args| == |indices|
    ensures |r| == |args|
    ensures forall i | 0 <= i < |indices| :: r[indices[i]] == args[i]
  {
    Scatter(indices, args, args)
  }

  /** What one call of a rearranged function gives back: `f`'s result once
      all the arguments are there, or a function awaiting the rest, with the
      arguments collected so far. */
  datatype ReargStep<V, R> = Applied(value: R) | Awaiting(collected: seq<V>)

  /** A call, with `args`, of the rearranged function `rearg(f)(...indices)`
      that has already collected `collected`: once `|indices|` arguments are
      there, `f` is called on them rearranged. */
  function ReargCall<V, R>(f: seq<V> -> R, indices: seq<nat>, collected: seq<V>, args: seq<V>): (s: ReargStep<V, R>)
    requires IsPermutation(indices)
    requires |collected| + |args| <= |indices|
    ensures |collected| + |args| < |indices| ==> s == Awaiting(collected + args)
    ensures |collected| + |args| == |indices| ==> s == Applied(f(Rearrange(indices, collected + args)))
  {
    var all := collected + args;
    if |all| == |indices| then Applied(f(Rearrange(indices, all))) else Awaiting(all)
  }

  /** The last call of a non-empty chain brings at most all the arguments. */
  lemma {:induction false} ConcatHasLast<V>(calls: seq<seq<V>>)
    requires calls != []
    ensures |Utils.Concat(calls)| >= |calls[|calls| - 1]|
  {
    if |calls| > 1 {
      ConcatHasLast(calls[1..]);
    }
  }

  /** `rearg(f)(...indices)(...calls[0])(...calls[1])...`: a chain of calls
      that completes the arguments on its last call, which is not empty. */
  function ReargChain<V, R>(f: seq<V> -> R, indices: seq<nat>, collected: seq<V>, calls: seq<seq<V>>): (s: ReargStep<V, R>)
    requires IsPermutation(indices)
    requires calls != [] && calls[|calls| - 1] != []
    requires |collected| + |Utils.Concat(calls)| == |indices|
    decreases |calls|
    ensures s.Applied?
  {
    var step := ReargCall(f, indices, collected, calls[0]);
    if |calls| == 1 then
      assert calls[1..] == [];
      assert Utils.Concat(calls) == calls[0] + Utils.Concat(calls[1..]) == calls[0];
      step
    else
      ConcatHasLast(calls[1..]);
      ReargChain(f, indices, step.collected, calls[1..])
  }

  /** The rearranged function is curried: however the arguments are split
      across calls, `f` receives them all, rearranged, on the call that
      completes them. */
  lemma {:induction false} ReargSplitInvariant<V, R>(f: seq<V> -> R, indices: seq<nat>, collected: seq<V>, calls: seq<seq<V>>)
    requires IsPermutation(indices)
    requires calls != [] && calls[|calls| - 1] != []
    requires |collected| + |Utils.Concat(calls)| == |indices|
    decreases |calls|
    ensures ReargChain(f, indices, collected, calls)
         == Applied(f(Rearrange(indices, collected + Utils.Concat(calls))))
  {
    if |calls| == 1 {
      assert Utils.Concat(calls) == calls[0] + Utils.Concat(calls[1..]);
      assert calls[1..] == [];
      assert Utils.Concat(calls) == calls[0];
    } else {
      ConcatHasLast(calls[1..]);
      ReargSplitInvariant(f, indices, collected + calls[0], calls[1..]);
      assert collected + calls[0] + Utils.Concat(calls[1..]) == collected + Utils.Concat(calls);
    }
  }

  /** The `padLeft` example: `rearg(f)(1, 2, 0)(a, b, c)` is `f(c, a, b)`. */
  lemma ReargPadLeftExample<V, R>(f: seq<V> -> R, a: V, b: V, c: V)
    ensures IsPermutation([1, 2, 0])
    ensures ReargCall(f, [1, 2, 0], [], [a, b, c]) == Applied(f([c, a, b]))
  {
    var indices, args := [1, 2, 0], [a, b, c];
    var r := Rearrange(indices, args);
    assert r[indices[0]] == args[0] && r[indices[1]] == args[1] && r[indices[2]] == args[2];
    assert r == [c, a, b];
    assert [] + [a, b, c] == [a, b, c];
  }

  /** With indices 4, 3, 2, 1, 0 the five arguments arrive reversed. */
  lemma ReargReverseExample<V, R>(f: seq<V> -> R, a: V, b: V, c: V, d: V, e: V)
    ensures IsPermutation([4, 3, 2, 1, 0])
    ensures ReargCall(f, [4, 3, 2, 1, 0], [], [a, b, c, d, e]) == Applied(f([e, d, c, b, a]))
  {
    var indices, args := [4, 3, 2, 1, 0], [a, b, c, d, e];
    var r := Rearrange(indices, args);
    assert r[indices[0]] == args[0] && r[indices[1]] == args[1] && r[indices[2]] == args[2];
    assert r[indices[3]] == args[3] && r[indices[4]] == args[4];
    assert r == [e, d, c, b, a];
    assert [] + [a, b, c, d, e] == [a, b, c, d, e];
  }

  /** `revConsole("f")("g", "h")("i")("j")` prints `j i h g f`: the curried
      calls deliver the same reversed arguments as one call. */
  lemma ReargCurriedExample<V, R>(f: seq<V> -> R, a: V, b: V, c: V, d: V, e: V)
    ensures IsPermutation([4, 3, 2, 1, 0])
    ensures Utils.Concat([[a], [b, c], [d], [e]]) == [a, b, c, d, e]
    ensures ReargChain(f, [4, 3, 2, 1, 0], [], [[a], [b, c], [d], [e]]) == Applied(f([e, d, c, b, a]))
  {
    var calls := [[a], [b, c], [d], [e]];
    assert Utils.Concat(calls[3..]) == [e];
    assert Utils.Concat(calls[2..]) == [d] + Utils.Concat(calls[3..]);
    assert Utils.Concat(calls[1..]) == [b, c] + Utils.Concat(calls[2..]);
    assert Utils.Concat(calls) == [a, b, c, d, e];
    ReargSplitInvariant(f, [4, 3, 2, 1, 0], [], calls);
    ReargReverseExample(f, a, b, c, d, e);
    assert [] + [a, b, c, d, e] == [a, b, c, d, e];
  }
}
