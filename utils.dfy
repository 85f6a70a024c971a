/**
 * Function combinators and object helpers of the toolbox: key dispatch
 * (`choose`), partial application and currying, building and inverting
 * objects (`dict`, `objectMap`, `swap`), path access, and the
 * exception-to-value wrapper.
 *
 * A variadic JavaScript function is a function of its argument list
 * (`seq<V> -> R`); a JavaScript object used as a dictionary is a `map`.
 */
module Utils {
  import opened Js

  // ---------------------------------------------------------------------
  // choose: a functional `switch`
  // ---------------------------------------------------------------------

  /** `choose(key, actions, defaultAction, args)`: call the action registered
      under `key`, or the default action, with the spread arguments. The
      argument list is a tuple of type `A`, so its arity is part of the type. */
  function Choose<K, A, R>(key: K, actions: map<K, A -> R>, defaultAction: A -> R, args: A): (r: R)
    ensures key in actions ==> r == actions[key](args)
    ensures key !in actions ==> r == defaultAction(args)
  {
    if key in actions then actions[key](args) else defaultAction(args)
  }

  /** `choose(key)` with every parameter left at its default: no actions, a
      default action that returns `null`, and no arguments. */
  function ChooseWithDefaults<K(==)>(key: K): JsValue
  {
    Choose(key, map[], (_: ()) => Null, ())
  }

  /** With all defaults, `choose` yields `null` whatever the key. */
  lemma ChooseWithDefaultsIsNull<K>(key: K)
    ensures ChooseWithDefaults(key) == Null
  {
  }

  /** Registering an action under `k` redirects exactly the key `k` to it;
      every other key chooses as before. */
  lemma ChooseAfterRegister<K, A, R>(key: K, k: K, action: A -> R, actions: map<K, A -> R>,
                                     defaultAction: A -> R, args: A)
    ensures Choose(key, actions[k := action], defaultAction, args)
         == if key == k then action(args) else Choose(key, actions, defaultAction, args)
  {
  }

  /** The default action is consulted exactly for the keys that have no
      action: on a registered key it is never called. */
  lemma ChooseIgnoresDefaultOnRegisteredKey<K, A, R>(key: K, actions: map<K, A -> R>,
                                                     d1: A -> R, d2: A -> R, args: A)
    requires key in actions
    ensures Choose(key, actions, d1, args) == Choose(key, actions, d2, args) == actions[key](args)
  {
  }

  /** Two calls of `choose`:
      `choose("x", {x: () => 1, y: () => 2}, () => 0, [])` is 1 and
      `choose("z", {x: () => 1}, () => 0, [])` is 0. */
  lemma ChooseExamples()
    ensures Choose("x", map["x" := (_: ()) => 1, "y" := (_: ()) => 2], (_: ()) => 0, ()) == 1
    ensures Choose("z", map["x" := (_: ()) => 1], (_: ()) => 0, ()) == 0
  {
  }

  // ---------------------------------------------------------------------
  // partial and curry
  // ---------------------------------------------------------------------

  /** `partial(f)(...init)`: a function that takes the rest of the arguments
      and calls `f` with `init` followed by them. */
  function Partial<V(!new), R>(f: seq<V> -> R, init: seq<V>): (g: seq<V> -> R)
    ensures forall rest :: g(rest) == f(init + rest)
  {
    rest => f(init + rest)
  }

  /** `partial(f)(...init)(...rest)` is `f(...init, ...rest)`. */
  lemma PartialIsConcatenation<V(!new), R>(f: seq<V> -> R, init: seq<V>, rest: seq<V>)
    ensures Partial(f, init)(rest) == f(init + rest)
  {
  }

  /** Binding `a` and then `b` binds `a + b`. */
  lemma PartialTwice<V(!new), R>(f: seq<V> -> R, a: seq<V>, b: seq<V>, rest: seq<V>)
    ensures Partial(Partial(f, a), b)(rest) == Partial(f, a + b)(rest)
  {
    assert a + (b + rest) == (a + b) + rest;
  }

  /** The comment's example: with `add = (a, b) => a + b`,
      `partial(add)(3)(4)` is 7. */
  lemma PartialExample()
    ensures Partial((s: seq<int>) => if |s| >= 2 then s[0] + s[1] else 0, [3])([4]) == 7
  {
    assert [3] + [4] == [3, 4];
  }

  /** What one call of a curried function gives back: the result of the
      original function (on the terminating empty call), or a new curried
      function `curry(pending)`. */
  datatype CurryStep<!V, R> = Returned(value: R) | Curried(pending: seq<V> -> R)

  /** `curry(f)(...args)`: an empty call runs `f`, any other call curries the
      partial application of `f` to `args`. */
  function CurryCall<V(!new), R>(f: seq<V> -> R, args: seq<V>): (s: CurryStep<V, R>)
    ensures args == [] ==> s == Returned(f([]))
    ensures args != [] ==> s.Curried? && forall rest :: s.pending(rest) == f(args + rest)
  {
    if args == [] then Returned(f([])) else Curried(Partial(f, args))
  }

  /** `curry(f)(...calls[0])(...calls[1])...`: a chain of calls on a curried
      function, of which only the last may be empty (a call after the
      terminating one would call the result, not a curried function). The
      empty chain is `curry(f)` itself. */
  function CurryChain<V(!new), R>(f: seq<V> -> R, calls: seq<seq<V>>): (s: CurryStep<V, R>)
    requires forall i | 0 <= i < |calls| - 1 :: calls[i] != []
    ensures s.Returned? <==> calls != [] && calls[|calls| - 1] == []
  {
    if calls == [] then Curried(f)
    else
      match CurryCall(f, calls[0])
      case Returned(v) => Returned(v)
      case Curried(g) => CurryChain(g, calls[1..])
  }

  /** All argument lists of a chain of calls, in order. */
  function Concat<V>(calls: seq<seq<V>>): seq<V>
  {
    if calls == [] then [] else calls[0] + Concat(calls[1..])
  }

  /** A chain of non-empty calls stays curried and has accumulated exactly
      the arguments given so far: its pending function is `f` with them
      bound in front. */
  lemma {:induction false} CurryChainAccumulates<V(!new), R>(f: seq<V> -> R, calls: seq<seq<V>>, rest: seq<V>)
    requires forall i | 0 <= i < |calls| :: calls[i] != []
    ensures CurryChain(f, calls).Curried?
    ensures CurryChain(f, calls).pending(rest) == f(Concat(calls) + rest)
  {
    if calls == [] {
      assert [] + rest == rest;
    } else {
      var g := Partial(f, calls[0]);
      CurryChainAccumulates(g, calls[1..], rest);
      assert calls[0] + (Concat(calls[1..]) + rest) == (calls[0] + Concat(calls[1..])) + rest;
    }
  }

  /** `curry(f)(a1..)(..)(..ak)()` is `f(a1, ..., ak)` for every split of the
      arguments into non-empty calls; with no calls before the empty one,
      `curry(f)()` is `f()`. */
  lemma {:induction false} CurryTerminates<V(!new), R>(f: seq<V> -> R, calls: seq<seq<V>>)
    requires forall i | 0 <= i < |calls| :: calls[i] != []
    ensures CurryChain(f, calls + [[]]) == Returned(f(Concat(calls)))
  {
    if calls == [] {
      assert calls + [[]] == [[]];
    } else {
      var g := Partial(f, calls[0]);
      assert (calls + [[]])[0] == calls[0];
      assert (calls + [[]])[1..] == calls[1..] + [[]];
      CurryTerminates(g, calls[1..]);
      assert calls[0] + Concat(calls[1..]) + [] == Concat(calls);
    }
  }

  /** Split invariance: two chains that pass the same arguments in the same
      order, however grouped into calls, give the same result. */
  lemma CurrySplitInvariant<V(!new), R>(f: seq<V> -> R, c1: seq<seq<V>>, c2: seq<seq<V>>)
    requires forall i | 0 <= i < |c1| :: c1[i] != []
    requires forall i | 0 <= i < |c2| :: c2[i] != []
    requires Concat(c1) == Concat(c2)
    ensures CurryChain(f, c1 + [[]]) == CurryChain(f, c2 + [[]])
  {
    CurryTerminates(f, c1);
    CurryTerminates(f, c2);
  }

  // ---------------------------------------------------------------------
  // dict, objectMap, swap
  // ---------------------------------------------------------------------

  /** `dict(entries)`: the object built by adding the entries left to right,
      so that a later entry overwrites an earlier one with the same key. */
  function Dict<K, V>(entries: seq<(K, V)>): (d: map<K, V>)
    ensures forall i | 0 <= i < |entries| :: entries[i].0 in d
    ensures forall k | k in d :: (k, d[k]) in entries
  {
    if entries == [] then map[]
    else
      var last := entries[|entries| - 1];
      var d := Dict(entries[..|entries| - 1])[last.0 := last.1];
      assert forall k | k in d :: (k, d[k]) in entries by {
        forall k | k in d ensures (k, d[k]) in entries {
          if k != last.0 {
            assert (k, d[k]) in entries[..|entries| - 1];
          }
        }
      }
      d
  }

  /** `dict([])` is the empty object. */
  lemma DictEmpty<K, V>()
    ensures Dict<K, V>([]) == map[]
  {
  }

  /** Last key wins: a key maps to the value of the last entry that has it. */
  lemma {:induction false} DictLastWins<K, V>(entries: seq<(K, V)>, i: nat)
    requires i < |entries|
    requires forall j | i < j < |entries| :: entries[j].0 != entries[i].0
    ensures entries[i].0 in Dict(entries) && Dict(entries)[entries[i].0] == entries[i].1
  {
    if i < |entries| - 1 {
      var prefix := entries[..|entries| - 1];
      DictLastWins(prefix, i);
    }
  }

  /** `entries` is what `Object.entries(o)` returns for the object `o`: each
      of its properties exactly once, in the engine's enumeration order. */
  ghost predicate EntriesOf<K, V>(o: map<K, V>, entries: seq<(K, V)>)
  {
    && (forall i, j | 0 <= i < j < |entries| :: entries[i].0 != entries[j].0)
    && (forall i | 0 <= i < |entries| :: entries[i].0 in o && o[entries[i].0] == entries[i].1)
    && (forall k | k in o :: (k, o[k]) in entries)
  }

  /** The entries `f` makes of each entry, in the same order. */
  function MapEntries<K, V, K2, V2>(entries: seq<(K, V)>, f: ((K, V)) -> (K2, V2)): (r: seq<(K2, V2)>)
    ensures |r| == |entries|
    ensures forall i | 0 <= i < |entries| :: r[i] == f(entries[i])
  {
    if entries == [] then [] else [f(entries[0])] + MapEntries(entries[1..], f)
  }

  /** Every entry of `o` leaves its mapped key in the rebuilt object. */
  lemma MappedKeysPresent<K, V, K2, V2>(o: map<K, V>, entries: seq<(K, V)>, f: ((K, V)) -> (K2, V2))
    requires EntriesOf(o, entries)
    ensures forall k | k in o :: f((k, o[k])).0 in Dict(MapEntries(entries, f))
  {
    var mapped := MapEntries(entries, f);
    forall k | k in o ensures f((k, o[k])).0 in Dict(mapped) {
      var i :| 0 <= i < |entries| && entries[i] == (k, o[k]);
      assert mapped[i] == f((k, o[k]));
    }
  }

  /** Every entry of the rebuilt object is what `f` makes of an entry of `o`. */
  lemma MappedEntriesFromSource<K, V, K2, V2>(o: map<K, V>, entries: seq<(K, V)>, f: ((K, V)) -> (K2, V2))
    requires EntriesOf(o, entries)
    ensures var r := Dict(MapEntries(entries, f));
            forall k2 | k2 in r :: exists k | k in o :: f((k, o[k])) == (k2, r[k2])
  {
    var mapped := MapEntries(entries, f);
    var r := Dict(mapped);
    forall k2 | k2 in r ensures exists k | k in o :: f((k, o[k])) == (k2, r[k2]) {
      assert (k2, r[k2]) in mapped;
      var i :| 0 <= i < |mapped| && mapped[i] == (k2, r[k2]);
      var k := entries[i].0;
      assert entries[i] == (k, o[k]);
      assert f((k, o[k])) == (k2, r[k2]);
    }
  }

  /** `objectMap(o, f)`: rebuild an object from `f` applied to each of its
      entries. The enumeration order of `o`'s entries is supplied, since it
      decides which entry wins when `f` maps two of them to one key. */
  function ObjectMap<K, V, K2, V2>(o: map<K, V>, entries: seq<(K, V)>, f: ((K, V)) -> (K2, V2)): (r: map<K2, V2>)
    requires EntriesOf(o, entries)
    ensures forall k | k in o :: f((k, o[k])).0 in r
    ensures forall k2 | k2 in r :: exists k | k in o :: f((k, o[k])) == (k2, r[k2])
  {
    MappedKeysPresent(o, entries, f);
    MappedEntriesFromSource(o, entries, f);
    Dict(MapEntries(entries, f))
  }

  /** `swap(o)`: the object mapping each value of `o` to a key holding it. */
  function Swap<K, V>(o: map<K, V>, entries: seq<(K, V)>): (r: map<V, K>)
    requires EntriesOf(o, entries)
    ensures r.Keys == o.Values
    ensures forall v | v in r :: r[v] in o && o[r[v]] == v
  {
    var r := ObjectMap(o, entries, (kv: (K, V)) => (kv.1, kv.0));
    assert r.Keys == o.Values by {
      forall v | v in o.Values ensures v in r {
        var k :| k in o && o[k] == v;
      }
    }
    r
  }

  /** No two keys of `m` hold the same value. */
  ghost predicate Injective<K, V>(m: map<K, V>)
  {
    forall k1, k2 | k1 in m && k2 in m && m[k1] == m[k2] :: k1 == k2
  }

  /** With pairwise distinct values, `swap(o)` maps each value back to the
      one key that holds it. */
  lemma SwapInvertsInjective<K, V>(o: map<K, V>, entries: seq<(K, V)>)
    requires EntriesOf(o, entries)
    requires Injective(o)
    ensures forall k | k in o :: o[k] in Swap(o, entries) && Swap(o, entries)[o[k]] == k
  {
    var r := Swap(o, entries);
    forall k | k in o ensures o[k] in r && r[o[k]] == k {
      assert o[k] in o.Values;
    }
  }

  /** With pairwise distinct values, the values of `swap(o)` are exactly the
      keys of `o`. */
  lemma SwapValuesAreKeys<K, V>(o: map<K, V>, entries: seq<(K, V)>)
    requires EntriesOf(o, entries)
    requires Injective(o)
    ensures Swap(o, entries).Values == o.Keys
  {
    var r := Swap(o, entries);
    SwapInvertsInjective(o, entries);
    forall k | k in o ensures k in r.Values {
      assert r[o[k]] == k;
    }
    forall k | k in r.Values ensures k in o {
      var v :| v in r && r[v] == k;
    }
  }

  /** If every key of `r` names a key of `o` holding it, and every key of `s`
      names a key of `r` holding it, then `s` agrees with `o` wherever both
      are defined. */
  lemma InverseOfInverse<K, V>(o: map<K, V>, r: map<V, K>, s: map<K, V>)
    requires forall v | v in r :: r[v] in o && o[r[v]] == v
    requires forall k | k in s :: s[k] in r && r[s[k]] == k
    requires s.Keys == o.Keys
    ensures s == o
  {
    forall k | k in s ensures s[k] == o[k] {
      assert o[r[s[k]]] == s[k];
    }
  }

  /** `swap(swap(o))` is `o` when the values of `o` are pairwise distinct,
      whatever order the engine enumerates either object in. */
  lemma SwapRoundTrip<K, V>(o: map<K, V>, e1: seq<(K, V)>, e2: seq<(V, K)>)
    requires EntriesOf(o, e1)
    requires Injective(o)
    requires EntriesOf(Swap(o, e1), e2)
    ensures Swap(Swap(o, e1), e2) == o
  {
    var r := Swap(o, e1);
    SwapValuesAreKeys(o, e1);
    InverseOfInverse(o, r, Swap(r, e2));
  }

  /** The entries of `{a: "b", c: "d"}` in their written order. */
  lemma ExampleEntries()
    ensures EntriesOf(map["a" := "b", "c" := "d"], [("a", "b"), ("c", "d")])
    ensures Injective(map["a" := "b", "c" := "d"])
  {
    var o := map["a" := "b", "c" := "d"];
    var e := [("a", "b"), ("c", "d")];
    forall k | k in o ensures (k, o[k]) in e {
      if k == "a" { assert e[0] == (k, o[k]); } else { assert e[1] == (k, o[k]); }
    }
  }

  /** The comment's example: `swap({a: "b", c: "d"})` is `{b: "a", d: "c"}`. */
  lemma SwapExample()
    ensures EntriesOf(map["a" := "b", "c" := "d"], [("a", "b"), ("c", "d")])
    ensures Swap(map["a" := "b", "c" := "d"], [("a", "b"), ("c", "d")]) == map["b" := "a", "d" := "c"]
  {
    var o := map["a" := "b", "c" := "d"];
    var e := [("a", "b"), ("c", "d")];
    ExampleEntries();
    var r := Swap(o, e);
    SwapInvertsInjective(o, e);
    assert r["b"] == "a" && r["d"] == "c";
    assert o.Values == {"b", "d"};
  }

  // ---------------------------------------------------------------------
  // access
  // ---------------------------------------------------------------------

  /** `acc[p]`: reading a property throws on `null` and `undefined`, yields
      the property of an object or `undefined` when it is missing; other
      primitives have no properties in this model. */
  function Property(acc: JsValue, p: string): (r: Completion)
    ensures r.Thrown? <==> acc == Undefined || acc == Null
    ensures r.Thrown? ==> r.exception == TypeError
    ensures acc.Obj? && p in acc.props ==> r == Normal(acc.props[p])
    ensures acc.Obj? && p !in acc.props ==> r == Normal(Undefined)
  {
    match acc
    case Undefined => Thrown(TypeError)
    case Null => Thrown(TypeError)
    case Obj(props) => Normal(if p in props then props[p] else Undefined)
    case _ => Normal(Undefined)
  }

  /** `path.reduce((acc, p) => acc[p], o)`: follows the path, stopping at the
      first step that throws. */
  function Walk(o: JsValue, path: seq<string>): (r: Completion)
    decreases |path|
    ensures path == [] ==> r == Normal(o)
    ensures r.Thrown? ==> r == Thrown(TypeError)
    ensures (o == Undefined || o == Null) && path != [] ==> r == Thrown(TypeError)
  {
    if path == [] then Normal(o)
    else
      match Property(o, path[0])
      case Thrown(e) => Thrown(e)
      case Normal(v) => Walk(v, path[1..])
  }

  /** `access(o, path)`: the walk, with a failed step turned into `undefined`. */
  function Access(o: JsValue, path: seq<string>): (r: JsValue)
    ensures Walk(o, path).Normal? ==> r == Walk(o, path).value
    ensures Walk(o, path).Thrown? ==> r == Undefined
  {
    HandleException(() => Walk(o, path), Some((_: JsValue) => Undefined))
  }

  /** Walking `p + q` is walking `p` and then, unless that threw, `q`. */
  lemma {:induction false} WalkConcat(o: JsValue, p: seq<string>, q: seq<string>)
    decreases |p|
    ensures Walk(o, p + q) == match Walk(o, p)
                              case Thrown(e) => Thrown(e)
                              case Normal(v) => Walk(v, q)
  {
    if p == [] {
      assert p + q == q;
    } else {
      assert (p + q)[0] == p[0];
      assert (p + q)[1..] == p[1..] + q;
      match Property(o, p[0])
      case Thrown(e) =>
      case Normal(v) => WalkConcat(v, p[1..], q);
    }
  }

  /** The empty path yields the object itself. */
  lemma AccessEmptyPath(o: JsValue)
    ensures Access(o, []) == o
  {
  }

  /** No property can be read from `null` or `undefined`: any non-empty path
      from them yields `undefined` instead of failing. */
  lemma AccessFromNullish(v: JsValue, path: seq<string>)
    requires v == Undefined || v == Null
    requires path != []
    ensures Access(v, path) == Undefined
  {
  }

  /** Access composes along the path: `access(o, p ++ q)` is
      `access(access(o, p), q)`, so the path is followed key by key, and a
      missing step yields `undefined` from then on. */
  lemma AccessConcat(o: JsValue, p: seq<string>, q: seq<string>)
    ensures Access(o, p + q) == Access(Access(o, p), q)
  {
    WalkConcat(o, p, q);
    if q != [] && Walk(o, p).Thrown? {
      AccessFromNullish(Undefined, q);
    }
  }

  /** One step of the path: a present property is descended into, a missing
      one gives `undefined`, and so does any path that goes on past it. */
  lemma AccessStep(props: map<string, JsValue>, k: string, rest: seq<string>)
    ensures Access(Obj(props), [k] + rest)
         == if k in props then Access(props[k], rest) else Access(Undefined, rest)
  {
    AccessConcat(Obj(props), [k], rest);
  }

  /** The comment's example: `access({a: {b: {c: 42}}}, ["a", "b", "c"])` is 42. */
  lemma AccessExample()
    ensures Access(Obj(map["a" := Obj(map["b" := Obj(map["c" := Num(42)])])]), ["a", "b", "c"]) == Num(42)
  {
    var o := Obj(map["a" := Obj(map["b" := Obj(map["c" := Num(42)])])]);
    assert ["a", "b", "c"][1..] == ["b", "c"];
    assert ["b", "c"][1..] == ["c"];
    assert Walk(o, ["a", "b", "c"]) == Normal(Num(42));
  }

  // ---------------------------------------------------------------------
  // nullToUndefined and handleException
  // ---------------------------------------------------------------------

  /** `nullToUndefined(val)`: `null` becomes `undefined`, everything else is
      kept. */
  function NullToUndefined(v: JsValue): (r: JsValue)
    ensures r != Null
    ensures v != Null ==> r == v
    ensures v == Null ==> r == Undefined
  {
    if v == Null then Undefined else v
  }

  /** Applying `nullToUndefined` twice is applying it once. */
  lemma NullToUndefinedIdempotent(v: JsValue)
    ensures NullToUndefined(NullToUndefined(v)) == NullToUndefined(v)
  {
  }

  /** `handleException(fn, handler)`: the result of `fn()`, or, if it throws,
      `handler(ex)` when the handler is a function and the thrown value
      itself otherwise (`None` stands for any handler that is not a
      function). */
  function HandleException(fn: () -> Completion, handler: Option<JsValue -> JsValue>): (r: JsValue)
    ensures fn().Normal? ==> r == fn().value
    ensures fn().Thrown? && handler.Some? ==> r == handler.value(fn().exception)
    ensures fn().Thrown? && handler.None? ==> r == fn().exception
  {
    match fn()
    case Normal(v) => v
    case Thrown(ex) =>
      match handler
      case Some(h) => h(ex)
      case None => ex
  }
}
