# red-box functional core, modelled in Dafny

This project models the functional core of the red-box toolbox:

- the redux reducer builder: `createReducer` and the fluent `sliceReducer` builder (`reducer.dfy`, module `Redux`);
- the function combinators and object helpers: `choose`, `partial`, `curry`, `dict`, `objectMap`, `swap`, `access`, `nullToUndefined` and `handleException` (`utils.dfy`, module `Utils`);
- the documented function tools: `identity`, `lazyish`, `locker` and `rearg` (`tools.dfy`, module `Tools`);
- the `timeUnit` constants and the `handleException` with a `null` default handler (`misc.dfy`, module `Misc`).

`js.dfy` (module `Js`) holds the JavaScript values these need. It defines a value datatype with JavaScript truthiness, an option type, and `Completion` (a computation either returns or throws).

How the source's shapes are represented:

- A variadic function is a function of its argument list, `seq<V> -> R`.
- The argument list that `choose` spreads is a tuple, so its arity is part of its type. `choose(key)` with every default uses the empty tuple.
- A reducer `(state, action) => state` takes the pair as one tuple. A table of reducers can then be handed to `choose` as it is.
- A `try`/`catch` becomes a match on a `Completion`.
- The slice builder is imperative in the source. `handle` writes into a table that one `sliceReducer` call allocates, and `default` overwrites a variable. Both outlive every builder call. So `Redux.Slice` is a class with a `table` map field and a `defaultReducer` field. A built reducer (`Redux.SliceReducer`) holds a reference to its slice. It therefore reads the table as it is when it runs, and it sees handlers registered later. It keeps the default reducer that was set when it was built, because `sliceReducer` reads `defaultReducer` at build time (src/redux/reducer.ts:179-181).
- The builder callback is user code. It is modelled by the list of `handle`/`default` calls it makes, and `Slice.Build` runs them in order.
- `locker(n)` is a class. Its fields are a call count and the locked value, and its `Call` method changes them.

Three behaviours of the code worth knowing:

- The default reducer of `createReducer` tests the state for truthiness (src/redux/reducer.ts:96). It does not test whether the state is defined. A state of `0`, `""`, `false` or `null` is therefore replaced by `initState` on an unregistered type. `Redux.CreateReducerFallback` states this.
- The handler table of a slice is not frozen when a reducer is built. A later builder call adds to the same table, and earlier reducers see the additions. `Redux.SharingScenario` shows this.
- The `locker` documentation says that the argument of call `n+1` is locked (src/func/tools.d.ts:54-57). Its own examples lock the argument of call `n`: `locker()` returns its first value forever, and `locker(2)` returns 42 on the third call after receiving 42 on the second (src/func/tools.d.ts:59-78). The model follows the examples. Calls 1 to `n` return their argument, and the `n`-th argument is returned from then on.

## Model

| member | source | states |
|---|---|---|
| `Utils.Choose` | src/utils.js:16-24 | a key present in `actions` calls its action with the arguments; any other key calls the default action with them |
| `Utils.ChooseWithDefaultsIsNull` | src/utils.js:16-24 | with no actions, the default action that returns `null` and no arguments, `choose(key)` is `null` for every key |
| `Utils.ChooseAfterRegister` | src/utils.js:22-24 | an action registered under `k` is called with the arguments exactly when the key is `k`; every other key chooses as before |
| `Utils.ChooseIgnoresDefaultOnRegisteredKey` | src/utils.js:22-24 | for a key present in the table, the result is that action's result whatever the default action is |
| `Utils.ChooseExamples` | src/utils.js:16-24 | `choose("x", {x: () => 1, y: () => 2}, () => 0, [])` is 1 and `choose("z", {x: () => 1}, () => 0, [])` is 0 |
| `Utils.Partial` | src/utils.js:106-107 | the bound function, called with any `rest`, calls `f` with `init` followed by `rest` |
| `Utils.PartialIsConcatenation` | src/utils.js:106-107 | `partial(f)(...init)(...rest)` is `f` applied to `init` followed by `rest` |
| `Utils.PartialTwice` | src/utils.js:93-107 | binding `a` and then `b` binds `a + b` |
| `Utils.PartialExample` | src/utils.js:99-104 | with `add = (a, b) => a + b`, `partial(add)(3)(4)` is 7 |
| `Utils.CurryCall` | src/utils.js:35-36 | an empty call returns `f()`; a non-empty call stays curried, over a function that calls `f` with these arguments followed by the later ones |
| `Utils.CurryChain` | src/utils.js:33-36 | a chain of calls has returned a value exactly when it is non-empty and its last call is empty |
| `Utils.CurryChainAccumulates` | src/utils.js:35-36 | after any number of non-empty calls, `curry(f)` is still curried, and its pending function is `f` with all arguments given so far bound in order |
| `Utils.CurryTerminates` | src/utils.js:29-36 | `curry(f)(a1..)(..ak)()` is `f(a1, ..., ak)` for every split into non-empty calls; `curry(f)()` is `f()` |
| `Utils.CurrySplitInvariant` | src/utils.js:33-36 | two chains that pass the same arguments in the same order, grouped differently, give the same result |
| `Utils.Dict` | src/utils.js:41-49 | `dict(entries)` has exactly the entry keys, and every key maps to a value some entry pairs it with |
| `Utils.DictEmpty` | src/utils.js:47-49 | `dict([])` is the empty object |
| `Utils.DictLastWins` | src/utils.js:47-49 | a key maps to the value of the last entry with that key |
| `Utils.ObjectMap` | src/utils.js:83-88 | `objectMap(o, f)` has a key for what `f` makes of each entry of `o`, and each of its entries is what `f` makes of some entry of `o` |
| `Utils.Swap` | src/utils.js:112-116 | the keys of `swap(o)` are the values of `o`, and each maps to a key of `o` that holds it |
| `Utils.SwapInvertsInjective` | src/utils.js:112-116 | when the values of `o` are pairwise distinct, `swap(o)` maps `o[k]` back to `k` |
| `Utils.SwapRoundTrip` | src/utils.js:112-116 | for string values, `swap(swap(o))` is `o` when the values of `o` are pairwise distinct, in any enumeration order |
| `Utils.SwapExample` | src/utils.js:112-114 | `swap({a: "b", c: "d"})` is `{b: "a", d: "c"}` |
| `Utils.Property` | src/utils.js:6 | reading a property throws exactly on `null` and `undefined`, and then a `TypeError`; an object's own property is its value, a missing one `undefined` |
| `Utils.Walk` | src/utils.js:6 | the empty path yields the start value; a walk can only fail with a `TypeError`, and it always fails from `null` or `undefined` on a non-empty path |
| `Utils.Access` | src/utils.js:5-8 | the value the walk reaches, or `undefined` when a step throws |
| `Utils.WalkConcat` | src/utils.js:6 | reducing over `p + q` is reducing over `p` and then, unless that threw, over `q` |
| `Utils.AccessEmptyPath` | src/utils.js:5-8 | `access(o, [])` is `o` |
| `Utils.AccessFromNullish` | src/utils.js:5-8 | any non-empty path from `null` or `undefined` yields `undefined` instead of throwing |
| `Utils.AccessConcat` | src/utils.js:5-8 | `access(o, p ++ q)` is `access(access(o, p), q)`: the path is followed key by key |
| `Utils.AccessStep` | src/utils.js:5-8 | from an object, an own property is descended into, and a key that is not an own property yields what `access` yields from `undefined` (inherited properties are not modelled) |
| `Utils.AccessExample` | src/utils.js:2-8 | `access({a: {b: {c: 42}}}, ["a", "b", "c"])` is 42 |
| `Utils.NullToUndefined` | src/utils.js:65-68 | the result is never `null`; `null` becomes `undefined` and every other value is kept |
| `Utils.NullToUndefinedIdempotent` | src/utils.js:65-68 | applying it twice is applying it once |
| `Utils.HandleException` | src/utils.js:57-60 | the value `fn()` returns; if it throws, `handler(ex)` when the handler is a function, else the thrown value |
| `Redux.StartState` | src/redux/reducer.ts:97 | `undefined` becomes `initState`; every other state, falsy ones included, is kept |
| `Redux.FallbackReducer` | src/redux/reducer.ts:96 | a truthy state is returned unchanged, and every falsy state gives `initState`, whatever the action |
| `Redux.CreateReducer` | src/redux/reducer.ts:93-104 | for every state and action: a registered type calls its table entry, an unregistered one the supplied default reducer, or else the fallback, each with the state defaulted |
| `Redux.CreateReducerDispatches` | src/redux/reducer.ts:96-103 | an action whose type is in the table gets `table[type](state, action)`, with the state defaulted |
| `Redux.CreateReducerDefaultsUndefinedState` | src/redux/reducer.ts:97 | an `undefined` state is replaced by `initState` before dispatch |
| `Redux.CreateReducerFallback` | src/redux/reducer.ts:96 | with no default reducer, an unregistered type keeps a truthy state and gives `initState` for every falsy state |
| `Redux.CreateReducerCustomDefault` | src/redux/reducer.ts:96-103 | a supplied default reducer is called with `(state, action)` for every unregistered type |
| `Redux.CreateReducerExample` | src/redux/reducer.ts:93-104 | `createReducer(0)({inc: (s) => s + 1}, (s) => s)` takes 0 to 1 on `inc` and returns the state unchanged on other types |
| `Redux.WrapHandles` | src/redux/reducer.ts:157-166 | the reducer `handle` registers computes `reducer(state, action.payload)` for a two-parameter handler and `reducer(state)` otherwise, so a one-parameter handler ignores the payload |
| `Redux.HandledTypeDispatch` | src/redux/reducer.ts:153-167 | after `handle`, the creator's type gets `reducer(state, action.payload)` for a two-parameter handler and `reducer(state)` otherwise; every other type dispatches as before |
| `Redux.Register` | src/redux/reducer.ts:153-172 | `handle` adds or replaces the creator's type in the table, keeps every other entry and the default; `default` replaces the default and keeps the table |
| `Redux.RegisterAll` | src/redux/reducer.ts:153-177 | registrations only add types to the table, a set default stays set, and calls that are all `handle` leave the default as it was |
| `Redux.RegisterAllLastWins` | src/redux/reducer.ts:153-172 | after a sequence of `handle`/`default` calls, the last `handle` per type is in the table, untouched types keep their entries, and the last `default` (if any) fills the default slot |
| `Redux.Slice.constructor` | src/redux/reducer.ts:139-151 | `sliceReducer(initState)` starts with an empty table and no default reducer |
| `Redux.Slice.Handle` | src/redux/reducer.ts:153-168 | writes the wrapped handler under the creator's type, changes no other entry and not the default, and returns the same slice |
| `Redux.Slice.Default` | src/redux/reducer.ts:169-172 | stores the default reducer, leaves the table alone, and returns the same slice |
| `Redux.Slice.Build` | src/redux/reducer.ts:175-183 | runs the builder's registrations in order on the slice's own state, and returns a reducer over this slice's table and its current default |
| `Redux.SliceReducer.Reduce` | src/redux/reducer.ts:179-181 | dispatches through the slice's current table; else calls the captured default reducer; else applies the truthiness fallback, with `undefined` state defaulted |
| `Redux.SliceScenario` | src/redux/reducer.ts:139-183 | a slice over 0 handling "add" with `(s, payload) => s + payload` gives 5 on `{type: "add", payload: 5}`, and 0 on an unregistered type |
| `Redux.SharingScenario` | src/redux/reducer.ts:143-183 | a reducer built first sees handlers registered later; a later build keeps earlier handlers; each reducer keeps the default reducer current at its build |
| `Tools.Identity` | src/func/tools.d.ts:25-28 | returns its argument |
| `Tools.Lazyish` | src/func/tools.d.ts:33-36 | calling the returned function gives `x` |
| `Tools.LazyishForces` | src/func/tools.d.ts:33-36 | calling `lazyish(x)` gives back `x` |
| `Tools.LockerOutput` | src/func/tools.d.ts:54-78 | the value of the last of a sequence of calls is one of the arguments given: the call's own during the first `n` calls, the `n`-th from the `n`-th call on |
| `Tools.LockerFrozen` | src/func/tools.d.ts:54-57 | after `n` calls, every later call returns the `n`-th argument, whatever its own argument |
| `Tools.Locker.constructor` | src/func/tools.d.ts:80 | `locker(n)`, by default `locker(1)`, starts with no calls and nothing locked |
| `Tools.Locker.Call` | src/func/tools.d.ts:51-57 | during the first `n` calls returns its argument (the `n`-th is locked), afterwards returns the locked value; records the call |
| `Tools.LockerExamples` | src/func/tools.d.ts:59-78 | the documented session: `locker()` keeps "I like you!"; `locker(2)` gives "Repeat after me!", 42, 42; the two locks are independent |
| `Tools.Rearrange` | src/func/tools.d.ts:85-89 | the `i`-th argument given lands at position `indices[i]` of `f`'s argument list |
| `Tools.ReargCall` | src/func/tools.d.ts:91-96 | with fewer arguments than indices the call awaits the rest; with all of them it calls `f` on them rearranged |
| `Tools.ReargChain` | src/func/tools.d.ts:91-96 | a chain of calls whose last call completes the arguments has applied `f` |
| `Tools.ReargSplitInvariant` | src/func/tools.d.ts:91-96 | however the arguments are split across curried calls, `f` receives them all, rearranged, on the completing call |
| `Tools.ReargPadLeftExample` | src/func/tools.d.ts:100-104 | `rearg(f)(1, 2, 0)(a, b, c)` is `f(c, a, b)` |
| `Tools.ReargReverseExample` | src/func/tools.d.ts:106-111 | with indices 4, 3, 2, 1, 0, `f` receives the five arguments reversed |
| `Tools.ReargCurriedExample` | src/func/tools.d.ts:113-114 | `revConsole("f")("g", "h")("i")("j")` hands `f` the arguments `j i h g f` |
| `Misc.HandleException` | src/utils/misc.js:28-31 | the value `fn()` returns; if it throws, `handler(ex)` when the handler is a function, else (the `null` default too) the thrown value |
| `Misc.HandleExceptionWithoutHandler` | src/utils/misc.js:28-31 | with the default handler, a thrown value and a returned value both become the result |
| `Misc.HandlerOnlyOnThrow` | src/utils/misc.js:28-31 | when `fn` returns normally the handler makes no difference |
| `Misc.BaseUnits` | src/utils/misc.js:88-93 | second = 1000 ms, minute = 60 seconds, hour = 60 minutes, day = 24 hours, week = 7 days |
| `Misc.YearIsAverage` | src/utils/misc.js:84-96 | the year is 365.25 days: 4 years = 1461 days |
| `Misc.MonthIsTwelfthOfYear` | src/utils/misc.js:82-94 | 12 months = 1 year, and 16 months = 487 days (30.4375 days a month) |
| `Misc.QuarterIsThreeMonths` | src/utils/misc.js:83-95 | a quarter is 3 months and a quarter of a year |

## Left out

- `Y` (src/utils.js:124): self-application `g(g)` has no type in Dafny and no termination measure.
- `handleRejection` (src/utils/misc.js:46-49): asynchronous promise handling.
- `run` (src/utils/misc.js:63-69): browser `load` events and `setTimeout`.
- `local` (src/func/tools.d.ts:41-46): declared without documented behaviour beyond its signature.
- src/type/defs, src/type/check and src/func/choice are not part of this model. The `choose` of src/utils.js stands for the one that `createReducer` imports, and `isFunction` is the `Some`/`None` case of the handler.
- JavaScript numbers are integers here, with no NaN, `-0` or fractions. Truthiness covers `undefined`, `null`, booleans, integers, strings and objects.
- Inherited properties are not modelled. `key in actions` also finds inherited keys such as `toString`, and `access` reads them too: `access({}, ["constructor", "name"])` is `"Object"` in JavaScript and `undefined` here. The model uses map membership for both.
- The `TypeError` guard and the `this` binding of `objectMap` (src/utils.js:84-87) are ruled out by the types.
- Property keys are not coerced to strings: `dict` and `swap` are generic in the key type. `Utils.SwapRoundTrip` holds for string values only: with numbers, `swap(swap({a: 1}))` is `{a: "1"}`, and `{a: 1, b: "1"}` loses an entry. Enumeration order is a parameter (`entries`), because the engine decides it.
- Utils.Access: only objects have properties in this model. Reading a property of another primitive (a string index, `length`) yields `undefined`, and arrays are not modelled.
- Utils.CurryChain: a call after the terminating empty call would call the result value, so such chains are excluded.
- `Function.length` is not inspected. `handle` takes an explicit `Handler` instead: `PayloadAware` for a handler that declares two parameters, `PayloadFree` for any other.
- Reducers, handlers and actions are total functions. An exception thrown by a reducer passes through `choose` and the builder unchanged in the source, and is not modelled.
- Action types are strings (`Redux.Key`). The source also admits numbers, which coerce to the same string keys, and symbols, which the model cannot represent.
- The reducer state is a JavaScript value, not a type parameter. Action creators are represented only by the `type` they stamp.
- Redux.Slice.Build: the builder callback is represented by the `handle`/`default` calls it makes, in order. A builder that does anything else (for example, building reducers inside the callback) is not modelled.
- Tools.Locker.constructor: requires `n >= 1`. The behaviour for zero, negative or fractional `n` is not documented.
- Tools.Rearrange: requires the indices to be a permutation of `0 .. m-1`. Out-of-range or repeated indices are not documented.
- Tools.ReargCall: requires no more arguments than indices. What happens to surplus arguments is not documented.
- Tools.ReargChain: the chain must complete its arguments on its last call, which is non-empty.
