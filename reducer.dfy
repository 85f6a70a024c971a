/**
 * Redux reducer tools: `createReducer` builds a reducer that dispatches an
 * action on its `type` through a table of reducers, and `sliceReducer` is a
 * fluent builder whose handler table lives as long as the builder and is
 * shared with every reducer it builds.
 *
 * The state is a JavaScript value; a reducer takes the pair `(state, action)`
 * as one tuple, so that a table of reducers can be handed to `choose`.
 */
module Redux {
  import opened Js
  import Utils

  /** The value of an action's `type` field (a string key). */
  type Key = string

  /** A redux action: its `type` and its `payload` field, `undefined` when the
      action carries none. */
  datatype Action = Action(actionType: Key, payload: JsValue)

  /** An action creator as the builder sees it: the `type` it stamps on the
      actions it creates. */
  datatype ActionCreator = ActionCreator(actionType: Key)

  /** A reducer `(state, action) => state`. */
  type Reducer = ((JsValue, Action)) -> JsValue

  // ---------------------------------------------------------------------
  // createReducer
  // ---------------------------------------------------------------------

  /** The state a built reducer works on: the default parameter
      `state = initState` replaces `undefined`, and only `undefined`. */
  function StartState(initState: JsValue, state: JsValue): (s: JsValue)
    ensures state != Undefined ==> s == state
    ensures state == Undefined ==> s == initState
  {
    if state == Undefined then initState else state
  }

  /** The default reducer `(s, _a) => s ? s : initState` used when the caller
      supplies none: it falls back to `initState` on every falsy state. */
  function FallbackReducer(initState: JsValue): (d: Reducer)
    ensures forall s: JsValue, a: Action :: Truthy(s) ==> d((s, a)) == s
    ensures forall s: JsValue, a: Action :: !Truthy(s) ==> d((s, a)) == initState
  {
    (args: (JsValue, Action)) => if Truthy(args.0) then args.0 else initState
  }

  /** `createReducer(initState)(reducers, defaultReducer)`: the reducer that
      dispatches on `action.type` through `reducers`, calling the default
      reducer (the supplied one, or the fallback) for every other type. */
  function CreateReducer(initState: JsValue, reducers: map<Key, Reducer>, defaultReducer: Option<Reducer>): (r: Reducer)
    ensures forall s: JsValue, a: Action | a.actionType in reducers ::
              r((s, a)) == reducers[a.actionType]((StartState(initState, s), a))
    ensures forall s: JsValue, a: Action | a.actionType !in reducers && defaultReducer.Some? ::
              r((s, a)) == defaultReducer.value((StartState(initState, s), a))
    ensures forall s: JsValue, a: Action | a.actionType !in reducers && defaultReducer.None? ::
              r((s, a)) == FallbackReducer(initState)((StartState(initState, s), a))
  {
    var fallback := match defaultReducer
                    case Some(d) => d
                    case None => FallbackReducer(initState);
    (args: (JsValue, Action)) =>
      Utils.Choose(args.1.actionType, reducers, fallback, (StartState(initState, args.0), args.1))
  }

  /** A registered type is handled by its table entry, called with the
      (defaulted) state and the action. */
  lemma CreateReducerDispatches(initState: JsValue, reducers: map<Key, Reducer>, defaultReducer: Option<Reducer>,
                                state: JsValue, action: Action)
    requires action.actionType in reducers
    ensures CreateReducer(initState, reducers, defaultReducer)((state, action))
         == reducers[action.actionType]((StartState(initState, state), action))
  {
  }

  /** An `undefined` state is replaced by `initState` before dispatch. */
  lemma CreateReducerDefaultsUndefinedState(initState: JsValue, reducers: map<Key, Reducer>,
                                            defaultReducer: Option<Reducer>, action: Action)
    ensures CreateReducer(initState, reducers, defaultReducer)((Undefined, action))
         == CreateReducer(initState, reducers, defaultReducer)((initState, action))
  {
  }

  /** Without a default reducer, an unregistered type keeps a truthy state and
      gives `initState` for a falsy one: not only for `undefined`, but also for
      `null`, `false`, `0` and `""`. */
  lemma CreateReducerFallback(initState: JsValue, reducers: map<Key, Reducer>, state: JsValue, action: Action)
    requires action.actionType !in reducers
    ensures Truthy(state) ==> CreateReducer(initState, reducers, None)((state, action)) == state
    ensures !Truthy(state) ==> CreateReducer(initState, reducers, None)((state, action)) == initState
  {
  }

  /** A supplied default reducer receives `(state, action)` for every
      unregistered type; the fallback rule is then not applied. */
  lemma CreateReducerCustomDefault(initState: JsValue, reducers: map<Key, Reducer>, defaultReducer: Reducer,
                                   state: JsValue, action: Action)
    requires action.actionType !in reducers
    ensures CreateReducer(initState, reducers, Some(defaultReducer))((state, action))
         == defaultReducer((StartState(initState, state), action))
  {
  }

  /** Example: with `inc = (s) => s + 1` and the identity
      as default, `createReducer(0)({inc}, (s) => s)` takes 0 to 1 on `inc`
      and leaves the state alone on any other type. */
  lemma CreateReducerExample(other: Key, state: int)
    requires other != "inc"
    ensures var inc := (args: (JsValue, Action)) => if args.0.Num? then Num(args.0.n + 1) else Undefined;
            var same := (args: (JsValue, Action)) => args.0;
            var r := CreateReducer(Num(0), map["inc" := inc], Some(same));
            && r((Num(0), Action("inc", Undefined))) == Num(1)
            && r((Num(state), Action(other, Undefined))) == Num(state)
  {
  }

  // ---------------------------------------------------------------------
  // sliceReducer: handlers and registrations
  // ---------------------------------------------------------------------

  /** A handler given to `handle`. The source tells the two shapes apart by
      the declared arity of the function; here the shape is explicit. */
  datatype Handler =
    | PayloadFree(reduce: JsValue -> JsValue)
    | PayloadAware(reduceWith: (JsValue, JsValue) -> JsValue)

  /** The reducer `handle` registers for a handler: a two-parameter handler
      gets the state and `action.payload`, any other gets the state alone. */
  function Wrap(h: Handler): Reducer
  {
    match h
    case PayloadAware(r) => (args: (JsValue, Action)) => r(args.0, args.1.payload)
    case PayloadFree(r) => (args: (JsValue, Action)) => r(args.0)
  }

  /** What a handler computes from a state and an action. */
  function HandlerResult(h: Handler, state: JsValue, action: Action): JsValue
  {
    match h
    case PayloadAware(r) => r(state, action.payload)
    case PayloadFree(r) => r(state)
  }

  /** The registered reducer computes what the handler computes: a
      two-parameter handler sees the payload, any other handler does not. */
  lemma WrapHandles(h: Handler, state: JsValue, action: Action)
    ensures Wrap(h)((state, action)) == HandlerResult(h, state, action)
    ensures h.PayloadFree? ==> Wrap(h)((state, action)) == Wrap(h)((state, action.(payload := Undefined)))
  {
  }

  /** A reducer built over a table in which `handle` has put a handler for
      the creator's type handles exactly that type with the handler (with the
      payload or without it, by the handler's shape) and every other type as
      before. */
  lemma HandledTypeDispatch(initState: JsValue, table: map<Key, Reducer>, defaultReducer: Option<Reducer>,
                            creator: ActionCreator, h: Handler, state: JsValue, action: Action)
    ensures CreateReducer(initState, table[creator.actionType := Wrap(h)], defaultReducer)((state, action))
         == if action.actionType == creator.actionType
            then HandlerResult(h, StartState(initState, state), action)
            else CreateReducer(initState, table, defaultReducer)((state, action))
  {
    var s := StartState(initState, state);
    if action.actionType == creator.actionType {
      match h
      case PayloadAware(r) => assert Wrap(h)((s, action)) == r(s, action.payload);
      case PayloadFree(r) => assert Wrap(h)((s, action)) == r(s);
    }
  }

  /** One call a builder callback makes on the slice API. */
  datatype Registration =
    | HandleCall(creator: ActionCreator, handler: Handler)
    | DefaultCall(reducer: Reducer)

  /** The builder's two pieces of state: the handler table and the default
      reducer slot. */
  datatype Registry = Registry(table: map<Key, Reducer>, defaultReducer: Option<Reducer>)

  /** The state after one registration. */
  function Register(reg: Registry, call: Registration): (after: Registry)
    ensures call.HandleCall? ==>
              && after.defaultReducer == reg.defaultReducer
              && after.table.Keys == reg.table.Keys + {call.creator.actionType}
              && after.table[call.creator.actionType] == Wrap(call.handler)
              && forall k | k in reg.table && k != call.creator.actionType :: after.table[k] == reg.table[k]
    ensures call.DefaultCall? ==> after == Registry(reg.table, Some(call.reducer))
  {
    match call
    case HandleCall(c, h) => reg.(table := reg.table[c.actionType := Wrap(h)])
    case DefaultCall(d) => reg.(defaultReducer := Some(d))
  }

  /** The state after a sequence of registrations, made in order. */
  function RegisterAll(reg: Registry, calls: seq<Registration>): (after: Registry)
    ensures reg.table.Keys <= after.table.Keys
    ensures reg.defaultReducer.Some? ==> after.defaultReducer.Some?
    ensures (forall i | 0 <= i < |calls| :: calls[i].HandleCall?) ==> after.defaultReducer == reg.defaultReducer
  {
    if calls == [] then reg else Register(RegisterAll(reg, calls[..|calls| - 1]), calls[|calls| - 1])
  }

  /** The handler of the last `handle` call for type `k`, if any. */
  function LastHandler(calls: seq<Registration>, k: Key): Option<Handler>
  {
    if calls == [] then None
    else
      var last := calls[|calls| - 1];
      if last.HandleCall? && last.creator.actionType == k then Some(last.handler)
      else LastHandler(calls[..|calls| - 1], k)
  }

  /** The reducer of the last `default` call, if any. */
  function LastDefault(calls: seq<Registration>): Option<Reducer>
  {
    if calls == [] then None
    else
      var last := calls[|calls| - 1];
      if last.DefaultCall? then Some(last.reducer) else LastDefault(calls[..|calls| - 1])
  }

  /** After a sequence of registrations, the last `handle` for a type is the
      one in the table, a type never handled keeps its old entry (or stays
      absent), and the last `default` call decides the default slot, which is
      left as it was when `default` is never called. */
  lemma {:induction false} RegisterAllLastWins(reg: Registry, calls: seq<Registration>, k: Key)
    ensures var after := RegisterAll(reg, calls);
            && (k in after.table <==> k in reg.table || LastHandler(calls, k).Some?)
            && (LastHandler(calls, k).Some? ==> after.table[k] == Wrap(LastHandler(calls, k).value))
            && (LastHandler(calls, k).None? && k in reg.table ==> after.table[k] == reg.table[k])
            && after.defaultReducer == if LastDefault(calls).Some? then LastDefault(calls) else reg.defaultReducer
  {
    if calls != [] {
      RegisterAllLastWins(reg, calls[..|calls| - 1], k);
    }
  }

  // ---------------------------------------------------------------------
  // sliceReducer: the builder object and the reducers it builds
  // ---------------------------------------------------------------------

  /** The state one `sliceReducer(initState)` call allocates: the handler
      table and the default slot, which its `handle` and `default` update in
      place and which outlive every builder call. */
  class Slice {
    const initState: JsValue
    var table: map<Key, Reducer>
    var defaultReducer: Option<Reducer>

    /** `sliceReducer(initState)`: an empty table and no default reducer. */
    constructor (initState: JsValue)
      ensures this.initState == initState
      ensures table == map[] && defaultReducer == None
    {
      this.initState := initState;
      table := map[];
      defaultReducer := None;
    }

    /** The builder state as a value. */
    function State(): Registry
      reads this
    {
      Registry(table, defaultReducer)
    }

    /** `slice.handle(actionCreator, reducer)`: puts the wrapped handler under
        the creator's type, replacing an earlier one, and returns the same
        slice so that calls chain. */
    method Handle(creator: ActionCreator, handler: Handler) returns (self: Slice)
      modifies this
      ensures self == this
      ensures State() == Register(old(State()), HandleCall(creator, handler))
      ensures table == old(table)[creator.actionType := Wrap(handler)]
      ensures defaultReducer == old(defaultReducer)
    {
      table := table[creator.actionType := Wrap(handler)];
      self := this;
    }

    /** `slice.default(reducer)`: stores the default reducer (the last call
        wins) and returns the same slice. */
    method Default(reducer: Reducer) returns (self: Slice)
      modifies this
      ensures self == this
      ensures State() == Register(old(State()), DefaultCall(reducer))
      ensures table == old(table) && defaultReducer == Some(reducer)
    {
      defaultReducer := Some(reducer);
      self := this;
    }

    /** The function `sliceReducer(initState)` returns: runs the builder
        callback (the registrations it makes, in order) on this slice and
        builds a reducer that reads this slice's table and captures the
        default reducer as it is now. */
    method Build(builder: seq<Registration>) returns (r: SliceReducer)
      modifies this
      ensures State() == RegisterAll(old(State()), builder)
      ensures fresh(r) && r.slice == this && r.defaultReducer == defaultReducer
    {
      var i := 0;
      while i < |builder|
        invariant 0 <= i <= |builder|
        invariant State() == RegisterAll(old(State()), builder[..i])
      {
        assert builder[..i + 1][..i] == builder[..i];
        match builder[i] {
          case HandleCall(c, h) =>
            var _ := Handle(c, h);
          case DefaultCall(d) =>
            var _ := Default(d);
        }
        i := i + 1;
      }
      assert builder[..|builder|] == builder;
      r := new SliceReducer(this, defaultReducer);
    }
  }

  /** A reducer built by a slice: it shares the slice's table, so it sees
      handlers registered after it was built, and keeps the default reducer
      the slice had when it was built. */
  class SliceReducer {
    const slice: Slice
    const defaultReducer: Option<Reducer>

    constructor (slice: Slice, defaultReducer: Option<Reducer>)
      ensures this.slice == slice && this.defaultReducer == defaultReducer
    {
      this.slice := slice;
      this.defaultReducer := defaultReducer;
    }

    /** Reduce one action: `createReducer(initState)(table, defaultReducer)`
        over the slice's current table. */
    method Reduce(state: JsValue, action: Action) returns (next: JsValue)
      ensures var s := StartState(slice.initState, state);
              if action.actionType in slice.table then next == slice.table[action.actionType]((s, action))
              else if defaultReducer.Some? then next == defaultReducer.value((s, action))
              else next == if Truthy(s) then s else slice.initState
    {
      next := CreateReducer(slice.initState, slice.table, defaultReducer)((state, action));
    }
  }

  /** `(s, payload) => s + payload` on numbers. */
  function AddPayload(s: JsValue, payload: JsValue): JsValue
  {
    if s.Num? && payload.Num? then Num(s.n + payload.n) else Undefined
  }

  /** `(s) => s + 1` on numbers. */
  function Increment(s: JsValue): JsValue
  {
    if s.Num? then Num(s.n + 1) else Undefined
  }

  /** A slice scenario: a slice over 0 whose builder
      handles "add" with a two-parameter handler takes 0 to 5 on
      `{type: "add", payload: 5}`, and an unregistered type yields the
      initial state through the fallback rule. */
  method SliceScenario() returns (added: JsValue, unregistered: JsValue)
    ensures added == Num(5)
    ensures unregistered == Num(0)
  {
    var slice := new Slice(Num(0));
    var add := HandleCall(ActionCreator("add"), PayloadAware(AddPayload));
    var reducer := slice.Build([add]);
    assert [add][..0] == [];
    assert slice.table == map["add" := Wrap(PayloadAware(AddPayload))];
    added := reducer.Reduce(Num(0), Action("add", Num(5)));
    assert Wrap(PayloadAware(AddPayload))((Num(0), Action("add", Num(5)))) == AddPayload(Num(0), Num(5));
    unregistered := reducer.Reduce(Num(0), Action("other", Undefined));
  }

  /** Sharing: `handle` chains on the same slice; a reducer built earlier
      sees a handler registered by a later builder call, a later builder call
      still has the earlier registrations, and each reducer keeps the default
      reducer that was current when it was built. */
  method SharingScenario() returns (early: JsValue, late: JsValue, earlyDefault: JsValue, lateDefault: JsValue)
    ensures early == Num(2)
    ensures late == Num(8)
    ensures earlyDefault == Num(7)
    ensures lateDefault == Str("reset")
  {
    var slice := new Slice(Num(0));
    var first := slice.Build([]);
    var s1 := slice.Handle(ActionCreator("inc"), PayloadFree(Increment));
    var s2 := s1.Handle(ActionCreator("add"), PayloadAware(AddPayload));
    var reset := (args: (JsValue, Action)) => Str("reset");
    var second := s2.Build([DefaultCall(reset)]);
    assert [DefaultCall(reset)][..0] == [];
    assert first.defaultReducer == None && second.defaultReducer == Some(reset);
    assert slice.table == map["inc" := Wrap(PayloadFree(Increment)), "add" := Wrap(PayloadAware(AddPayload))];
    early := first.Reduce(Num(1), Action("inc", Undefined));
    assert Wrap(PayloadFree(Increment))((Num(1), Action("inc", Undefined))) == Increment(Num(1));
    late := second.Reduce(Num(3), Action("add", Num(5)));
    assert Wrap(PayloadAware(AddPayload))((Num(3), Action("add", Num(5)))) == AddPayload(Num(3), Num(5));
    earlyDefault := first.Reduce(Num(7), Action("other", Undefined));
    lateDefault := second.Reduce(Num(7), Action("other", Undefined));
  }
}
