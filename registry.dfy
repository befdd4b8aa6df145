/**
 * `ServiceRegistry` of `src/registry.rs`: a type-erased store of services
 * keyed by `TypeId`, the order in which they were registered, dependency
 * checking at registration, and the two lifecycle passes.
 *
 * The store holds `Box<dyn Any>` values. An `Entry` records the one thing
 * type erasure keeps about such a box, the Rust type of the value inside
 * it, and `Downcast` succeeds exactly when the requested type is that type.
 * `register::<T>` boxes an `Arc<T>`; `get::<T>` asks for `Arc<T>`; the
 * lifecycle passes ask for `Arc<dyn Service>`, a different type from every
 * `Arc<T>` with `T` sized, so on a non-empty registry they fail before any
 * hook runs (`InitAllAsWritten`, `ShutdownAllAsWritten`).
 */
module Registry {
  import opened Wrappers
  import opened Types
  import opened Errors
  import opened Service

  /** The contents of one `Box<dyn Any + Send + Sync>` in the store. */
  datatype Entry = Entry(stored: RustType, handle: Handle)

  /** `downcast_ref::<U>()`: a view of the boxed value as a `U`, if it is one. */
  function Downcast(e: Entry, target: RustType): (r: Option<Handle>)
    ensures r.Some? <==> e.stored == target
    ensures r.Some? ==> r.value == e.handle
  {
    if e.stored == target then Some(e.handle) else None
  }

  /** The message both lifecycle passes report when a downcast fails. */
  const InvalidServiceType: string := "Invalid service type"

  /** The two fields of a registry, as a value. */
  datatype RegistryState = RegistryState(services: map<TypeId, Entry>, order: seq<TypeId>)

  /** The outcome of an operation on a registry together with the registry it leaves. */
  datatype Step = Step(outcome: Outcome, state: RegistryState)

  function Elements(s: seq<TypeId>): set<TypeId> {
    set i | 0 <= i < |s| :: s[i]
  }

  /** The order mentions exactly the keys of the store (duplicates allowed). */
  predicate OrderMirrorsStore(s: RegistryState) {
    Elements(s.order) == s.services.Keys
  }

  /** Every entry is what `register` puts there: an `Arc<T>` under `TypeId::of::<T>()`, `T` sized. */
  predicate StoredAsRegistered(s: RegistryState) {
    forall id :: id in s.services ==> !id.ty.DynService? && s.services[id].stored == Arc(id.ty)
  }

  predicate WellFormed(s: RegistryState) {
    OrderMirrorsStore(s) && StoredAsRegistered(s)
  }

  /** A registry with no services and an empty order. */
  const Empty: RegistryState := RegistryState(map[], [])

  /**
   * The index of the first dependency, in list order, that is not present,
   * if there is one.
   */
  function FirstMissing(deps: seq<TypeId>, present: set<TypeId>): (k: Option<nat>)
    ensures k.None? <==> forall j :: 0 <= j < |deps| ==> deps[j] in present
    ensures k.Some? ==> k.value < |deps| && deps[k.value] !in present
    ensures k.Some? ==> forall j :: 0 <= j < k.value ==> deps[j] in present
  {
    if deps == [] then None
    else if deps[0] !in present then Some(0)
    else match FirstMissing(deps[1..], present)
      case None => None
      case Some(k) => Some(k + 1)
  }

  /**
   * What `register::<T>(service)` does to a registry whose
   * `T::required_services()` is `requiredServices`.
   */
  function RegisterStep(s: RegistryState, T: SizedType, requiredServices: seq<TypeId>, service: Handle): (r: Step)
    ensures r.outcome.Err? <==> exists j :: 0 <= j < |requiredServices| && requiredServices[j] !in s.services
    ensures r.outcome.Err? ==> r.state == s
    ensures r.outcome.Err? ==>
      exists k :: 0 <= k < |requiredServices| && r.outcome.error == MissingDependency(requiredServices[k])
        && requiredServices[k] !in s.services
        && forall j :: 0 <= j < k ==> requiredServices[j] in s.services
    ensures r.outcome.Ok? ==>
      && r.state.services.Keys == s.services.Keys + {TypeIdOf(T)}
      && r.state.services[TypeIdOf(T)] == Entry(Arc(T), service)
      && (forall id :: id in s.services && id != TypeIdOf(T) ==> r.state.services[id] == s.services[id])
      && r.state.order == s.order + [TypeIdOf(T)]
  {
    match FirstMissing(requiredServices, s.services.Keys)
    case Some(k) => Step(Err(MissingDependency(requiredServices[k])), s)
    case None =>
      var id := TypeIdOf(T);
      Step(Ok(()), RegistryState(s.services[id := Entry(Arc(T), service)], s.order + [id]))
  }

  lemma RegisterPreservesWellFormed(s: RegistryState, T: SizedType, requiredServices: seq<TypeId>, service: Handle)
    requires WellFormed(s)
    ensures WellFormed(RegisterStep(s, T, requiredServices, service).state)
  {
    var r := RegisterStep(s, T, requiredServices, service);
    if r.outcome.Ok? {
      ElementsAppend(s.order, TypeIdOf(T));
    }
  }

  /**
   * A successful registration comes after its dependencies: each of them
   * already occurs in the order the new id is appended to.
   */
  lemma RegisterFollowsDependencies(s: RegistryState, T: SizedType, requiredServices: seq<TypeId>, service: Handle)
    requires WellFormed(s)
    requires RegisterStep(s, T, requiredServices, service).outcome.Ok?
    ensures var order := RegisterStep(s, T, requiredServices, service).state.order;
      && order[|order| - 1] == TypeIdOf(T)
      && forall j :: 0 <= j < |requiredServices| ==>
           exists i :: 0 <= i < |order| - 1 && order[i] == requiredServices[j]
  {
    var order := RegisterStep(s, T, requiredServices, service).state.order;
    forall j | 0 <= j < |requiredServices|
      ensures exists i :: 0 <= i < |order| - 1 && order[i] == requiredServices[j]
    {
      assert requiredServices[j] in Elements(s.order);
      var i :| 0 <= i < |s.order| && s.order[i] == requiredServices[j];
      assert order[i] == s.order[i];
    }
  }

  lemma ElementsAppend(s: seq<TypeId>, x: TypeId)
    ensures Elements(s + [x]) == Elements(s) + {x}
  {
    var t := s + [x];
    forall y | y in Elements(t) ensures y in Elements(s) + {x} {
      var i :| 0 <= i < |t| && t[i] == y;
      if i < |s| { assert s[i] == y; }
    }
    forall y | y in Elements(s) ensures y in Elements(t) {
      var i :| 0 <= i < |s| && s[i] == y;
      assert t[i] == y;
    }
    assert t[|s|] == x;
  }

  /**
   * Registering a type that is already present replaces its entry and adds
   * a second copy of its `TypeId` to the order: duplicates are not rejected.
   */
  lemma ReRegisterDuplicatesOrder(s: RegistryState, T: SizedType, requiredServices: seq<TypeId>, service: Handle)
    requires TypeIdOf(T) in s.services
    requires RegisterStep(s, T, requiredServices, service).outcome.Ok?
    ensures var r := RegisterStep(s, T, requiredServices, service).state;
      && r.services.Keys == s.services.Keys
      && r.services[TypeIdOf(T)].handle == service
      && multiset(r.order)[TypeIdOf(T)] == multiset(s.order)[TypeIdOf(T)] + 1
  {
    var id := TypeIdOf(T);
    var r := RegisterStep(s, T, requiredServices, service).state;
    assert r.order == s.order + [id];
    assert multiset(r.order) == multiset(s.order) + multiset{id};
  }

  /** `init_all` and `shutdown_all` as runs: what they return and whose hooks they called, in call order. */
  datatype Run = Run(outcome: Outcome, invoked: seq<TypeId>)

  function Prepend(called: seq<TypeId>, r: Run): Run {
    Run(r.outcome, called + r.invoked)
  }

  /**
   * One lifecycle pass over `ids`: an id with no entry is skipped; an entry
   * that is not an `Arc<dyn Service>` stops the pass with `invalid`; otherwise
   * the entry's hook runs and its error, if any, stops the pass.
   */
  function Walk(ids: seq<TypeId>, services: map<TypeId, Entry>, hook: Hook, invalid: ServiceError): Run
    decreases |ids|
  {
    if ids == [] then Run(Ok(()), [])
    else if ids[0] !in services then Walk(ids[1..], services, hook, invalid)
    else match Downcast(services[ids[0]], Arc(DynService))
      case None => Run(Err(invalid), [])
      case Some(service) =>
        var out := hook(service);
        if out.Err? then Run(out, [ids[0]])
        else Prepend([ids[0]], Walk(ids[1..], services, hook, invalid))
  }

  /** The entry can be viewed as a service and its hook succeeds. */
  predicate Passes(e: Entry, hook: Hook) {
    match Downcast(e, Arc(DynService))
    case None => false
    case Some(service) => hook(service).Ok?
  }

  predicate AllPass(ids: seq<TypeId>, services: map<TypeId, Entry>, hook: Hook) {
    forall k :: 0 <= k < |ids| && ids[k] in services ==> Passes(services[ids[k]], hook)
  }

  /** The ids that have an entry, in their order. */
  function Present(ids: seq<TypeId>, keys: set<TypeId>): (p: seq<TypeId>)
    ensures forall i :: 0 <= i < |p| ==> p[i] in keys
  {
    if ids == [] then []
    else (if ids[0] in keys then [ids[0]] else []) + Present(ids[1..], keys)
  }

  /** The ids in reverse: the order `.iter().rev()` visits them in. */
  function Reversed(s: seq<TypeId>): (r: seq<TypeId>)
    ensures |r| == |s|
  {
    if s == [] then [] else [s[|s| - 1]] + Reversed(s[..|s| - 1])
  }

  lemma {:induction false} ReversedAt(s: seq<TypeId>, k: nat)
    requires k < |s|
    ensures Reversed(s)[k] == s[|s| - 1 - k]
  {
    if k > 0 {
      ReversedAt(s[..|s| - 1], k - 1);
    }
  }

  lemma {:induction false} PresentAppend(a: seq<TypeId>, b: seq<TypeId>, keys: set<TypeId>)
    ensures Present(a + b, keys) == Present(a, keys) + Present(b, keys)
  {
    if a == [] {
      assert a + b == b;
    } else {
      assert (a + b)[1..] == a[1..] + b;
      PresentAppend(a[1..], b, keys);
    }
  }

  /** Skipping absent ids commutes with reversing. */
  lemma {:induction false} PresentReversed(ids: seq<TypeId>, keys: set<TypeId>)
    ensures Present(Reversed(ids), keys) == Reversed(Present(ids, keys))
  {
    if ids != [] {
      var init, last := ids[..|ids| - 1], ids[|ids| - 1];
      assert ids == init + [last];
      PresentAppend(init, [last], keys);
      PresentReversed(init, keys);
      var p := Present(init, keys);
      if last in keys {
        assert Present(ids, keys) == p + [last];
        assert (p + [last])[..|p|] == p;
      } else {
        assert Present([last], keys) == [];
        assert Present(ids, keys) == p;
      }
    }
  }

  /** A pass succeeds iff every entry it meets passes, and then it ran exactly the present ids' hooks, in order. */
  lemma {:induction false} WalkSucceedsIff(ids: seq<TypeId>, services: map<TypeId, Entry>, hook: Hook, invalid: ServiceError)
    ensures Walk(ids, services, hook, invalid).outcome.Ok? <==> AllPass(ids, services, hook)
    ensures AllPass(ids, services, hook) ==> Walk(ids, services, hook, invalid).invoked == Present(ids, services.Keys)
  {
    if ids != [] {
      WalkSucceedsIff(ids[1..], services, hook, invalid);
      assert AllPass(ids, services, hook) <==>
        (ids[0] in services ==> Passes(services[ids[0]], hook)) && AllPass(ids[1..], services, hook)
      by {
        if AllPass(ids, services, hook) {
          forall k | 0 <= k < |ids[1..]| && ids[1..][k] in services
            ensures Passes(services[ids[1..][k]], hook)
          {
            assert ids[1..][k] == ids[k + 1];
          }
        }
        if (ids[0] in services ==> Passes(services[ids[0]], hook)) && AllPass(ids[1..], services, hook) {
          forall k | 0 <= k < |ids| && ids[k] in services ensures Passes(services[ids[k]], hook) {
            if k > 0 { assert ids[k] == ids[1..][k - 1]; }
          }
        }
      }
    }
  }

  /**
   * A pass stops at the first present id whose entry does not pass: with
   * `invalid` if the downcast fails, with the hook's own error otherwise.
   * The hooks run are those of the present ids before it, then its own if
   * the downcast succeeded; no later hook runs.
   */
  lemma {:induction false} WalkStopsAtFirstFailure(ids: seq<TypeId>, services: map<TypeId, Entry>, hook: Hook, invalid: ServiceError, k: nat)
    requires k < |ids| && ids[k] in services && !Passes(services[ids[k]], hook)
    requires AllPass(ids[..k], services, hook)
    ensures Walk(ids, services, hook, invalid) ==
      match Downcast(services[ids[k]], Arc(DynService))
      case None => Run(Err(invalid), Present(ids[..k], services.Keys))
      case Some(service) => Run(hook(service), Present(ids[..k], services.Keys) + [ids[k]])
  {
    if k > 0 {
      assert ids[1..][..k - 1] == ids[1..k];
      assert ids[..k][1..] == ids[1..k];
      assert ids[..k][0] == ids[0];
      var before := ids[1..][..k - 1];
      assert AllPass(before, services, hook) by {
        forall j | 0 <= j < k - 1 && before[j] in services
          ensures Passes(services[before[j]], hook)
        {
          assert before[j] == ids[..k][j + 1];
        }
      }
      assert ids[0] in services ==> Passes(services[ids[0]], hook) by {
        assert ids[..k][0] == ids[0];
      }
      WalkStopsAtFirstFailure(ids[1..], services, hook, invalid, k - 1);
    }
  }

  /**
   * When no entry is stored as an `Arc<dyn Service>`, a pass runs no hook at
   * all: it succeeds iff no id in it is present, and otherwise reports `invalid`.
   */
  lemma {:induction false} WalkWithoutServiceViews(ids: seq<TypeId>, services: map<TypeId, Entry>, hook: Hook, invalid: ServiceError)
    requires forall id :: id in services ==> services[id].stored != Arc(DynService)
    ensures Walk(ids, services, hook, invalid) ==
      if Present(ids, services.Keys) == [] then Run(Ok(()), []) else Run(Err(invalid), [])
  {
    if ids != [] && ids[0] !in services {
      WalkWithoutServiceViews(ids[1..], services, hook, invalid);
    }
  }

  /** The run of `init_all` on a registry. */
  function InitAllRun(s: RegistryState, hook: Hook): Run {
    Walk(s.order, s.services, hook, InitializationError(InvalidServiceType))
  }

  /** The run of `shutdown_all` on a registry. */
  function ShutdownAllRun(s: RegistryState, hook: Hook): Run {
    Walk(Reversed(s.order), s.services, hook, ShutdownError(InvalidServiceType))
  }

  /**
   * As written, `init_all` succeeds only on an empty registry; on any other
   * it reports "Invalid service type" at the first id and runs no hook.
   */
  lemma InitAllAsWritten(s: RegistryState, hook: Hook)
    requires WellFormed(s)
    ensures InitAllRun(s, hook) ==
      if s.order == [] then Run(Ok(()), []) else Run(Err(InitializationError(InvalidServiceType)), [])
  {
    if s.order != [] {
      assert s.order[0] in Elements(s.order);
    }
  }

  /** Likewise `shutdown_all`, whose first id is the last one registered. */
  lemma ShutdownAllAsWritten(s: RegistryState, hook: Hook)
    requires WellFormed(s)
    ensures ShutdownAllRun(s, hook) ==
      if s.order == [] then Run(Ok(()), []) else Run(Err(ShutdownError(InvalidServiceType)), [])
  {
    if s.order != [] {
      var n := |s.order|;
      ReversedAt(s.order, 0);
      assert s.order[n - 1] in Elements(s.order);
      assert Reversed(s.order)[0] in s.services;
    }
  }

  /**
   * Were every hook reached, shutdown would run them in exactly the reverse
   * of the order init runs them in.
   */
  lemma ShutdownReversesInit(s: RegistryState, initHook: Hook, shutdownHook: Hook)
    requires AllPass(s.order, s.services, initHook)
    requires AllPass(Reversed(s.order), s.services, shutdownHook)
    ensures ShutdownAllRun(s, shutdownHook).invoked == Reversed(InitAllRun(s, initHook).invoked)
  {
    WalkSucceedsIff(s.order, s.services, initHook, InitializationError(InvalidServiceType));
    WalkSucceedsIff(Reversed(s.order), s.services, shutdownHook, ShutdownError(InvalidServiceType));
    PresentReversed(s.order, s.services.Keys);
  }

  class ServiceRegistry {
    var services: map<TypeId, Entry>
    var initializationOrder: seq<TypeId>

    function State(): RegistryState
      reads this
    {
      RegistryState(services, initializationOrder)
    }

    predicate Valid()
      reads this
    {
      WellFormed(State())
    }

    /** `ServiceRegistry::new`: an empty store and an empty order. */
    constructor ()
      ensures Valid()
      ensures State() == Empty
    {
      services := map[];
      initializationOrder := [];
    }

    /**
     * `register::<T>(service)`, where `requiredServices` is what
     * `T::required_services()` returns.
     */
    method Register(T: SizedType, requiredServices: seq<TypeId>, service: Handle) returns (r: Outcome)
      modifies this
      ensures old(Valid()) ==> Valid()
      ensures Step(r, State()) == RegisterStep(old(State()), T, requiredServices, service)
      ensures r.Ok? ==> Get(T) == Some(service)
    {
      var typeId := TypeIdOf(T);
      for i := 0 to |requiredServices|
        invariant forall j :: 0 <= j < i ==> requiredServices[j] in services
      {
        var dep := requiredServices[i];
        if dep !in services {
          r := Err(MissingDependency(dep));
          return;
        }
      }
      if Valid() { RegisterPreservesWellFormed(State(), T, requiredServices, service); }
      services := services[typeId := Entry(Arc(T), service)];
      initializationOrder := initializationOrder + [typeId];
      r := Ok(());
    }

    /** `get::<T>()`: the handle stored under `T`'s id, if it is an `Arc<T>`. */
    function Get(T: SizedType): (r: Option<Handle>)
      reads this
      ensures r.Some? <==> TypeIdOf(T) in services && services[TypeIdOf(T)].stored == Arc(T)
      ensures r.Some? ==> r.value == services[TypeIdOf(T)].handle
      ensures Valid() ==> (r.Some? <==> TypeIdOf(T) in services)
    {
      var typeId := TypeIdOf(T);
      if typeId in services then Downcast(services[typeId], Arc(T)) else None
    }

    /**
     * `init_all`, with `hook` for the services' `init`. `invoked` lists the
     * services whose hook ran, in order.
     */
    method InitAll(hook: Hook) returns (r: Outcome, ghost invoked: seq<TypeId>)
      ensures r == InitAllRun(State(), hook).outcome
      ensures invoked == InitAllRun(State(), hook).invoked
      ensures Valid() ==> (r.Ok? <==> initializationOrder == [])
      ensures Valid() ==> invoked == []
    {
      ghost var invalid := InitializationError(InvalidServiceType);
      invoked := [];
      for i := 0 to |initializationOrder|
        invariant Walk(initializationOrder, services, hook, invalid)
          == Prepend(invoked, Walk(initializationOrder[i..], services, hook, invalid))
      {
        var typeId := initializationOrder[i];
        assert initializationOrder[i..][1..] == initializationOrder[i + 1..];
        if typeId in services {
          var service := Downcast(services[typeId], Arc(DynService));
          if service.None? {
            r := Err(InitializationError(InvalidServiceType));
            return;
          }
          var out := hook(service.value);
          invoked := invoked + [typeId];
          if out.Err? {
            r := out;
            return;
          }
        }
      }
      r := Ok(());
      if Valid() { InitAllAsWritten(State(), hook); }
    }

    /**
     * `shutdown_all`, with `hook` for the services' `shutdown`, visiting the
     * order from its end.
     */
    method ShutdownAll(hook: Hook) returns (r: Outcome, ghost invoked: seq<TypeId>)
      ensures r == ShutdownAllRun(State(), hook).outcome
      ensures invoked == ShutdownAllRun(State(), hook).invoked
      ensures Valid() ==> (r.Ok? <==> initializationOrder == [])
      ensures Valid() ==> invoked == []
    {
      ghost var invalid := ShutdownError(InvalidServiceType);
      invoked := [];
      var i := |initializationOrder|;
      assert initializationOrder[..i] == initializationOrder;
      while i > 0
        invariant 0 <= i <= |initializationOrder|
        invariant Walk(Reversed(initializationOrder), services, hook, invalid)
          == Prepend(invoked, Walk(Reversed(initializationOrder[..i]), services, hook, invalid))
      {
        assert initializationOrder[..i][..i - 1] == initializationOrder[..i - 1];
        i := i - 1;
        var typeId := initializationOrder[i];
        if typeId in services {
          var service := Downcast(services[typeId], Arc(DynService));
          if service.None? {
            r := Err(ShutdownError(InvalidServiceType));
            return;
          }
          var out := hook(service.value);
          invoked := invoked + [typeId];
          if out.Err? {
            r := out;
            return;
          }
        }
      }
      r := Ok(());
      if Valid() { ShutdownAllAsWritten(State(), hook); }
    }
  }
}
