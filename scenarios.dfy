/**
 * A client of the registry, as an application drives it: assembly, a
 * failed registration, lookups, and both lifecycle passes.
 */
module Scenarios {
  import opened Wrappers
  import opened Types
  import opened Errors
  import opened Service
  import opened Registry

  const X: SizedType := Named("X")
  const Y: SizedType := Named("Y")
  const Z: SizedType := Named("Z")
  const W: SizedType := Named("W")

  /**
   * Register `X`, then `Y` needing `X`, then `Z` needing the unregistered
   * `W`. The third fails with `MissingDependency(W)` and the order stays
   * `[X, Y]`; `get` finds `X` and not `W`; and, because the store holds
   * `Arc<X>` and `Arc<Y>` rather than `Arc<dyn Service>`, both lifecycle
   * passes fail at their first service without running a hook.
   */
  method AssemblyScenario(x: Handle, y: Handle, z: Handle)
    returns (order: seq<TypeId>, third: Outcome, getX: Option<Handle>, getW: Option<Handle>,
             init: Outcome, shutdown: Outcome)
    ensures order == [TypeIdOf(X), TypeIdOf(Y)]
    ensures third == Err(MissingDependency(TypeIdOf(W)))
    ensures getX == Some(x) && getW == None
    ensures init == Err(InitializationError(InvalidServiceType))
    ensures shutdown == Err(ShutdownError(InvalidServiceType))
  {
    var registry := new ServiceRegistry();
    var first := registry.Register(X, [], x);
    var second := registry.Register(Y, [TypeIdOf(X)], y);
    third := registry.Register(Z, [TypeIdOf(W)], z);
    order := registry.initializationOrder;
    getX := registry.Get(X);
    getW := registry.Get(W);
    ghost var invoked;
    init, invoked := registry.InitAll(DefaultHook);
    shutdown, invoked := registry.ShutdownAll(DefaultHook);
  }

  /** Registering `X` twice keeps one entry, the second handle, and lists `X` twice. */
  method DuplicateScenario(first: Handle, second: Handle)
    returns (order: seq<TypeId>, keys: set<TypeId>, got: Option<Handle>)
    ensures order == [TypeIdOf(X), TypeIdOf(X)]
    ensures keys == {TypeIdOf(X)}
    ensures got == Some(second)
  {
    var registry := new ServiceRegistry();
    var r := registry.Register(X, [], first);
    r := registry.Register(X, [], second);
    order, keys, got := registry.initializationOrder, registry.services.Keys, registry.Get(X);
  }
}
