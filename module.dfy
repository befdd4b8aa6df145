/**
 * `src/module.rs`: modules that register groups of services, and
 * `CompositeModule`, which runs its children's `register`, `init` and
 * `shutdown` one after the other, in list order, stopping at the first
 * error and undoing nothing.
 *
 * A module other than a composite is user code. Its `register` is modelled
 * as the sequence of `register` calls it makes on the registry, each
 * followed by `?`; its `init` and `shutdown` are either the trait's
 * defaults or overrides that return a given result.
 */
module Modules {
  import opened Types
  import opened Errors
  import opened Registry

  /** A module's `init` or `shutdown`: the trait's default, or an override returning `result`. */
  datatype ModuleHook = Default | Overridden(result: Outcome)

  /** One `registry.register::<T>(service)?` made by a module. */
  datatype Registration = Registration(ty: SizedType, requiredServices: seq<TypeId>, service: Handle)

  datatype Module =
    | Leaf(registrations: seq<Registration>, init: ModuleHook, shutdown: ModuleHook)
    | Composite(modules: seq<Module>)

  datatype Phase = Init | Shutdown

  /** The trait's default hooks return `Ok(())`. */
  function HookResult(h: ModuleHook): (r: Outcome)
    ensures h.Default? ==> r == Ok(())
    ensures h.Overridden? ==> r == h.result
  {
    match h
    case Default => Ok(())
    case Overridden(result) => result
  }

  /** What a module's `init` (or `shutdown`) returns. */
  function Lifecycle(m: Module, phase: Phase): Outcome
    decreases m
  {
    match m
    case Leaf(_, init, shutdown) => HookResult(if phase == Init then init else shutdown)
    case Composite(ms) => ChildrenLifecycle(ms, phase)
  }

  /** The children's hooks, front to back, until the first error. */
  function ChildrenLifecycle(ms: seq<Module>, phase: Phase): Outcome
    decreases ms
  {
    if ms == [] then Ok(())
    else
      var first := Lifecycle(ms[0], phase);
      if first.Err? then first else ChildrenLifecycle(ms[1..], phase)
  }

  /** A composite's hook succeeds iff every child's does. */
  lemma {:induction false} ChildrenLifecycleSucceedsIff(ms: seq<Module>, phase: Phase)
    ensures ChildrenLifecycle(ms, phase).Ok? <==> forall j :: 0 <= j < |ms| ==> Lifecycle(ms[j], phase).Ok?
  {
    if ms != [] {
      ChildrenLifecycleSucceedsIff(ms[1..], phase);
      assert forall j :: 0 < j < |ms| ==> ms[j] == ms[1..][j - 1];
    }
  }

  /**
   * A composite's hook returns the error of the first failing child in list
   * order, for `shutdown` as for `init`: the list is not reversed.
   */
  lemma {:induction false} ChildrenLifecycleStopsAtFirstFailure(ms: seq<Module>, phase: Phase, k: nat)
    requires k < |ms| && Lifecycle(ms[k], phase).Err?
    requires forall j :: 0 <= j < k ==> Lifecycle(ms[j], phase).Ok?
    ensures ChildrenLifecycle(ms, phase) == Lifecycle(ms[k], phase)
  {
    if k > 0 {
      assert forall j :: 0 <= j < k - 1 ==> ms[1..][j] == ms[j + 1];
      ChildrenLifecycleStopsAtFirstFailure(ms[1..], phase, k - 1);
    }
  }

  /** A leaf module's `register`: its registrations in order, each with `?`. */
  function LeafRegister(regs: seq<Registration>, s: RegistryState): Step
    decreases regs
  {
    if regs == [] then Step(Ok(()), s)
    else
      var first := RegisterStep(s, regs[0].ty, regs[0].requiredServices, regs[0].service);
      if first.outcome.Err? then first else LeafRegister(regs[1..], first.state)
  }

  /** What a module's `register` returns and leaves in the registry. */
  function ModuleRegister(m: Module, s: RegistryState): Step
    decreases m
  {
    match m
    case Leaf(regs, _, _) => LeafRegister(regs, s)
    case Composite(ms) => ChildrenRegister(ms, s)
  }

  /** The children's `register`, front to back on one registry, until the first error. */
  function ChildrenRegister(ms: seq<Module>, s: RegistryState): Step
    decreases ms
  {
    if ms == [] then Step(Ok(()), s)
    else
      var first := ModuleRegister(ms[0], s);
      if first.outcome.Err? then first else ChildrenRegister(ms[1..], first.state)
  }

  /**
   * Registration only adds: the old order is a prefix of the new one, no key
   * disappears, and a well-formed registry stays well-formed.
   */
  predicate Grows(s: RegistryState, t: RegistryState) {
    s.order <= t.order && s.services.Keys <= t.services.Keys && (WellFormed(s) ==> WellFormed(t))
  }

  lemma {:induction false} LeafRegisterGrows(regs: seq<Registration>, s: RegistryState)
    ensures Grows(s, LeafRegister(regs, s).state)
  {
    if regs != [] {
      var first := RegisterStep(s, regs[0].ty, regs[0].requiredServices, regs[0].service);
      if WellFormed(s) {
        RegisterPreservesWellFormed(s, regs[0].ty, regs[0].requiredServices, regs[0].service);
      }
      if first.outcome.Ok? {
        LeafRegisterGrows(regs[1..], first.state);
      }
    }
  }

  /** Even a failed `register` keeps what earlier registrations did: there is no rollback. */
  lemma {:induction false} ModuleRegisterGrows(m: Module, s: RegistryState)
    ensures Grows(s, ModuleRegister(m, s).state)
    decreases m
  {
    match m
    case Leaf(regs, _, _) => LeafRegisterGrows(regs, s);
    case Composite(ms) => ChildrenRegisterGrows(ms, s);
  }

  lemma {:induction false} ChildrenRegisterGrows(ms: seq<Module>, s: RegistryState)
    ensures Grows(s, ChildrenRegister(ms, s).state)
    decreases ms
  {
    if ms != [] {
      var first := ModuleRegister(ms[0], s);
      ModuleRegisterGrows(ms[0], s);
      if first.outcome.Ok? {
        ChildrenRegisterGrows(ms[1..], first.state);
      }
    }
  }

  /**
   * Registering the children `a + b` is registering `a`, then, only if that
   * succeeded, registering `b` on the registry `a` left; if `a` fails, its
   * result and its partial effect on the registry are the whole result.
   */
  lemma {:induction false} ChildrenRegisterAppend(a: seq<Module>, b: seq<Module>, s: RegistryState)
    ensures ChildrenRegister(a + b, s) ==
      var r := ChildrenRegister(a, s);
      if r.outcome.Err? then r else ChildrenRegister(b, r.state)
  {
    if a == [] {
      assert a + b == b;
    } else {
      assert (a + b)[0] == a[0];
      assert (a + b)[1..] == a[1..] + b;
      var first := ModuleRegister(a[0], s);
      if first.outcome.Ok? {
        ChildrenRegisterAppend(a[1..], b, first.state);
      }
    }
  }

  /** `Module::register` (for a composite, `CompositeModule::register`) on a shared registry. */
  method RunRegister(m: Module, registry: ServiceRegistry) returns (r: Outcome)
    modifies registry
    ensures Step(r, registry.State()) == ModuleRegister(m, old(registry.State()))
    decreases m
  {
    match m
    case Leaf(regs, _, _) =>
      for i := 0 to |regs|
        invariant LeafRegister(regs, old(registry.State())) == LeafRegister(regs[i..], registry.State())
      {
        assert regs[i..][1..] == regs[i + 1..];
        var reg := regs[i];
        r := registry.Register(reg.ty, reg.requiredServices, reg.service);
        if r.Err? {
          return;
        }
      }
      r := Ok(());
    case Composite(ms) =>
      for i := 0 to |ms|
        invariant ChildrenRegister(ms, old(registry.State())) == ChildrenRegister(ms[i..], registry.State())
      {
        assert ms[i..][1..] == ms[i + 1..];
        r := RunRegister(ms[i], registry);
        if r.Err? {
          return;
        }
      }
      r := Ok(());
  }

  /**
   * `Module::init` or `Module::shutdown`. For a composite, `ran` is the
   * number of children whose hook was called: all of them if every one
   * succeeded, and otherwise up to and including the first that failed.
   */
  method RunLifecycle(m: Module, phase: Phase) returns (r: Outcome, ghost ran: nat)
    ensures r == Lifecycle(m, phase)
    ensures m.Composite? ==> ran <= |m.modules|
    ensures m.Composite? && r.Ok? ==> ran == |m.modules|
    ensures m.Composite? ==> forall j :: 0 <= j < ran ==> j + 1 == ran || Lifecycle(m.modules[j], phase).Ok?
    ensures m.Composite? && r.Err? ==> 0 < ran && r == Lifecycle(m.modules[ran - 1], phase)
    decreases m
  {
    match m
    case Leaf(_, init, shutdown) =>
      r := HookResult(if phase == Init then init else shutdown);
      ran := 0;
    case Composite(ms) =>
      for i := 0 to |ms|
        invariant forall j :: 0 <= j < i ==> Lifecycle(ms[j], phase).Ok?
        invariant ChildrenLifecycle(ms, phase) == ChildrenLifecycle(ms[i..], phase)
      {
        assert ms[i..][1..] == ms[i + 1..];
        var out;
        ghost var inner;
        out, inner := RunLifecycle(ms[i], phase);
        if out.Err? {
          r, ran := out, i + 1;
          return;
        }
      }
      r, ran := Ok(()), |ms|;
  }

  /** `ModuleBuilder`: collects modules for one `CompositeModule`. */
  class ModuleBuilder {
    var modules: seq<Module>

    /** `ModuleBuilder::new`: no modules yet. */
    constructor ()
      ensures modules == []
    {
      modules := [];
    }

    /** `add_module`: appends at the end. */
    method AddModule(m: Module)
      modifies this
      ensures modules == old(modules) + [m]
    {
      modules := modules + [m];
    }

    /** `build`: a composite of the collected modules, in the order they were added. */
    method Build() returns (c: Module)
      ensures c.Composite? && c.modules == modules
    {
      c := Composite(modules);
    }
  }

  /** Adding `ms` one by one to a new builder and building yields exactly `ms`, in insertion order. */
  method BuildInInsertionOrder(ms: seq<Module>) returns (c: Module)
    ensures c == Composite(ms)
  {
    var builder := new ModuleBuilder();
    for i := 0 to |ms|
      invariant builder.modules == ms[..i]
    {
      builder.AddModule(ms[i]);
    }
    assert ms[..|ms|] == ms;
    c := builder.Build();
  }

  /** `ServiceRegistration::register_service`: the registry's own `register`. */
  method RegisterService(registry: ServiceRegistry, T: SizedType, requiredServices: seq<TypeId>, service: Handle)
    returns (r: Outcome)
    modifies registry
    ensures old(registry.Valid()) ==> registry.Valid()
    ensures Step(r, registry.State()) == RegisterStep(old(registry.State()), T, requiredServices, service)
  {
    r := registry.Register(T, requiredServices, service);
  }
}
