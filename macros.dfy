/**
 * `src/macros.rs`: `inject_service!`, the strict lookup, and
 * `provide_dependencies!`, which writes a type's `required_services()`.
 */
module Macros {
  import opened Wrappers
  import opened Types
  import opened Errors
  import opened Registry

  /**
   * `inject_service!(state, S)`: `get::<S>()`, with absence turned into
   * `ServiceNotFound` naming `S`. It has no other error.
   */
  function InjectService(registry: ServiceRegistry, S: SizedType): (r: Result<Handle>)
    reads registry
    ensures r.Ok? <==> registry.Get(S).Some?
    ensures r.Ok? ==> registry.Get(S) == Some(r.value)
    ensures r.Err? ==> r.error == ServiceNotFound(TypeIdOf(S))
  {
    match registry.Get(S)
    case Some(service) => Ok(service)
    case None => Err(ServiceNotFound(TypeIdOf(S)))
  }

  /** On a registry built by `register`, the strict lookup fails exactly for the types never registered. */
  lemma InjectServiceOnRegistry(registry: ServiceRegistry, S: SizedType)
    requires registry.Valid()
    ensures InjectService(registry, S).Ok? <==> TypeIdOf(S) in registry.services
    ensures InjectService(registry, S).Ok? ==>
      InjectService(registry, S).value == registry.services[TypeIdOf(S)].handle
  {
  }

  /**
   * `provide_dependencies!(A, B, ...)`: the body of `required_services()`,
   * the `TypeId` of each listed type in the order written, duplicates kept.
   */
  function ProvideDependencies(deps: seq<RustType>): (ids: seq<TypeId>)
    ensures |ids| == |deps|
    ensures forall i :: 0 <= i < |deps| ==> ids[i] == TypeIdOf(deps[i])
  {
    if deps == [] then [] else [TypeIdOf(deps[0])] + ProvideDependencies(deps[1..])
  }

  /**
   * With a dependency list from `provide_dependencies!`, `register` reports
   * the earliest-listed type that is not registered, and changes nothing.
   */
  lemma RegisterReportsEarliestListed(s: RegistryState, T: SizedType, deps: seq<RustType>, service: Handle, k: nat)
    requires k < |deps| && TypeIdOf(deps[k]) !in s.services
    requires forall j :: 0 <= j < k ==> TypeIdOf(deps[j]) in s.services
    ensures RegisterStep(s, T, ProvideDependencies(deps), service)
      == Step(Err(MissingDependency(TypeIdOf(deps[k]))), s)
  {
    var ids := ProvideDependencies(deps);
    var first := FirstMissing(ids, s.services.Keys);
    assert ids[k] !in s.services.Keys;
    assert first.Some?;
    assert first.value == k;
  }
}
