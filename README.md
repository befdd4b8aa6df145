# actix-di service registry, modelled in Dafny

This project models the service container of the `actix-di` crate. The container is a
registry of singleton services keyed by their Rust type. It checks each service's declared
dependencies when the service is registered. It records the registration order and walks that
order forward in `init_all` and backward in `shutdown_all`. Also modelled: the module layer,
which groups registrations and composes them with fail-fast semantics, and the two macros
(`inject_service!`, `provide_dependencies!`).

Files and modules:

- `types.dfy` (`Types`): Rust types as far as type erasure sees them (`Named`, `Arc<_>`,
  `dyn Service`), `TypeId`, and service handles. A handle is the identity of the instance it
  points to.
- `errors.dfy` (`Errors`): the four `ServiceError` variants, `Result<T, ServiceError>` and
  `Outcome` = `Result<(), ServiceError>`.
- `service.dfy` (`Service`): a hook is a function from a handle to the hook's result. The
  trait's default hooks return `Ok(())`.
- `registry.dfy` (`Registry`): `ServiceRegistry` is a class with the two fields the Rust struct
  mutates (`services`, `initializationOrder`). The pure specification functions work on a
  `RegistryState` value: `RegisterStep`, `Walk`, `InitAllRun` and `ShutdownAllRun`.
- `module.dfy` (`Modules`): modules as data, their register and lifecycle semantics, the
  imperative composite loops, and `ModuleBuilder`.
- `macros.dfy` (`Macros`): `inject_service!` and `provide_dependencies!`.
- `scenarios.dfy` (`Scenarios`): two client methods that drive a registry end to end.

Type erasure is modelled explicitly. An `Entry` records the Rust type of the value in the
`Box<dyn Any>` and the handle. `Downcast` to `U` succeeds exactly when that type is `U`.
`register::<T>` stores an `Arc<T>` (`src/registry.rs:37`). `get::<T>` asks for `Arc<T>`.
`init_all` and `shutdown_all` ask for `Arc<dyn Service>` (`src/registry.rs:54`, `:69`), which
never matches the `Arc<T>` of a sized `T`. As written, then, both lifecycle passes fail with
"Invalid service type" at the first service each pass visits on any non-empty registry: the
first one registered for `init_all`, the last one registered for `shutdown_all`. No hook ever
runs. `InitAllAsWritten` and `ShutdownAllAsWritten` prove this. The general lemmas about
`Walk` cover the code's other branches: skipping ids with no entry, propagating a hook's error,
and stopping at the first failure.

Behaviours of the code worth stating plainly:

- The order log may contain duplicates. Re-registering a type is not rejected: it overwrites
  the entry and appends the `TypeId` again. What holds is that the SET of ids in the order
  equals the store's key set (`OrderMirrorsStore`).
- Hooks are never reached on a registry built by `register` (see above). `ShutdownReversesInit`
  states the ordering the two walks would have for entries that pass the downcast: shutdown runs
  the hooks in exactly the reverse of init's order.
- A hook's own error is propagated unchanged. Only a failed downcast produces
  `InitializationError` or `ShutdownError`.
- `src/module.rs` is not declared in `src/lib.rs:1-5`, and it imports an `As` trait that
  `src/service.rs` does not define. It is modelled as written; the unused `As<T>` bound of
  `register_service` has no effect in the model.

## Model

| member | source | states |
|---|---|---|
| `Types.TypeIdOf` | src/registry.rs:26 | `TypeId::of::<T>()`: a token that identifies exactly the type `T` |
| `Registry.Downcast` | src/registry.rs:46 | `downcast_ref::<U>()`: succeeds iff the boxed value's type is the requested one, yielding its handle |
| `Registry.FirstMissing` | src/registry.rs:30-35 | None iff every dependency is present; otherwise the index of an absent dependency with all earlier ones present (the first absent in list order) |
| `Registry.RegisterStep` | src/registry.rs:22-41 | fails iff some dependency is absent, naming the first absent one and leaving the state unchanged; on success maps `TypeId(T)` to `Arc<T>` with the handle, keeps every other key, and appends `TypeId(T)` to the order |
| `Registry.RegisterPreservesWellFormed` | src/registry.rs:37-38 | registering keeps the set of ids in the order equal to the key set, and every entry an `Arc<T>` under `TypeId(T)` |
| `Registry.RegisterFollowsDependencies` | src/registry.rs:30-38 | after a successful registration every declared dependency occurs in the order before the new id, which is last |
| `Registry.ReRegisterDuplicatesOrder` | src/registry.rs:37-38 | re-registering a present type keeps the key set, stores the new handle, and adds one more occurrence of its id to the order |
| `Registry.ServiceRegistry.constructor` | src/registry.rs:15-20 | a new registry is `Empty`: an empty store and an empty order |
| `Registry.ServiceRegistry.Register` | src/registry.rs:22-41 | the loop and the two updates produce exactly `RegisterStep` of the old state; the invariant is kept; after success `Get(T)` returns the registered handle |
| `Registry.ServiceRegistry.Get` | src/registry.rs:43-48 | present iff the entry under `TypeId(T)` exists and holds `Arc<T>`, and then it is that entry's handle; on a well-formed registry, present iff `T` was registered |
| `Registry.ServiceRegistry.InitAll` | src/registry.rs:50-63 | the loop's result and called hooks are `Walk` over the order front to back; on a well-formed registry no hook runs and the result is `Ok` iff the order is empty |
| `Registry.ServiceRegistry.ShutdownAll` | src/registry.rs:65-78 | the same over the reversed order, with `ShutdownError`; on a well-formed registry no hook runs and the result is `Ok` iff the order is empty |
| `Registry.WalkSucceedsIff` | src/registry.rs:51-60 | a pass succeeds iff every present entry downcasts and its hook succeeds, and then it ran the hooks of exactly the present ids, in order |
| `Registry.WalkStopsAtFirstFailure` | src/registry.rs:53-58 | at the first present entry that fails, the pass returns the invalid-type error or the hook's own error, after the hooks of the earlier present ids only |
| `Registry.WalkWithoutServiceViews` | src/registry.rs:53-57 | when no entry is an `Arc<dyn Service>`, a pass runs no hook, succeeding iff no id in it is present |
| `Registry.InitAllAsWritten` | src/registry.rs:50-63 | on a well-formed registry `init_all` returns `Ok` on the empty one and otherwise `InitializationError("Invalid service type")`, with no hook run |
| `Registry.ShutdownAllAsWritten` | src/registry.rs:65-78 | on a well-formed registry `shutdown_all` returns `Ok` on the empty one and otherwise `ShutdownError("Invalid service type")`, with no hook run |
| `Registry.ShutdownReversesInit` | src/registry.rs:66 | when every hook would be reached, shutdown runs them in exactly the reverse of init's order |
| `Registry.PresentReversed` | src/registry.rs:66 | skipping ids without an entry commutes with reversing the order |
| `Service.DefaultHook` | src/service.rs:7-13 | the default `init` and `shutdown` of a service succeed |
| `Modules.HookResult` | src/module.rs:11-18 | a module's default `init` and `shutdown` return `Ok(())`; an override returns its own result |
| `Modules.ChildrenLifecycleSucceedsIff` | src/module.rs:55-60 | a composite's `init` (or `shutdown`) succeeds iff every child's does |
| `Modules.ChildrenLifecycleStopsAtFirstFailure` | src/module.rs:62-67 | a composite's hook returns the error of the first failing child in list order, the same forward order for `shutdown` as for `init` |
| `Modules.RunLifecycle` | src/module.rs:55-67 | the loop returns the composite's result; it calls every child on success, and otherwise the children up to and including the first failing one, whose error it returns |
| `Modules.LeafRegisterGrows` | src/module.rs:8 | a module's sequence of `register` calls only adds to the order and the key set, and keeps the registry well-formed |
| `Modules.ModuleRegisterGrows` | src/module.rs:48-53 | a module's `register`, even a failing one, leaves the old order as a prefix and the old keys present: there is no rollback |
| `Modules.ChildrenRegisterGrows` | src/module.rs:48-53 | the same for a composite's children, registered in turn |
| `Modules.ChildrenRegisterAppend` | src/module.rs:48-53 | registering children `a + b` is registering `a` and then, only if that succeeded, `b` on the registry `a` left; a failure in `a` keeps its partial effects and skips `b` |
| `Modules.RunRegister` | src/module.rs:48-53 | the loop over children (or over a leaf's registrations) on the shared registry produces exactly `ModuleRegister` of the old state |
| `Modules.ModuleBuilder.constructor` | src/module.rs:27-29 | a new builder has no modules |
| `Modules.ModuleBuilder.AddModule` | src/module.rs:31-33 | appends the module at the end |
| `Modules.ModuleBuilder.Build` | src/module.rs:35-39 | builds a composite of exactly the collected modules |
| `Modules.BuildInInsertionOrder` | src/module.rs:26-39 | adding modules one by one to a new builder and building yields a composite of those modules in insertion order |
| `Modules.RegisterService` | src/module.rs:77-84 | has exactly the result and effect of `ServiceRegistry::register` |
| `Macros.InjectService` | src/macros.rs:2-7 | `Ok(h)` exactly when `get` returns `Some(h)`; otherwise `ServiceNotFound` naming the requested type, and no other error |
| `Macros.InjectServiceOnRegistry` | src/macros.rs:3-5 | on a well-formed registry the strict lookup succeeds iff the type was registered, with its stored handle |
| `Macros.ProvideDependencies` | src/macros.rs:10-17 | the `TypeId`s of the listed types, in the order written, duplicates kept, empty for no arguments |
| `Macros.RegisterReportsEarliestListed` | src/macros.rs:10-17 | with a list from `provide_dependencies!`, `register` reports the earliest-listed unregistered type and changes nothing |
| `Scenarios.AssemblyScenario` | src/registry.rs:22-78 | X, then Y needing X, then Z needing W: the third fails with `MissingDependency(W)`, the order is `[X, Y]`, `get` finds X and not W, and both lifecycle passes fail with "Invalid service type" |
| `Scenarios.DuplicateScenario` | src/registry.rs:37-38 | registering X twice leaves one key, the second handle, and X twice in the order |

## Left out

- Logging through `tracing` (`debug!`, `info!`, `error!`) has no effect on results and is not modelled.
- `async`/`await`, `Send + Sync` and `Arc` reference counting are not modelled. Hooks are sequential calls returning a result, and handles are instance identities.
- The bodies of user-supplied `Service` and `Module` hooks are not modelled. A service hook is a parameter (a function from handle to result). A module hook is either the default or an override with a fixed result.
- A non-composite module's `register` is modelled as a sequence of `register` calls, each followed by `?`. Not modelled: a module that branches on lookups, ignores a failed registration, returns an error of its own, or replaces the whole registry (`*registry = ServiceRegistry::new()`, since `new` is public and `Default` is derived). This restriction is what makes `Modules.LeafRegisterGrows` and `Modules.ModuleRegisterGrows` hold for every module.
- `T::required_services()` is passed to `Register` as an argument, rather than looked up from the type.
- `src/state.rs` is not part of this model. `AppState::get` only forwards to the registry's `get`, and `From<AppState> for Data<AppState>` belongs to the web framework.
- `src/lib.rs` holds only module declarations and re-exports.
- The `thiserror` message formats are not modelled; only the four variants and the literal "Invalid service type" are.
- `TypeId` hashing and `HashMap` internals are replaced by a Dafny `map` keyed by an abstract `TypeId`.
- `Modules.RunLifecycle`: the count of children called is stated only for composites; a leaf's hook is a single value.
