/**
 * The part of `std::any` the registry relies on: Rust types, their
 * `TypeId`s, and shared handles to service instances.
 */
module Types {

  /**
   * A Rust type, as far as type erasure can observe it: a named type
   * (a service struct), `Arc<T>`, or the trait object `dyn Service`.
   */
  datatype RustType = Named(path: string) | Arc(pointee: RustType) | DynService

  /** Every type a service can be: the `Sized` ones (all but `dyn Service`). */
  type SizedType = t: RustType | !t.DynService? witness Named([])

  /** The token `TypeId::of::<T>()`; it identifies `T` exactly. */
  datatype TypeId = TypeId(ty: RustType)

  function TypeIdOf(t: RustType): (id: TypeId)
    ensures id.ty == t
  {
    TypeId(t)
  }

  /**
   * An `Arc` handle to one service instance. Reference counting is not
   * modelled: a handle is the identity of the instance it points to.
   */
  datatype Handle = Handle(instance: nat)
}
