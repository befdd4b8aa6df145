/**
 * The `Service` capability: the lifecycle hooks every registrable type has.
 * A hook's body is user code, so the model takes it as a parameter: a
 * function from the instance's handle to the result the hook returns.
 */
module Service {
  import opened Types
  import opened Errors

  type Hook = Handle -> Outcome

  /** The default `init` and `shutdown` of the `Service` trait: succeed, do nothing. */
  function DefaultHook(service: Handle): (r: Outcome)
    ensures r.Ok?
  {
    Ok(())
  }
}
