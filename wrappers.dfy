/** The optional value used for Python's `None`-or-value results. */
module Wrappers {

  datatype Option<+T> = None | Some(value: T)

  /** The outcome of one of the entities' state-changing methods: the boolean the
      Python method returns, and the entity's fields after the call. */
  datatype Updated<+T> = Updated(ok: bool, entity: T)
}
