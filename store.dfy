/**
 * The repository the services talk to, seen from the outside: a store of
 * saved entity values keyed by `Id`, and the log of the writes made to it.
 */
module Store {
  /** One write call on a repository: `AddAsync`, `UpdateAsync` or `DeleteAsync`,
      with the `Id` of the entity written. */
  datatype Call = AddCall(id: int) | UpdateCall(id: int) | DeleteCall(id: int)
}
