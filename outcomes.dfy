/** The ways a run of the orphaned-models script stops, and a Result type that carries them. */
module Outcomes {

  /** Each constructor names the Python exception the script raises and where. */
  datatype Failure =
    | MalformedId(id: string)               // IndexError: too few "."-separated segments in a node id
    | UnboundReference(id: string)          // NameError: source_reference read before any source node set it
    | GlobalGraphUnbound                    // NameError: global_graph read before a repository named "1" bound it
    | MissingManifest(repository: string)   // KeyError: no manifest stored under the node's repository
    | MissingManifestEntry(node: string)    // KeyError: the manifest has no entry for the node
    | MissingColumn(column: string)         // KeyError: a column of an empty DataFrame

  datatype Option<+T> = None | Some(value: T)

  datatype Result<+T> = Ok(value: T) | Err(error: Failure) {
    predicate IsFailure() { Err? }

    function PropagateFailure<U>(): Result<U>
      requires Err?
    {
      Err(error)
    }

    function Extract(): T
      requires Ok?
    {
      value
    }
  }
}
