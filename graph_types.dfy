/** Values shared by the matrix store and the arc filter. */
module GraphTypes {

  /** State of one packed slot of the matrix. `CtNone` is the state every
      slot starts in. A directed slot stores the arc's direction relative to
      the order of the two external vertex ids: `CtDirected` when the tail id
      is the smaller one, `CtDirectedReversed` when it is the larger one. */
  datatype ConnectionType = CtNone | CtUndirected | CtDirected | CtDirectedReversed

  /** A pair of external vertex ids; for an arc it runs from tail to head. */
  datatype Connection = Connection(tail: int, head: int)

  /** A connection tagged with its kind, as the typed iterator reports it. */
  datatype TypedConnection = TypedConnection(conn: Connection, kind: ConnectionType)

  /** The failures the store reports (the original panics with a message). */
  datatype Error =
    | InvalidSize                               // a non-positive capacity
    | NodeExists                                // adding a vertex id twice
    | NoSpace(needed: nat)                      // too few free vertex places
    | EqualNodes                                // a connection from a vertex to itself
    | FirstNodeMissing                          // lookup of an unknown first id
    | SecondNodeMissing                         // lookup of an unknown second id
    | DuplicateConnection(existing: ConnectionType)
    | ConnectionMissing(actual: ConnectionType)
    | Unimplemented                             // vertex removal

  datatype Result<T> = Ok(value: T) | Err(error: Error)

  datatype Outcome = Pass | Fail(error: Error)

  /** The slot state an arc from `tail` to `head` is stored as: the direction
      is decided by comparing the external ids. */
  function ArcType(tail: int, head: int): (t: ConnectionType)
    ensures t == CtDirected || t == CtDirectedReversed
    ensures t == CtDirected <==> tail < head
  {
    if tail < head then CtDirected else CtDirectedReversed
  }
}
