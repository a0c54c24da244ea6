/** The ways a computation can end: with a value, or with the abort or raised
    exception of the program; and what a solver returns. */
module Outcomes {
  import opened Extended

  datatype Option<T> = None | Some(value: T)

  datatype Error =
    | VertexOutOfRange  // an edge names a vertex above the declared count: the program stops
    | IndexError        // an edge names vertex 0 in a graph with no vertices
    | TypeError         // the comparator applies len() to False

  datatype Result<T> = Ok(value: T) | Err(error: Error)

  /** A solver's return value: the literal False for a negative cycle, or the rows of
      distances (an empty list when there are no vertices). */
  datatype Outcome = NegativeCycle | Distances(m: Matrix)
}
