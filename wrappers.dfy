/** Failure-carrying result types shared by the whole model. */
module Wrappers {

  /** A value or its absence; stands for a Java reference that may be null. */
  datatype Option<T> = None | Some(value: T)

  /** The exceptions the graph engine can raise. */
  datatype Error =
    | NoSuchVertex                  // Exception("Vertex is not exist") thrown by addEdge
    | IndexOutOfBounds(index: int)  // IndexOutOfBoundsException thrown by getVertex(int)
    | IllegalArgument               // IllegalArgumentException of Random.nextInt(0)
    | FileNotFound(path: string)    // the IOException of opening a file that is not there

  /** A successful value or the exception the source would throw. */
  datatype Result<T> = Ok(value: T) | Err(error: Error)

  /** The outcome of a void method: it returns normally or throws. */
  datatype Outcome = Pass | Fail(error: Error)
}
