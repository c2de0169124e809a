/**
 Failure-carrying return values for the hand model.

 The Python code signals failures by raising (an `assert` that fails, an
 `IndexError` from an out-of-range index, an `AttributeError` on a missing
 mesh). The model returns them as values instead.
 */
module Results {

  datatype Option<+T> = None | Some(value: T)

  /** The ways a call into the hand model can fail. */
  datatype Error =
    | ArgumentMismatch   // actuation length does not match the eigengrasp count
    | IndexOutOfRange    // a joint id reads past the end of the joint vector
    | MissingMesh        // a link whose mesh was cleared is asked for its mesh
    | EigenCountMismatch // an eigengrasp description without exactly two directions
    | MissingAttribute   // an eigengrasp origin element lacks one of the `d<k>` attributes
    | NoParent           // a root link with joints asks for its parent's frame

  datatype Result<+T> = Success(value: T) | Failure(error: Error) {
    predicate IsFailure() {
      Failure?
    }

    function PropagateFailure<U>(): Result<U>
      requires Failure?
    {
      Failure(error)
    }

    function Extract(): T
      requires Success?
    {
      value
    }
  }
}
