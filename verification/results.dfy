/** The fatal errors of a run, and the small wrapper types the model threads
    them through. Every error in the tool ends the process through `logFatal`,
    so an error here is always terminal. */
module Results {

  datatype Error =
    | InvalidComponent(component: string)               // "unexpected component member"
    | InvalidKind(component: string, kind: string)      // "unexpected kind member"
    | MkdirFailed(path: string)                         // MkdirAll of the output or a component directory
    | WriteFailed(path: string)                         // writeYaml of one resource file
    | ReadFailed                                        // readRecord (evaluator or decoder)
  {
    /** Shape errors come from the document itself, not from the filesystem. */
    predicate IsShapeError() {
      InvalidComponent? || InvalidKind?
    }
  }

  datatype Option<+T> = None | Some(value: T)

  datatype Result<+T> = Ok(value: T) | Err(error: Error)
}
