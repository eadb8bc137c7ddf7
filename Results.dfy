/** Failure values shared by the modules of the Omega HTML model. */
module Results {

  datatype Option<T> = None | Some(value: T)

  /** The Python exceptions that the modelled code lets escape. */
  datatype PyError =
    | KeyError(key: string)          // unknown observatory code
    | ZeroDivisionError              // `12 // nperrow` with `nperrow == 0`
    | UnboundLocalError(name: string) // loop variable read after an empty loop

  datatype Result<T> = Ok(value: T) | Err(error: PyError)
}
