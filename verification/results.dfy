/** Failure-carrying results shared by the parser, the program store and the interpreter. */
module Results {

  /** The error messages the interpreter raises. Every parser failure is re-raised as
      "SYNTAX ERROR"; the program store raises "LINE NUMBER ERROR"; statement bodies may
      raise anything else. */
  datatype Error = SyntaxError | LineNumberError | Raised(message: string)

  /** An optional value, standing for a pointer that may be null. */
  datatype Option<+T> = None | Some(value: T)

  /** The value of an operation that may throw. */
  datatype Result<+T> = Ok(value: T) | Fail(error: Error)
}
