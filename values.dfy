/** Values shared by the model of the GEES eigenvalue-selection bridge. */
module Values {

  datatype Option<T> = None | Some(value: T)

  /** A COMPLEX eigenvalue candidate (fields r and i), with exact reals. */
  datatype Complex = Complex(re: real, im: real)

  /** An OCaml closure of type `Complex.t -> bool`, known only by identity. */
  datatype Closure = Closure(id: nat)

  /** An OCaml exception value, known only by identity. */
  datatype Exn = Exn(id: nat)

  /** What `caml_callback_exn` hands back: a boolean, or an exception result. */
  datatype CallbackResult = Answered(b: bool) | Raised(exn: Exn)

  /**
   * One call of SELECT by the native routine: the candidate it presents, and
   * what the OCaml closure returns (or raises) if it is the closure that is
   * evaluated at that point.  The closure may be impure, so the answer is
   * given per invocation rather than as a function of the candidate.
   */
  datatype Invocation = Invocation(z: Complex, answer: CallbackResult)
}
