/** Value-level stand-ins shared by every module of the model.
    `Option` stands for a pointer that may be null; `Outcome` for a
    mutating member function that reports success with a `bool`. */
module Results {

  /** A possibly-null pointer or a possibly-absent value. */
  datatype Option<+T> = None | Some(value: T)

  /** The success flag of a mutating call together with the state it leaves
      behind. On failure the source leaves the state as it was, and the
      contracts of each operation say so. */
  datatype Outcome<+S> = Outcome(ok: bool, state: S)
}
