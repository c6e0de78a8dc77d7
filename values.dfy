/** Values shared by every model: optional values, dynamically typed
    arguments and raised exceptions of the Python code being modelled. */
module Values {

  /** Python's `None` or a value. */
  datatype Option<+T> = None | Some(value: T)

  /** An argument the Python code type-checks at run time: `None`, a `str`,
      or a value of any other type. */
  datatype Arg = Null | Text(s: string) | Other

  /** The exceptions the modelled code raises. */
  datatype Exc =
    | ValueError
    | InvalidRequestError
    | NoResultFound
    | AttributeError
    | UnicodeDecodeError

  /** The outcome of a Python call: a returned value or a raised exception. */
  datatype Py<+T> = Ret(value: T) | Raise(exc: Exc)

  /** Python's `x is not None` seen through `Arg`. */
  function ArgOf(o: Option<string>): (a: Arg)
    ensures a.Null? <==> o.None?
    ensures o.Some? ==> a == Text(o.value)
  {
    match o
    case None => Null
    case Some(s) => Text(s)
  }
}
