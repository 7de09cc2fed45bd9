/**
 * Values shared by every layer of the session-authentication model:
 * optional results (Python's `None`), the arguments the layers receive
 * from untyped Python callers, and the parts of an HTTP request they read.
 */
module Types {

  /** A value or Python's `None`. */
  datatype Option<T> = None | Some(value: T)

  /**
   * A Python argument as the layers see it before their `type(x) is str`
   * checks: `None`, a `str`, or an object of any other type.
   */
  datatype Arg = NoneArg | Str(s: string) | NonStr

  /** The argument a caller passes on when it forwards an optional string. */
  function ArgOf(o: Option<string>): (a: Arg)
    ensures o.None? <==> a == NoneArg
    ensures o.Some? ==> a == Str(o.value)
    ensures a != NonStr
  {
    match o
    case None => NoneArg
    case Some(s) => Str(s)
  }

  /**
   * The request descriptor: its header fields and its cookies, each a map
   * from name to value.
   */
  datatype Request = Request(headers: map<string, string>, cookies: map<string, string>)
}
