/** The small part of Python's runtime behaviour the CSP code relies on:
    the exceptions it can raise, the way a raised exception leaves any
    mutation already done in place, and the structural equality of the
    tuples and lists stored in the flat constraint list. */
module PyValues {

  /** The built-in exceptions the modelled code can raise. */
  datatype PyError = KeyError | ValueError | IndexError

  /** The result of a mutating call: either it returns `value` leaving the
      object in `state`, or it raises `error`, and `state` is the object as
      it was at the moment of the raise (mutations made before the raise stay). */
  datatype Outcome<T, S> =
    | Returned(value: T, state: S)
    | Raised(error: PyError, state: S)

  /** A value or Python's `None`. */
  datatype Option<T> = None | Some(value: T)

  /** Python's truthiness of a value that is either `None` or a dict:
      `None` and the empty dict are false. */
  predicate Truthy<K, W>(r: Option<map<K, W>>) {
    r.Some? && |r.value| > 0
  }

  /** The Python values that end up in the flat constraint list: strings
      (variable names), callables (identified by a predicate handle), lists
      and tuples. Dafny's `==` on this type is Python's `==` on these values:
      a string never equals a callable, and a list never equals a tuple. */
  datatype PyValue<V, P> =
    | Str(text: V)
    | Callable(handle: P)
    | PyList(elems: seq<PyValue<V, P>>)
    | PyTuple(elems: seq<PyValue<V, P>>)

  /** The Python list of strings `[xs[0], xs[1], ...]`. */
  function StrList<V, P>(xs: seq<V>): (r: PyValue<V, P>)
    ensures r.PyList? && |r.elems| == |xs|
    ensures forall i | 0 <= i < |xs| :: r.elems[i] == Str(xs[i])
  {
    PyList(seq(|xs|, i requires 0 <= i < |xs| => Str(xs[i])))
  }
}
