/** The part of Python's value model that the schema engine and the
    configuration validator inspect: the type tests (`isinstance`),
    truthiness, `len` and indexing. */
module PyValues {
  import opened Wrappers

  datatype PyValue =
    | PyNone
    | PyInt(n: int)                 // `bool` is a subclass of `int`: False is PyInt(0)
    | PyStr(s: string)
    | PyTuple(items: seq<PyValue>)
    | PyList(items: seq<PyValue>)
      /** Any other object (a float, bytes, a dict, a set, a function, a
          module, ...): its `len` if it has one, and its truth value for
          when it has none. Its items are not modelled. */
    | PyObject(truthy: bool, size: Option<nat>)

  /** Python's truth value: None, zero and empty containers are false; an
      object with a `len` is true iff that is not zero. */
  predicate Truthy(v: PyValue) {
    match v
    case PyNone => false
    case PyInt(n) => n != 0
    case PyStr(s) => s != []
    case PyTuple(items) => items != []
    case PyList(items) => items != []
    case PyObject(t, size) => if size.Some? then size.value > 0 else t
  }

  /** `len(v)`, or None where `len` raises TypeError. */
  function Len(v: PyValue): (r: Option<nat>)
    ensures r.Some? <==> v.PyStr? || v.PyTuple? || v.PyList? || (v.PyObject? && v.size.Some?)
    ensures r.Some? ==> (Truthy(v) <==> r.value > 0)
  {
    match v
    case PyStr(s) => Some(|s|)
    case PyTuple(items) => Some(|items|)
    case PyList(items) => Some(|items|)
    case PyObject(_, size) => size
    case _ => None
  }

  /** The values whose items the model knows: strings, tuples and lists. */
  predicate Indexable(v: PyValue) {
    v.PyStr? || v.PyTuple? || v.PyList?
  }

  /** `v[k]` for a string, tuple or list and an index in range; indexing a
      string gives the one-character string. */
  function Item(v: PyValue, k: nat): (r: PyValue)
    requires Indexable(v) && k < Len(v).value
    ensures v.PyStr? ==> r == PyStr([v.s[k]]) && Truthy(r)
    ensures !v.PyStr? ==> r == v.items[k]
  {
    match v
    case PyStr(s) => PyStr([s[k]])
    case PyTuple(items) => items[k]
    case PyList(items) => items[k]
  }
}
