/** The Python values a log record carries, as far as the formatters look at them. */
module PyValues {

  /** A Python `dict` object: it lives on the heap, so two records (or a record
      and its shallow copy) can share it, and an update through one is seen
      through the other. Keys are modelled as strings. */
  class PyDict {
    var items: map<string, Value>

    constructor (items: map<string, Value>)
      ensures this.items == items
    {
      this.items := items;
    }
  }

  /** An attribute value of a log record. */
  datatype Value =
    | Str(s: string)          // a Python `str`
    | Int(i: int)             // a Python `int` (line numbers, process and thread ids)
    | Float(f: real)          // a Python `float` (the `created` timestamp, memory usage)
    | Dict(d: PyDict)         // a reference to a Python `dict`
    | Other(kind: string)     // any other object (None, lists, user objects), by its type name

  /** A log record's attribute dictionary (`record.__dict__`). A shallow copy
      of the record is the same map: the values (and so any dict they point to)
      are shared. */
  type Record = map<string, Value>

  /** The exceptions the formatters can raise. */
  datatype Exception = AttributeError(name: string)

  datatype Result<T> = Ok(value: T) | Err(error: Exception)

  datatype Option<T> = None | Some(value: T)

  /** `str(v)`: a `str` is returned as it is; any other object is rendered by
      its own `__str__`, which is not part of this model and comes in as `render`. */
  function TextOf(v: Value, render: Value -> string): (t: string)
    ensures v.Str? ==> t == v.s
    ensures !v.Str? ==> t == render(v)
  {
    if v.Str? then v.s else render(v)
  }
}
