/** Failure-compatible wrappers used throughout the model.

- Option<T>: a value that may be absent (a missing header, cookie or scraped field).
- Result<T>: the outcome of a computation that either yields a value or raises.
  The program raises KeyError, AttributeError, IndexError and transport exceptions;
  all of them end the run the same way, so the model has one generic failure `Err`.
 */
module Wrappers {

  datatype Option<+T> = None | Some(value: T) {

    predicate IsFailure() {
      None?
    }

    function PropagateFailure<U>(): Option<U>
      requires None?
    {
      None
    }

    function Extract(): T
      requires Some?
    {
      value
    }

    /** A value that must be present: a missing one raises. */
    function ToResult(): (r: Result<T>)
      ensures r.Ok? <==> Some?
      ensures r.Ok? ==> r.value == value
    {
      match this
      case Some(v) => Ok(v)
      case None => Err
    }

    /** Python's `d.get(key, default)` once the lookup has been made. */
    function GetOr(default: T): T {
      match this
      case Some(v) => v
      case None => default
    }
  }

  datatype Result<+T> = Ok(value: T) | Err {

    predicate IsFailure() {
      Err?
    }

    function PropagateFailure<U>(): Result<U>
      requires Err?
    {
      Err
    }

    function Extract(): T
      requires Ok?
    {
      value
    }
  }

  /** A lookup that may miss: Python's `d[key]` with KeyError as None. */
  function Lookup<K, V>(m: map<K, V>, k: K): (r: Option<V>)
    ensures r.Some? <==> k in m
    ensures r.Some? ==> r.value == m[k]
  {
    if k in m then Some(m[k]) else None
  }
}
