/** What every model shares. */
module Wrappers {
  datatype Option<+T> = None | Some(value: T)

  datatype Result<+T, +E> = Ok(value: T) | Err(error: E)

  /** The empty string is stored as NULL. */
  function NullStr(s: string): Option<string> {
    if s == "" then None else Some(s)
  }

  /** All the parts put together. */
  function Concat<T>(parts: seq<seq<T>>): seq<T> {
    if parts == [] then [] else Concat(parts[..|parts| - 1]) + parts[|parts| - 1]
  }

  lemma ConcatMore<T>(parts: seq<seq<T>>, part: seq<T>)
    ensures Concat(parts + [part]) == Concat(parts) + part
  {
    assert (parts + [part])[..|parts|] == parts;
  }

  lemma Pick<T>(s: set<T>) returns (x: T)
    requires s != {}
    ensures x in s
  {
    x :| x in s;
  }
}
