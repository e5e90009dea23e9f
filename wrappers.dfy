/** A value that may be absent: `None` stands for the null reference that .NET
    helpers such as `Enumerable.LastOrDefault` return for reference types. */
module Wrappers {

  datatype Option<+T> = None | Some(value: T)

  /** `Enumerable.LastOrDefault` on a sequence of references: the last element,
      or null (`None`) when the sequence is empty. */
  function LastOrDefault<T>(xs: seq<T>): (r: Option<T>)
    ensures r.None? <==> xs == []
  {
    if xs == [] then None else Some(xs[|xs| - 1])
  }
}
