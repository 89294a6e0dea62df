/** What several components use. */
module Common {

  datatype Option<+T> = None | Some(value: T)

  /** All elements of a list of lists, in order. */
  function Concat<T>(parts: seq<seq<T>>): seq<T> {
    if parts == [] then [] else Concat(parts[..|parts| - 1]) + parts[|parts| - 1]
  }
}
