/** What several of the models say about sequences. */
module Sequences {

  function Min(a: int, b: int): int {
    if a < b then a else b
  }

  /** The parts one behind the other. */
  function Flatten<T>(parts: seq<seq<T>>): seq<T> {
    if parts == [] then [] else parts[0] + Flatten(parts[1..])
  }
}
