/**
  Small definitions shared by the models.
 */
module Wrappers {

  datatype Option<T> = None | Some(value: T) {
    function Or(other: Option<T>): Option<T> {
      if Some? then this else other
    }
  }

  function Min(a: int, b: int): int {
    if a < b then a else b
  }

  function Max(a: int, b: int): int {
    if a < b then b else a
  }
}
