/**
 What several of the modules use.
 */
module Common {
  datatype Option<T> = None | Some(value: T)

  const EIO: int := 5
  const ENOMEM: int := 12

  function Least(a: int, b: int): int {
    if a < b then a else b
  }
}
