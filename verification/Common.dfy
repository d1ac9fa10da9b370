/** Small definitions the components share. */
module Common {

  type Byte = n: nat | n < 256

  datatype Option<T> = None | Some(value: T)

  function Min(a: nat, b: nat): nat {
    if a < b then a else b
  }
}
