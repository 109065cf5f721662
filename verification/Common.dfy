/** Types shared by the models. */
module Common {

  /** Bytes in a page and in a frame. */
  const PAGE: nat := 4096

  datatype Option<+T> = None | Some(value: T)

  function Min(a: nat, b: nat): (m: nat) {
    if a <= b then a else b
  }

  function Max(a: nat, b: nat): (m: nat) {
    if a <= b then b else a
  }
}
