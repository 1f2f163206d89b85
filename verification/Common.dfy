/** Types and functions that several modules share. */
module Common {

  datatype Option<T> = None | Some(value: T)

  newtype byte = x: int | 0 <= x < 0x100

  function Max(m: nat, n: nat): nat {
    if m >= n then m else n
  }

  function Min(m: nat, n: nat): nat {
    if m <= n then m else n
  }
}
