/** What several models share: a value that may be missing, and 16-bit integers. */
module Wrappers {

  datatype Option<+T> = None | Some(value: T)

  const UINT16: nat := 65536

  type uint16 = n: int | 0 <= n < UINT16
}
