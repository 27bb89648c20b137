/** Small value types shared by every module of the model. */
module Basics {

  /** Python's `X | None`. */
  datatype Option<+T> = None | Some(value: T)

  /** An operation that either yields a value or raises. */
  datatype Result<+T, +E> = Ok(value: T) | Err(error: E)

  /** One octet of a blob or of a decoded metadata value. */
  type Byte = b: int | 0 <= b < 256

  type Bytes = seq<Byte>

  /** `d.get(k)` on a Python dict. */
  function Lookup<K, V>(m: map<K, V>, k: K): Option<V>
  {
    if k in m then Some(m[k]) else None
  }
}
