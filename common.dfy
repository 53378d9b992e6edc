/** Definitions shared by the three models: an Option type for nullable
    results and the errno codes the C sources return negated. */
module Common {

  datatype Option<+T> = None | Some(value: T)

  // errno values, Linux numbering (the errno header is not part of this model).
  const ENODEV: int := 19
  const EINVAL: int := 22
  const ENOSYS: int := 38
  const EPROTO: int := 71
  const ETIMEDOUT: int := 110

  /** The low 8 bits of a character: what C keeps when a `char` is stored
      into a `uint8_t` or copied byte-wise with `memcpy`. */
  function Low8(c: char): bv8
  {
    ((c as int) % 256) as bv8
  }

  function Min(a: int, b: int): int
  {
    if a < b then a else b
  }
}
