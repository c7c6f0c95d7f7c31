/** Option values used throughout the project. */
module Options {
  datatype Option<+T> = None | Some(value: T)
}

/** The 64-bit range of the source's integers. */
module Words {
  const U64_SIZE: nat := 0x1_0000_0000_0000_0000
  const U64_MAX: nat := U64_SIZE - 1
}
