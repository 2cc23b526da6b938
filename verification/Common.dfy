/** What several parts of the model share. */
module Common {

  datatype Option<+T> = None | Some(value: T)

  /** One more than the largest 32-bit number. */
  const UINT32 := 0x1_0000_0000
}
