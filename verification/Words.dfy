/** The 64-bit machine word, and the option type. */
module Words {

  const WORD: int := 0x1_0000_0000_0000_0000
  const SIZE_MAX: int := WORD - 1

  datatype Option<T> = None | Some(value: T)
}
