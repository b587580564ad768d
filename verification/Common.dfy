/** Values that several parts share. */
module Common {

  /** The null pointer, where places are numbers. */
  const NULL: int := -1
  const NUL: char := '\0'

  function Min(a: int, b: int): int { if a <= b then a else b }
  function Max(a: int, b: int): int { if a >= b then a else b }
}
