/** The range of the C# `int` (System.Int32), which the readers and parsers of
    the modelled code produce. */
module Numbers {

  const Int32Min: int := -0x8000_0000
  const Int32Max: int := 0x7FFF_FFFF

  /** `n` is representable as a C# `int`. */
  predicate IsInt32(n: int)
  {
    Int32Min <= n <= Int32Max
  }
}
