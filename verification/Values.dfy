/** Types and runtime values of the language (value.h, value.c). */
module Values {

  const INT64_MAX: int := 0x7FFF_FFFF_FFFF_FFFF
  const INT64_MIN: int := -0x8000_0000_0000_0000

  type SkInt = n: int | INT64_MIN <= n <= INT64_MAX

  datatype TypeKind = Unknown | Invalid | Real | Int

  /** A tagged value. The payload of a Real is opaque: it is kept as the numeral that spells it. */
  datatype Value = RealValue(numeral: string) | IntValue(n: SkInt) {
    function Type(): TypeKind {
      if RealValue? then Real else Int
    }
  }
}
