/** The Java value types the product file is made of. */
module JavaTypes {

  /** One UTF-16 code unit: a Java `char`. */
  newtype Char16 = x: int | 0 <= x < 0x1_0000

  /** A Java `String`: a sequence of UTF-16 code units (unpaired surrogates included). */
  type JString = seq<Char16>

  /** One byte of a file. */
  newtype Byte = x: int | 0 <= x < 0x100

  /** The 64 bits of a Java `double` as `Double.doubleToLongBits` lays them out,
      read as an unsigned number. The model never interprets them as a float. */
  newtype Bits64 = x: int | 0 <= x < 0x1_0000_0000_0000_0000

  datatype Option<+T> = None | Some(value: T)
}
