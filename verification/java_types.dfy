/** Java values the codec and the token engine exchange: signed bytes, nullable
    references and the exceptions that can escape their methods. */
module JavaTypes {

  /** A Java `byte`: signed two's complement, 8 bits. */
  type JByte = x: int | -128 <= x < 128

  /** The unsigned value of a byte, as `if (s < 0) s += 256` computes it. */
  function Unsigned(b: JByte): (u: int)
    ensures 0 <= u < 256
    ensures u % 256 == b % 256
  {
    if b < 0 then b + 256 else b
  }

  /** The `(byte)` cast of a value in 0..255. */
  function ToByte(u: int): (b: JByte)
    requires 0 <= u < 256
    ensures Unsigned(b) == u
  {
    if u < 128 then u else u - 256
  }

  /** `(byte)` undoes the unsigned reading of a byte. */
  lemma ToByteUnsigned(b: JByte)
    ensures ToByte(Unsigned(b)) == b
  {
  }

  /** A reference that may be null. */
  datatype Option<T> = None | Some(value: T)

  /** The exceptions the modelled code lets escape. */
  datatype Exception =
    | NullPointer
    | ArrayIndexOutOfBounds
    | StringIndexOutOfBounds
    | JsonParsing

  /** A method call either returns a value or throws. */
  datatype Result<T> = Success(value: T) | Failure(error: Exception)
}
