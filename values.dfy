/** Small value types shared by the signing model. */
module Values {

  /** An octet of a file or of a decoded image. */
  newtype byte = x: int | 0 <= x < 256

  type Bytes = seq<byte>

  /** A lower-case hexadecimal SHA-256 digest, as `digest('hex')` returns it. */
  type Digest = string

  /** The outcome of a call that may throw: `None` stands for the exception. */
  datatype Option<+T> = None | Some(value: T)
}
