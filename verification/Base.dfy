/** Shared vocabulary: optional values, results with the service's error kinds, and bytes. */
module Base {
  datatype Option<+T> = None | Some(value: T)

  /** The error kinds the modelled operations can return. */
  datatype Error =
    | NotFound
    | InvalidBucket
    | Compression
    | Encryption
    | InvalidEncryptionAlgorithm
    | Validation
    | Database
    | Io

  datatype Result<+T> = Ok(value: T) | Err(error: Error)

  newtype byte = x: int | 0 <= x < 256

  type Bytes = seq<byte>

  function Min(a: int, b: int): int {
    if a < b then a else b
  }
}
