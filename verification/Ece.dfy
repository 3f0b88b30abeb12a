/** Constants, error codes and the two content-encoding schemes of ece.h. */
module Ece {
  import opened Bytes

  const SALT_LENGTH := 16
  const TAG_LENGTH := 16
  const PUBLIC_KEY_LENGTH := 65
  const AUTH_SECRET_LENGTH := 16
  const AES_KEY_LENGTH := 16
  const NONCE_LENGTH := 12
  const IKM_LENGTH := 32
  const AES128GCM_MIN_RS := 18
  const AES128GCM_HEADER_LENGTH := 21
  const AESGCM_MIN_RS := 3
  const DEFAULT_RS := 4096

  datatype Error =
    | OutOfMemory
    | InvalidPrivateKey
    | InvalidPublicKey
    | ComputeSecret
    | Decrypt
    | DecryptPadding
    | ZeroPlaintext
    | ShortBlock
    | ShortHeader
    | ZeroCiphertext
    | Hkdf
    | InvalidEncryptionHeader
    | InvalidCryptoKeyHeader
    | InvalidRs
    | InvalidSalt
    | InvalidDh
    | Encrypt
    | EncryptPadding
    | InvalidAuthSecret
    | DecryptTruncated

  datatype Option<+T> = None | Some(value: T)

  datatype Result<+T> = Ok(value: T) | Err(error: Error) {
    predicate IsFailure() {
      Err?
    }

    function PropagateFailure<U>(): Result<U>
      requires Err?
    {
      Err(error)
    }

    function Extract(): T
      requires Ok?
    {
      value
    }
  }

  /** The older draft scheme "aesgcm" and "aes128gcm" of RFC 8188. */
  datatype Scheme = Aesgcm | Aes128gcm {
    /** Length of the padding delimiter of a record. */
    function PadSize(): nat {
      if Aesgcm? then 2 else 1
    }

    /** What every record adds to its plaintext and padding. */
    function Overhead(): nat {
      PadSize() + TAG_LENGTH
    }

    /** Whether a ciphertext of this length lacks an empty trailing record. */
    predicate NeedsTrailer(rs: nat, ciphertextLen: nat)
      requires rs > 0
    {
      Aesgcm? && ciphertextLen % rs == 0
    }
  }

  /** "aesgcm" record sizes do not count the authentication tag; 0 when the sum overflows. */
  function AesgcmRs(rs: uint32): uint32 {
    if rs > UINT32_MAX - TAG_LENGTH then 0 else rs + TAG_LENGTH
  }
}
