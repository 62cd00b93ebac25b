/** The library primitives the envelope composes (AES-CBC with PKCS#7
    padding, AES-GCM, HMAC-SHA256, PBKDF2-SHA256 and UTF-8), supplied as
    total functions. Being Dafny functions they are deterministic; the laws
    the envelope relies on are stated by Lawful. */
module CryptoPrimitives {
  import opened Wrappers
  import opened Bytes

  datatype Primitives = Primitives(
    /** (key, iv, plaintext) -> ciphertext */
    aesCbcEncrypt: (seq<byte>, seq<byte>, seq<byte>) -> seq<byte>,
    /** (key, iv, ciphertext) -> plaintext, None when the padding is invalid */
    aesCbcDecrypt: (seq<byte>, seq<byte>, seq<byte>) -> Option<seq<byte>>,
    /** (key, nonce, ciphertext, tag, associated data) -> plaintext, None when the tag does not verify */
    aesGcmDecrypt: (seq<byte>, seq<byte>, seq<byte>, seq<byte>, seq<byte>) -> Option<seq<byte>>,
    /** (key, message) -> mac */
    hmacSha256: (seq<byte>, seq<byte>) -> seq<byte>,
    /** (password, salt, iterations, output length) -> key material */
    pbkdf2Sha256: (string, seq<byte>, nat, nat) -> seq<byte>,
    utf8Encode: string -> seq<byte>,
    utf8Decode: seq<byte> -> string)

  /** CBC decryption undoes CBC encryption under the same 256-bit key and 16-byte iv. */
  ghost predicate CbcInverts(p: Primitives) {
    forall key, iv, plain | |key| == 32 && |iv| == 16 ::
      p.aesCbcDecrypt(key, iv, p.aesCbcEncrypt(key, iv, plain)) == Some(plain)
  }

  /** HMAC-SHA256 yields 32 bytes. */
  ghost predicate HmacIs32Bytes(p: Primitives) {
    forall key, msg :: |p.hmacSha256(key, msg)| == 32
  }

  /** PBKDF2 yields exactly the number of bytes asked for. */
  ghost predicate KdfHasLength(p: Primitives) {
    forall password, salt, iterations, n :: |p.pbkdf2Sha256(password, salt, iterations, n)| == n
  }

  /** Decoding the UTF-8 bytes of a string gives the string back. */
  ghost predicate Utf8Inverts(p: Primitives) {
    forall s :: p.utf8Decode(p.utf8Encode(s)) == s
  }

  ghost predicate Lawful(p: Primitives) {
    CbcInverts(p) && HmacIs32Bytes(p) && KdfHasLength(p) && Utf8Inverts(p)
  }
}
