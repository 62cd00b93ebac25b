/** EncryptionTool: the versioned encryption envelope.

    v2 token: "enc:v2:" + base64url(version(1) | saltLen(4, big-endian) | salt | iv(16) | mac(32) | cipher)
    v1 token: "enc:v1:" + base64url(version(1) | saltLen(4, big-endian) | salt | nonce(12) | tag(16) | cipher)

    The pure functions below state what the envelope is; the methods at the
    end build and take apart the byte arrays in place, as EncryptionTool does,
    and are proved to compute those functions. */
module EncryptionTool {
  import opened Wrappers
  import opened Bytes
  import opened Text
  import opened Base64Url
  import opened CryptoPrimitives

  /** The pre-shared secret every key is derived from. */
  const Psk: string := "b0lngzGIGPC1gYmW3lDk1zsIIVbWuEee-3-cyCKh0cBVdEVrJZ7pS-vwQzMOww3c"

  const VersionV2: byte := 2
  const PrefixV2: string := "enc:v2:"
  const VersionV1: byte := 1
  const PrefixV1: string := "enc:v1:"

  const Iterations: nat := 100_000
  const MaxSaltLength: nat := 1024
  /** Length of the salt and of the iv that Encrypt draws at random. */
  const RandomLength: nat := 16
  const IvLength: nat := 16
  const MacLength: nat := 32
  const NonceLength: nat := 12
  const TagLength: nat := 16
  const KeyLength: nat := 32

  /** The FormatException messages. */
  datatype FormatReason = MissingPrefix | InvalidBase64 | PayloadTooShort | InvalidSaltLength

  /** The CryptographicException causes. */
  datatype CryptoReason = MacMismatch | PaddingInvalid | TagMismatch

  /** The exceptions the envelope code throws. */
  datatype Error =
    | ArgumentNull                    // ArgumentNullException
    | InvalidIv                       // ArgumentException: the iv is not 16 bytes
    | Format(reason: FormatReason)    // FormatException
    | NotSupported(version: byte)     // NotSupportedException
    | Cryptographic(cause: CryptoReason)
    | PlatformNotSupported            // PlatformNotSupportedException

  // =====================================================================
  // Layout
  // =====================================================================

  /** version | saltLen(4, big-endian) | salt | iv: the bytes the v2 mac covers ahead of the ciphertext. */
  function V2Header(version: byte, salt: seq<byte>, iv: seq<byte>): seq<byte>
    requires |salt| <= Int32Max
  {
    [version] + WriteInt32BigEndian(|salt|) + salt + iv
  }

  /** The associated data of the v1 cipher: version | salt. */
  function AadV1(version: byte, salt: seq<byte>): seq<byte> {
    [version] + salt
  }

  datatype V2Envelope = V2Envelope(version: byte, salt: seq<byte>, iv: seq<byte>, mac: seq<byte>, cipher: seq<byte>)

  predicate WellFormedV2(e: V2Envelope) {
    e.version == VersionV2 && |e.salt| <= MaxSaltLength && |e.iv| == IvLength && |e.mac| == MacLength
  }

  function SerializeV2(e: V2Envelope): seq<byte>
    requires |e.salt| <= Int32Max
  {
    V2Header(e.version, e.salt, e.iv) + e.mac + e.cipher
  }

  /** The checks of DecryptV2, in EncryptionTool's order, and the split of the payload. */
  function ParseV2(payload: seq<byte>): (r: Result<V2Envelope, Error>)
    ensures r.Success? ==> WellFormedV2(r.value)
  {
    if |payload| < 1 + 4 + IvLength + MacLength then Failure(Format(PayloadTooShort))
    else if payload[0] != VersionV2 then Failure(NotSupported(payload[0]))
    else
      var saltLen := ReadInt32BigEndian(payload[1..5]);
      if saltLen < 0 || saltLen > MaxSaltLength then Failure(Format(InvalidSaltLength))
      else if |payload| < 1 + 4 + saltLen + IvLength + MacLength then Failure(Format(PayloadTooShort))
      else
        var o := 5 + saltLen;
        Success(V2Envelope(payload[0], payload[5..o], payload[o..o + 16], payload[o + 16..o + 48], payload[o + 48..]))
  }

  datatype V1Envelope = V1Envelope(version: byte, salt: seq<byte>, nonce: seq<byte>, tag: seq<byte>, cipher: seq<byte>)

  predicate WellFormedV1(e: V1Envelope) {
    e.version == VersionV1 && |e.salt| <= MaxSaltLength && |e.nonce| == NonceLength && |e.tag| == TagLength
  }

  function SerializeV1(e: V1Envelope): seq<byte>
    requires |e.salt| <= Int32Max
  {
    [e.version] + WriteInt32BigEndian(|e.salt|) + e.salt + e.nonce + e.tag + e.cipher
  }

  /** The checks of DecryptV1, in EncryptionTool's order, and the split of the payload. */
  function ParseV1(payload: seq<byte>): (r: Result<V1Envelope, Error>)
    ensures r.Success? ==> WellFormedV1(r.value)
  {
    if |payload| < 1 + 4 then Failure(Format(PayloadTooShort))
    else if payload[0] != VersionV1 then Failure(NotSupported(payload[0]))
    else
      var saltLen := ReadInt32BigEndian(payload[1..5]);
      if saltLen < 0 || saltLen > MaxSaltLength then Failure(Format(InvalidSaltLength))
      else if |payload| < 1 + 4 + saltLen + NonceLength + TagLength then Failure(Format(PayloadTooShort))
      else
        var o := 5 + saltLen;
        Success(V1Envelope(payload[0], payload[5..o], payload[o..o + 12], payload[o + 12..o + 28], payload[o + 28..]))
  }

  // =====================================================================
  // Keys, sealing and opening
  // =====================================================================

  /** DeriveKeysV2: 64 bytes of PBKDF2 output, the first 32 the cipher key, the last 32 the mac key. */
  function DerivedKeysV2(p: Primitives, psk: string, salt: seq<byte>): (keys: (seq<byte>, seq<byte>))
    requires KdfHasLength(p)
    ensures |keys.0| == KeyLength && |keys.1| == KeyLength
    ensures keys.0 + keys.1 == p.pbkdf2Sha256(psk, salt, Iterations, 64)
  {
    var material := p.pbkdf2Sha256(psk, salt, Iterations, 64);
    (material[..32], material[32..64])
  }

  /** DeriveKeyV1: 32 bytes of PBKDF2 output. */
  function KeyV1(p: Primitives, salt: seq<byte>): seq<byte> {
    p.pbkdf2Sha256(Psk, salt, Iterations, 32)
  }

  /** The mac that DecryptV2 expects for an envelope: HMAC over header | cipher under the derived mac key. */
  function ExpectedMac(p: Primitives, e: V2Envelope): seq<byte>
    requires KdfHasLength(p) && |e.salt| <= Int32Max
  {
    p.hmacSha256(DerivedKeysV2(p, Psk, e.salt).1, V2Header(e.version, e.salt, e.iv) + e.cipher)
  }

  /** The envelope Encrypt writes for a plaintext, given its random salt and iv. */
  function SealEnvelope(p: Primitives, plaintext: string, salt: seq<byte>, iv: seq<byte>): (e: V2Envelope)
    requires KdfHasLength(p) && |salt| <= MaxSaltLength
    ensures e.version == VersionV2 && e.salt == salt && e.iv == iv && e.mac == ExpectedMac(p, e)
  {
    var (encKey, macKey) := DerivedKeysV2(p, Psk, salt);
    var cipher := p.aesCbcEncrypt(encKey, iv, p.utf8Encode(plaintext));
    var header := V2Header(VersionV2, salt, iv);
    V2Envelope(VersionV2, salt, iv, p.hmacSha256(macKey, header + cipher), cipher)
  }

  /** The token Encrypt returns. */
  function Seal(p: Primitives, plaintext: string, salt: seq<byte>, iv: seq<byte>): string
    requires KdfHasLength(p) && |salt| <= MaxSaltLength
  {
    PrefixV2 + Base64UrlEncode(SerializeV2(SealEnvelope(p, plaintext, salt, iv)))
  }

  /** DecryptV2 after parsing: the mac is verified first, and only a verified
      ciphertext reaches the cipher. */
  function OpenV2(p: Primitives, e: V2Envelope): Result<string, Error>
    requires KdfHasLength(p) && |e.salt| <= Int32Max
  {
    if e.mac != ExpectedMac(p, e) then Failure(Cryptographic(MacMismatch))
    else
      match p.aesCbcDecrypt(DerivedKeysV2(p, Psk, e.salt).0, e.iv, e.cipher)
      case None => Failure(Cryptographic(PaddingInvalid))
      case Some(plain) => Success(p.utf8Decode(plain))
  }

  /** The payload of a token, decoded and parsed. */
  function ParsedV2(token: string): Result<V2Envelope, Error>
    requires StartsWith(token, PrefixV2)
  {
    match Base64UrlDecode(token[|PrefixV2|..])
    case None => Failure(Format(InvalidBase64))
    case Some(payload) => ParseV2(payload)
  }

  function OpenV2Token(p: Primitives, token: string): Result<string, Error>
    requires KdfHasLength(p) && StartsWith(token, PrefixV2)
  {
    var e :- ParsedV2(token);
    OpenV2(p, e)
  }

  /** DecryptV1 after parsing: one call of the authenticated cipher with associated data version | salt. */
  function OpenV1(p: Primitives, e: V1Envelope): Result<string, Error> {
    match p.aesGcmDecrypt(KeyV1(p, e.salt), e.nonce, e.cipher, e.tag, AadV1(e.version, e.salt))
    case None => Failure(Cryptographic(TagMismatch))
    case Some(plain) => Success(p.utf8Decode(plain))
  }

  function ParsedV1(token: string): Result<V1Envelope, Error>
    requires StartsWith(token, PrefixV1)
  {
    match Base64UrlDecode(token[|PrefixV1|..])
    case None => Failure(Format(InvalidBase64))
    case Some(payload) => ParseV1(payload)
  }

  /** On MacCatalyst the whole v1 path is compiled out and always throws. */
  function OpenV1Token(p: Primitives, macCatalyst: bool, token: string): Result<string, Error>
    requires StartsWith(token, PrefixV1)
  {
    if macCatalyst then Failure(PlatformNotSupported)
    else
      var e :- ParsedV1(token);
      OpenV1(p, e)
  }

  /** Decrypt on a non-null token: dispatch on the literal prefix. */
  function Open(p: Primitives, macCatalyst: bool, token: string): Result<string, Error>
    requires KdfHasLength(p)
  {
    if StartsWith(token, PrefixV2) then OpenV2Token(p, token)
    else if StartsWith(token, PrefixV1) then OpenV1Token(p, macCatalyst, token)
    else Failure(Format(MissingPrefix))
  }

  // =====================================================================
  // Properties of the layout
  // =====================================================================

  /** The parser recovers exactly the fields the serializer wrote. */
  lemma ParseSerializeV2(e: V2Envelope)
    requires WellFormedV2(e)
    ensures ParseV2(SerializeV2(e)) == Success(e)
  {
    var payload := SerializeV2(e);
    ReadWriteInt32(|e.salt|);
    assert payload[1..5] == WriteInt32BigEndian(|e.salt|);
    var o := 5 + |e.salt|;
    assert payload[5..o] == e.salt;
    assert payload[o..o + 16] == e.iv;
    assert payload[o + 16..o + 48] == e.mac;
    assert payload[o + 48..] == e.cipher;
  }

  /** Whatever the parser accepts is the serialization of what it returns. */
  lemma SerializeParseV2(payload: seq<byte>)
    requires ParseV2(payload).Success?
    ensures SerializeV2(ParseV2(payload).value) == payload
  {
    var e := ParseV2(payload).value;
    var saltLen := ReadInt32BigEndian(payload[1..5]);
    ReadWriteInt32(saltLen);
    assert WriteInt32BigEndian(saltLen) == payload[1..5] by {
      WriteReadInt32(payload[1..5]);
    }
    assert payload == [payload[0]] + payload[1..5] + e.salt + e.iv + e.mac + e.cipher;
  }

  lemma WriteReadInt32(b: seq<byte>)
    requires |b| == 4
    ensures WriteInt32BigEndian(ReadInt32BigEndian(b)) == b
  {
    var x := ReadInt32BigEndian(b);
    var u: int := if x < 0 then x + 0x1_0000_0000 else x;
    assert u == b[0] as int * 0x100_0000 + b[1] as int * 0x1_0000 + b[2] as int * 0x100 + b[3] as int;
    var t1 := u / 0x100;
    var t2 := t1 / 0x100;
    assert t1 == b[0] as int * 0x1_0000 + b[1] as int * 0x100 + b[2] as int;
    assert t2 == b[0] as int * 0x100 + b[1] as int;
  }

  lemma ParseSerializeV1(e: V1Envelope)
    requires WellFormedV1(e)
    ensures ParseV1(SerializeV1(e)) == Success(e)
  {
    var payload := SerializeV1(e);
    ReadWriteInt32(|e.salt|);
    assert payload[1..5] == WriteInt32BigEndian(|e.salt|);
    var o := 5 + |e.salt|;
    assert payload[5..o] == e.salt;
    assert payload[o..o + 12] == e.nonce;
    assert payload[o + 12..o + 28] == e.tag;
    assert payload[o + 28..] == e.cipher;
  }

  lemma SerializeParseV1(payload: seq<byte>)
    requires ParseV1(payload).Success?
    ensures SerializeV1(ParseV1(payload).value) == payload
  {
    var e := ParseV1(payload).value;
    WriteReadInt32(payload[1..5]);
    assert payload == [payload[0]] + payload[1..5] + e.salt + e.nonce + e.tag + e.cipher;
  }

  /** The rejection rules of DecryptV2, each with its own exception. */
  lemma ParseV2Rejections(payload: seq<byte>)
    ensures |payload| < 53 ==> ParseV2(payload) == Failure(Format(PayloadTooShort))
    ensures |payload| >= 53 && payload[0] != VersionV2 ==> ParseV2(payload) == Failure(NotSupported(payload[0]))
    ensures |payload| >= 53 && payload[0] == VersionV2 ==>
      var saltLen := ReadInt32BigEndian(payload[1..5]);
      && ((saltLen < 0 || saltLen > 1024) ==> ParseV2(payload) == Failure(Format(InvalidSaltLength)))
      && (0 <= saltLen <= 1024 && |payload| < 53 + saltLen ==> ParseV2(payload) == Failure(Format(PayloadTooShort)))
      && (0 <= saltLen <= 1024 && |payload| >= 53 + saltLen ==> ParseV2(payload).Success?)
  {
  }

  /** The rejection rules of DecryptV1. */
  lemma ParseV1Rejections(payload: seq<byte>)
    ensures |payload| < 5 ==> ParseV1(payload) == Failure(Format(PayloadTooShort))
    ensures |payload| >= 5 && payload[0] != VersionV1 ==> ParseV1(payload) == Failure(NotSupported(payload[0]))
    ensures |payload| >= 5 && payload[0] == VersionV1 ==>
      var saltLen := ReadInt32BigEndian(payload[1..5]);
      && ((saltLen < 0 || saltLen > 1024) ==> ParseV1(payload) == Failure(Format(InvalidSaltLength)))
      && (0 <= saltLen <= 1024 && |payload| < 33 + saltLen ==> ParseV1(payload) == Failure(Format(PayloadTooShort)))
      && (0 <= saltLen <= 1024 && |payload| >= 33 + saltLen ==> ParseV1(payload).Success?)
  {
  }

  // =====================================================================
  // Properties of Encrypt and Decrypt
  // =====================================================================

  /** The token Encrypt returns: the v2 prefix, then a payload of
      1 + 4 + 16 + 16 + 32 + |cipher| bytes laid out as version 2, the salt
      length 16, the salt, the iv, the mac over header | cipher, the cipher. */
  lemma SealLayout(p: Primitives, plaintext: string, salt: seq<byte>, iv: seq<byte>)
    requires KdfHasLength(p) && HmacIs32Bytes(p)
    requires |salt| == RandomLength && |iv| == IvLength
    ensures var token := Seal(p, plaintext, salt, iv);
      var e := SealEnvelope(p, plaintext, salt, iv);
      && StartsWith(token, PrefixV2)
      && Base64UrlDecode(token[|PrefixV2|..]) == Some(SerializeV2(e))
      && var payload := SerializeV2(e);
      && |payload| == 1 + 4 + 16 + 16 + 32 + |e.cipher|
      && payload[0] == VersionV2
      && ReadInt32BigEndian(payload[1..5]) == 16
      && payload[5..21] == salt
      && payload[21..37] == iv
      && payload[37..69] == e.mac
      && payload[69..] == e.cipher
      && e.mac == p.hmacSha256(DerivedKeysV2(p, Psk, salt).1, payload[..37] + payload[69..])
  {
    var e := SealEnvelope(p, plaintext, salt, iv);
    var token := Seal(p, plaintext, salt, iv);
    assert token[|PrefixV2|..] == Base64UrlEncode(SerializeV2(e));
    EncodeDecodeRoundTrip(SerializeV2(e));
    ParseSerializeV2(e);
    ReadWriteInt32(16);
    var payload := SerializeV2(e);
    assert payload[1..5] == WriteInt32BigEndian(16);
    assert payload[..37] == V2Header(VersionV2, salt, iv);
  }

  /** Decrypt inverts Encrypt for every plaintext and every random salt and iv. */
  lemma RoundTrip(p: Primitives, macCatalyst: bool, plaintext: string, salt: seq<byte>, iv: seq<byte>)
    requires Lawful(p)
    requires |salt| <= MaxSaltLength && |iv| == IvLength
    ensures Open(p, macCatalyst, Seal(p, plaintext, salt, iv)) == Success(plaintext)
  {
    var e := SealEnvelope(p, plaintext, salt, iv);
    var token := Seal(p, plaintext, salt, iv);
    assert StartsWith(token, PrefixV2);
    assert token[|PrefixV2|..] == Base64UrlEncode(SerializeV2(e));
    EncodeDecodeRoundTrip(SerializeV2(e));
    ParseSerializeV2(e);
    assert ParsedV2(token) == Success(e);
  }

  /** Seal is injective in the random salt and iv: two encryptions that draw
      different salts or ivs never yield the same token. */
  lemma DistinctRandomnessDistinctTokens(p: Primitives, plaintext: string, salt1: seq<byte>, iv1: seq<byte>, salt2: seq<byte>, iv2: seq<byte>)
    requires KdfHasLength(p) && HmacIs32Bytes(p)
    requires |salt1| <= MaxSaltLength && |iv1| == IvLength && |salt2| <= MaxSaltLength && |iv2| == IvLength
    requires salt1 != salt2 || iv1 != iv2
    ensures Seal(p, plaintext, salt1, iv1) != Seal(p, plaintext, salt2, iv2)
  {
    var e1 := SealEnvelope(p, plaintext, salt1, iv1);
    var e2 := SealEnvelope(p, plaintext, salt2, iv2);
    ParseSerializeV2(e1);
    ParseSerializeV2(e2);
    assert SerializeV2(e1) != SerializeV2(e2);
    EncodeDecodeRoundTrip(SerializeV2(e1));
    EncodeDecodeRoundTrip(SerializeV2(e2));
    assert Base64UrlEncode(SerializeV2(e1)) != Base64UrlEncode(SerializeV2(e2));
    assert Seal(p, plaintext, salt1, iv1)[|PrefixV2|..] == Base64UrlEncode(SerializeV2(e1));
    assert Seal(p, plaintext, salt2, iv2)[|PrefixV2|..] == Base64UrlEncode(SerializeV2(e2));
  }

  /** Encrypt-then-MAC: when the mac does not verify, Decrypt fails with a
      CryptographicException whatever the cipher would have done, so the
      cipher is never given an unauthenticated ciphertext. */
  lemma MacVerifiedBeforeDecrypt(p: Primitives, e: V2Envelope,
                                 anyDecrypt: (seq<byte>, seq<byte>, seq<byte>) -> Option<seq<byte>>)
    requires KdfHasLength(p) && |e.salt| <= Int32Max
    requires e.mac != ExpectedMac(p, e)
    ensures OpenV2(p.(aesCbcDecrypt := anyDecrypt), e) == Failure(Cryptographic(MacMismatch))
  {
    var q := p.(aesCbcDecrypt := anyDecrypt);
    assert ExpectedMac(q, e) == ExpectedMac(p, e);
  }

  /** Tamper detection on the mac field: a token Encrypt produced, with its
      mac replaced by any other bytes, is rejected as a CryptographicException. */
  lemma TamperedMacRejected(p: Primitives, macCatalyst: bool, plaintext: string, salt: seq<byte>, iv: seq<byte>, forged: seq<byte>)
    requires KdfHasLength(p)
    requires |salt| <= MaxSaltLength && |iv| == IvLength
    requires |forged| == MacLength && forged != SealEnvelope(p, plaintext, salt, iv).mac
    ensures var e := SealEnvelope(p, plaintext, salt, iv).(mac := forged);
      Open(p, macCatalyst, PrefixV2 + Base64UrlEncode(SerializeV2(e))) == Failure(Cryptographic(MacMismatch))
  {
    var sealed := SealEnvelope(p, plaintext, salt, iv);
    var e := sealed.(mac := forged);
    var token := PrefixV2 + Base64UrlEncode(SerializeV2(e));
    assert token[|PrefixV2|..] == Base64UrlEncode(SerializeV2(e));
    EncodeDecodeRoundTrip(SerializeV2(e));
    ParseSerializeV2(e);
    assert ExpectedMac(p, e) == ExpectedMac(p, sealed);
  }

  /** A v2 token whose payload is shorter than 53 bytes is a FormatException. */
  lemma TruncatedTokenRejected(p: Primitives, macCatalyst: bool, payload: seq<byte>)
    requires KdfHasLength(p)
    requires |payload| < 1 + 4 + IvLength + MacLength
    ensures Open(p, macCatalyst, PrefixV2 + Base64UrlEncode(payload)) == Failure(Format(PayloadTooShort))
  {
    var token := PrefixV2 + Base64UrlEncode(payload);
    assert token[|PrefixV2|..] == Base64UrlEncode(payload);
    EncodeDecodeRoundTrip(payload);
  }

  /** A v2 token whose version byte is not 2 is a NotSupportedException. */
  lemma WrongVersionRejected(p: Primitives, macCatalyst: bool, payload: seq<byte>)
    requires KdfHasLength(p)
    requires |payload| >= 1 + 4 + IvLength + MacLength && payload[0] != VersionV2
    ensures Open(p, macCatalyst, PrefixV2 + Base64UrlEncode(payload)) == Failure(NotSupported(payload[0]))
  {
    var token := PrefixV2 + Base64UrlEncode(payload);
    assert token[|PrefixV2|..] == Base64UrlEncode(payload);
    EncodeDecodeRoundTrip(payload);
  }

  /** Prefix dispatch: only the two literal prefixes are accepted, and a v1
      token on MacCatalyst is refused before its payload is looked at. */
  lemma Dispatch(p: Primitives, macCatalyst: bool, token: string)
    requires KdfHasLength(p)
    ensures StartsWith(token, PrefixV2) ==> !StartsWith(token, PrefixV1) && Open(p, macCatalyst, token) == OpenV2Token(p, token)
    ensures StartsWith(token, PrefixV1) ==> Open(p, macCatalyst, token) == OpenV1Token(p, macCatalyst, token)
    ensures StartsWith(token, PrefixV1) && macCatalyst ==> Open(p, macCatalyst, token) == Failure(PlatformNotSupported)
    ensures !StartsWith(token, PrefixV2) && !StartsWith(token, PrefixV1) ==>
      Open(p, macCatalyst, token) == Failure(Format(MissingPrefix))
  {
  }

  // =====================================================================
  // The methods, working on byte arrays in place
  // =====================================================================

  /** BuildV2Header: fills version | saltLen | salt | iv into a fresh array. */
  method BuildV2Header(version: byte, salt: array<byte>, iv: array<byte>) returns (r: Result<array<byte>, Error>)
    requires salt.Length <= Int32Max
    ensures iv.Length != IvLength ==> r == Failure(InvalidIv)
    ensures iv.Length == IvLength ==> r.Success? && fresh(r.value) && r.value[..] == V2Header(version, salt[..], iv[..])
  {
    if iv.Length != IvLength {
      return Failure(InvalidIv);
    }
    var header := new byte[1 + 4 + salt.Length + 16];
    var o := 0;
    header[o] := version;
    o := o + 1;
    var be := WriteInt32BigEndian(salt.Length);
    header[o], header[o + 1], header[o + 2], header[o + 3] := be[0], be[1], be[2], be[3];
    o := o + 4;
    assert header[..5] == [version] + be;
    if salt.Length > 0 {
      BlockCopy(salt, 0, header, o, salt.Length);
      o := o + salt.Length;
    }
    assert header[..o] == [version] + be + salt[..];
    BlockCopy(iv, 0, header, o, 16);
    assert header[..] == header[..o] + header[o..o + 16];
    return Success(header);
  }

  /** BuildAadV1: version | salt in a fresh array. */
  method BuildAadV1(version: byte, salt: array<byte>) returns (aad: array<byte>)
    ensures fresh(aad) && aad[..] == AadV1(version, salt[..])
  {
    aad := new byte[1 + salt.Length];
    aad[0] := version;
    if salt.Length > 0 {
      BlockCopy(salt, 0, aad, 1, salt.Length);
    }
    assert aad[..] == aad[..1] + aad[1..];
  }

  /** DeriveKeysV2: splits 64 bytes of key material into two fresh 32-byte
      keys and wipes the material. */
  method DeriveKeysV2(p: Primitives, psk: string, salt: array<byte>)
    returns (encKey: array<byte>, macKey: array<byte>, ghost material: array<byte>)
    requires KdfHasLength(p)
    ensures fresh(encKey) && fresh(macKey) && encKey != macKey
    ensures encKey[..] == DerivedKeysV2(p, psk, salt[..]).0
    ensures macKey[..] == DerivedKeysV2(p, psk, salt[..]).1
    ensures fresh(material) && material != encKey && material != macKey
    ensures material.Length == 64 && AllZero(material[..])
  {
    var m := FromSeq(p.pbkdf2Sha256(psk, salt[..], Iterations, 64));
    encKey := new byte[32];
    macKey := new byte[32];
    BlockCopy(m, 0, encKey, 0, 32);
    BlockCopy(m, 32, macKey, 0, 32);
    ZeroMemory(m);
    material := m;
  }

  /** The three BlockCopy calls that assemble header | mac | cipher. */
  method Concat3(a: array<byte>, b: array<byte>, c: array<byte>) returns (r: array<byte>)
    ensures fresh(r) && r[..] == a[..] + b[..] + c[..]
  {
    var i, j := a.Length, a.Length + b.Length;
    r := new byte[j + c.Length];
    BlockCopy(a, 0, r, 0, i);
    ghost var r1 := r[..];
    assert r1[..i] == a[..];
    BlockCopy(b, 0, r, i, b.Length);
    ghost var r2 := r[..];
    assert r2[..i] == r1[..i];
    assert r2[i..j] == b[..];
    BlockCopy(c, 0, r, j, c.Length);
    assert r[..j] == r2[..j];
    assert r[j..] == r[j..j + c.Length] == c[..];
    ThreeParts(r[..], i, j, a[..], b[..]);
  }

  /** A sequence is the concatenation of its pieces before i, between i and j, and after j. */
  lemma ThreeParts(x: seq<byte>, i: nat, j: nat, a: seq<byte>, b: seq<byte>)
    requires i <= j <= |x| && x[..j][..i] == a && x[..j][i..] == b
    ensures x == a + b + x[j..]
  {
    assert x[..j] == a + b;
    assert x == x[..j] + x[j..];
  }

  /** A new array holding count bytes of src from offset, as EncryptionTool's
      `new byte[count]` followed by Buffer.BlockCopy. */
  method CopyOut(src: array<byte>, offset: nat, count: nat) returns (dst: array<byte>)
    requires offset + count <= src.Length
    ensures fresh(dst) && dst[..] == src[offset..offset + count]
  {
    dst := new byte[count];
    BlockCopy(src, offset, dst, 0, count);
    assert dst[..] == dst[0..count];
  }

  /** Encrypt: a fresh v2 token. The salt and the iv are the 16 random bytes
      each that RandomNumberGenerator supplies; both derived keys are wiped
      before the token is returned. */
  method Encrypt(p: Primitives, plaintext: Option<string>, randomSalt: seq<byte>, randomIv: seq<byte>)
    returns (r: Result<string, Error>, ghost encKey: array?<byte>, ghost macKey: array?<byte>)
    requires KdfHasLength(p)
    requires |randomSalt| == RandomLength && |randomIv| == IvLength
    ensures plaintext.None? ==> r == Failure(ArgumentNull) && encKey == null && macKey == null
    ensures plaintext.Some? ==> r == Success(Seal(p, plaintext.value, randomSalt, randomIv))
    ensures plaintext.Some? ==>
      encKey != null && macKey != null && fresh(encKey) && fresh(macKey) && encKey.Length == KeyLength &&
      macKey.Length == KeyLength && AllZero(encKey[..]) && AllZero(macKey[..])
  {
    if plaintext.None? {
      return Failure(ArgumentNull), null, null;
    }
    var salt := FromSeq(randomSalt);
    var ek, mk;
    ghost var material;
    ek, mk, material := DeriveKeysV2(p, Psk, salt);
    var iv := FromSeq(randomIv);
    var plainBytes := p.utf8Encode(plaintext.value);
    var cipherBytes := FromSeq(p.aesCbcEncrypt(ek[..], iv[..], plainBytes));

    var h := BuildV2Header(VersionV2, salt, iv);
    assert h.Success?;
    var header := h.value;
    var mac := FromSeq(p.hmacSha256(mk[..], header[..] + cipherBytes[..]));
    ghost var e := V2Envelope(VersionV2, salt[..], iv[..], mac[..], cipherBytes[..]);
    assert e == SealEnvelope(p, plaintext.value, randomSalt, randomIv);

    var payload := Concat3(header, mac, cipherBytes);
    assert payload[..] == SerializeV2(e);

    ZeroMemory(ek);
    ZeroMemory(mk);
    r := Success(PrefixV2 + Base64UrlEncode(payload[..]));
    encKey, macKey := ek, mk;
  }

  /** CryptographicOperations.FixedTimeEquals: false on different lengths,
      otherwise every byte pair is compared, with no early exit. */
  method FixedTimeEquals(a: array<byte>, b: array<byte>) returns (same: bool)
    ensures same <==> a[..] == b[..]
  {
    if a.Length != b.Length {
      return false;
    }
    same := true;
    var i := 0;
    while i < a.Length
      invariant 0 <= i <= a.Length
      invariant same <==> a[..i] == b[..i]
    {
      assert a[..i + 1] == a[..i] + [a[i]] && b[..i + 1] == b[..i] + [b[i]];
      same := same && a[i] == b[i];
      i := i + 1;
    }
    assert a[..] == a[..i] && b[..] == b[..i];
  }

  /** The fields of a payload, copied out into arrays of their own. */
  datatype V2Arrays = V2Arrays(version: byte, salt: array<byte>, iv: array<byte>, mac: array<byte>, cipher: array<byte>)

  ghost function V2Contents(v: V2Arrays): V2Envelope
    reads v.salt, v.iv, v.mac, v.cipher
  {
    V2Envelope(v.version, v.salt[..], v.iv[..], v.mac[..], v.cipher[..])
  }

  /** The checks and copies at the start of DecryptV2, on the decoded payload. */
  method ReadV2Payload(payload: array<byte>) returns (r: Result<V2Arrays, Error>)
    ensures r.Failure? <==> ParseV2(payload[..]).Failure?
    ensures r.Failure? ==> r.error == ParseV2(payload[..]).error
    ensures r.Success? ==> fresh(r.value.salt) && fresh(r.value.iv) && fresh(r.value.mac) && fresh(r.value.cipher)
    ensures r.Success? ==> V2Contents(r.value) == ParseV2(payload[..]).value
  {
    if payload.Length < 1 + 4 + 16 + 32 {
      return Failure(Format(PayloadTooShort));
    }
    var o := 0;
    var ver := payload[o];
    o := o + 1;
    if ver != VersionV2 {
      return Failure(NotSupported(ver));
    }
    var saltLen := ReadInt32BigEndian(payload[o..o + 4]);
    o := o + 4;
    if saltLen < 0 || saltLen > 1024 {
      return Failure(Format(InvalidSaltLength));
    }
    var minLen := 1 + 4 + saltLen + 16 + 32;
    if payload.Length < minLen {
      return Failure(Format(PayloadTooShort));
    }
    // a zero-length salt is allocated and not copied, which CopyOut also covers
    var salt := CopyOut(payload, o, saltLen);
    o := o + saltLen;
    var iv := CopyOut(payload, o, 16);
    o := o + 16;
    var mac := CopyOut(payload, o, 32);
    o := o + 32;
    var cipherLen := payload.Length - o;
    // EncryptionTool's "Invalid cipher length" check can never fire
    assert cipherLen >= 0;
    var cipherBytes := CopyOut(payload, o, cipherLen);
    return Success(V2Arrays(ver, salt, iv, mac, cipherBytes));
  }

  /** DecryptV2: the mac is compared in fixed time before the cipher is
      invoked, and on every path past the key derivation both keys are
      wiped before the method returns. */
  method DecryptV2(p: Primitives, token: string)
    returns (r: Result<string, Error>, ghost encKey: array?<byte>, ghost macKey: array?<byte>, ghost cipherInvoked: bool)
    requires KdfHasLength(p) && StartsWith(token, PrefixV2)
    ensures r == OpenV2Token(p, token)
    ensures (encKey != null) <==> ParsedV2(token).Success?
    ensures encKey != null ==>
      macKey != null && fresh(encKey) && fresh(macKey) && encKey.Length == KeyLength && macKey.Length == KeyLength &&
      AllZero(encKey[..]) && AllZero(macKey[..])
    ensures cipherInvoked <==>
      ParsedV2(token).Success? && ParsedV2(token).value.mac == ExpectedMac(p, ParsedV2(token).value)
  {
    var decoded := Base64UrlDecode(token[|PrefixV2|..]);
    if decoded.None? {
      return Failure(Format(InvalidBase64)), null, null, false;
    }
    var payload := FromSeq(decoded.value);
    var fields := ReadV2Payload(payload);
    if fields.Failure? {
      return Failure(fields.error), null, null, false;
    }
    var V2Arrays(ver, salt, iv, mac, cipherBytes) := fields.value;
    ghost var e := V2Contents(fields.value);

    var ek, mk;
    ghost var material;
    ek, mk, material := DeriveKeysV2(p, Psk, salt);

    var h := BuildV2Header(ver, salt, iv);
    var header := h.value;
    var expectedMac := FromSeq(p.hmacSha256(mk[..], header[..] + cipherBytes[..]));
    assert expectedMac[..] == ExpectedMac(p, e);

    var ok := FixedTimeEquals(mac, expectedMac);
    ZeroMemory(expectedMac);
    if !ok {
      ZeroMemory(ek);
      ZeroMemory(mk);
      return Failure(Cryptographic(MacMismatch)), ek, mk, false;
    }

    var plainBytes := p.aesCbcDecrypt(ek[..], iv[..], cipherBytes[..]);
    ZeroMemory(ek);
    ZeroMemory(mk);
    if plainBytes.None? {
      return Failure(Cryptographic(PaddingInvalid)), ek, mk, true;
    }
    return Success(p.utf8Decode(plainBytes.value)), ek, mk, true;
  }

  datatype V1Arrays = V1Arrays(version: byte, salt: array<byte>, nonce: array<byte>, tag: array<byte>, cipher: array<byte>)

  ghost function V1Contents(v: V1Arrays): V1Envelope
    reads v.salt, v.nonce, v.tag, v.cipher
  {
    V1Envelope(v.version, v.salt[..], v.nonce[..], v.tag[..], v.cipher[..])
  }

  /** The checks and copies at the start of DecryptV1, on the decoded payload. */
  method ReadV1Payload(payload: array<byte>) returns (r: Result<V1Arrays, Error>)
    ensures r.Failure? <==> ParseV1(payload[..]).Failure?
    ensures r.Failure? ==> r.error == ParseV1(payload[..]).error
    ensures r.Success? ==> fresh(r.value.salt) && fresh(r.value.nonce) && fresh(r.value.tag) && fresh(r.value.cipher)
    ensures r.Success? ==> V1Contents(r.value) == ParseV1(payload[..]).value
  {
    if payload.Length < 1 + 4 {
      return Failure(Format(PayloadTooShort));
    }
    var o := 0;
    var ver := payload[o];
    o := o + 1;
    if ver != VersionV1 {
      return Failure(NotSupported(ver));
    }
    var saltLen := ReadInt32BigEndian(payload[o..o + 4]);
    o := o + 4;
    if saltLen < 0 || saltLen > 1024 {
      return Failure(Format(InvalidSaltLength));
    }
    if payload.Length < 1 + 4 + saltLen + 12 + 16 {
      return Failure(Format(PayloadTooShort));
    }
    // a zero-length salt is allocated and not copied, which CopyOut also covers
    var salt := CopyOut(payload, o, saltLen);
    o := o + saltLen;
    var nonce := CopyOut(payload, o, 12);
    o := o + 12;
    var tag := CopyOut(payload, o, 16);
    o := o + 16;
    var cipherLen := payload.Length - o;
    // EncryptionTool's "Invalid cipher length" check can never fire
    assert cipherLen >= 0;
    var cipherBytes := CopyOut(payload, o, cipherLen);
    return Success(V1Arrays(ver, salt, nonce, tag, cipherBytes));
  }

  /** DecryptV1: one authenticated decryption with associated data
      version | salt; the key is wiped whether or not the tag verifies. */
  method DecryptV1(p: Primitives, macCatalyst: bool, token: string)
    returns (r: Result<string, Error>, ghost key: array?<byte>)
    requires StartsWith(token, PrefixV1)
    ensures r == OpenV1Token(p, macCatalyst, token)
    ensures (key != null) <==> !macCatalyst && ParsedV1(token).Success?
    ensures key != null ==> fresh(key) && key.Length == |KeyV1(p, ParsedV1(token).value.salt)| && AllZero(key[..])
    ensures key != null && KdfHasLength(p) ==> key.Length == KeyLength
  {
    if macCatalyst {
      return Failure(PlatformNotSupported), null;
    }
    var decoded := Base64UrlDecode(token[|PrefixV1|..]);
    if decoded.None? {
      return Failure(Format(InvalidBase64)), null;
    }
    var payload := FromSeq(decoded.value);
    var fields := ReadV1Payload(payload);
    if fields.Failure? {
      return Failure(fields.error), null;
    }
    var V1Arrays(ver, salt, nonce, tag, cipherBytes) := fields.value;
    var k := FromSeq(p.pbkdf2Sha256(Psk, salt[..], Iterations, 32));
    var aad := BuildAadV1(ver, salt);
    var plainBytes := p.aesGcmDecrypt(k[..], nonce[..], cipherBytes[..], tag[..], aad[..]);
    ZeroMemory(k);
    if plainBytes.None? {
      return Failure(Cryptographic(TagMismatch)), k;
    }
    return Success(p.utf8Decode(plainBytes.value)), k;
  }

  /** Decrypt: a null token is an argument error; otherwise the literal
      prefix picks the version, and any other text is a format error. */
  method Decrypt(p: Primitives, macCatalyst: bool, token: Option<string>) returns (r: Result<string, Error>)
    requires KdfHasLength(p)
    ensures token.None? ==> r == Failure(ArgumentNull)
    ensures token.Some? ==> r == Open(p, macCatalyst, token.value)
  {
    if token.None? {
      return Failure(ArgumentNull);
    }
    var t := token.value;
    if StartsWith(t, PrefixV2) {
      ghost var ek, mk, invoked;
      r, ek, mk, invoked := DecryptV2(p, t);
      return;
    }
    if StartsWith(t, PrefixV1) {
      ghost var k;
      r, k := DecryptV1(p, macCatalyst, t);
      return;
    }
    return Failure(Format(MissingPrefix));
  }
}
