/** The field transform AppDb applies to the SendGrid settings row: the two
    secret fields are encrypted on the way into the database and decrypted
    on the way out, and values that do not carry an envelope prefix are
    treated as legacy plaintext. Strings the database may hand back as null
    are Option<string>. */
module AppDb {
  import opened Wrappers
  import opened Bytes
  import opened Text
  import opened CryptoPrimitives
  import opened EncryptionTool

  /** The random salt and iv one call of Encrypt draws. */
  datatype Coins = Coins(salt: seq<byte>, iv: seq<byte>)

  predicate ValidCoins(c: Coins) {
    |c.salt| == RandomLength && |c.iv| == IvLength
  }

  /** The prefix test EncryptIfNeeded applies to a non-null value. */
  predicate HasEnvelopePrefix(v: string) {
    StartsWith(v, PrefixV2) || StartsWith(v, PrefixV1)
  }

  predicate IsEncrypted(value: Option<string>) {
    if IsNullOrEmpty(value) then false
    else HasEnvelopePrefix(value.value)
  }

  /** A null value is stored as the encryption of "", never skipped. */
  function EncryptIfNeeded(p: Primitives, value: Option<string>, c: Coins): (r: string)
    requires KdfHasLength(p) && ValidCoins(c)
    ensures IsEncrypted(Some(r))
    ensures r == value.GetOr("") <==> IsEncrypted(value)
  {
    var v := value.GetOr("");
    var r := if HasEnvelopePrefix(v) then v else Seal(p, v, c.salt, c.iv);
    assert StartsWith(Seal(p, v, c.salt, c.iv), PrefixV2) by {
      assert Seal(p, v, c.salt, c.iv)[..|PrefixV2|] == PrefixV2;
    }
    r
  }

  /** Decrypt is only called on a value that looks encrypted. */
  function DecryptIfNeeded(p: Primitives, macCatalyst: bool, value: Option<string>): (r: Result<string, Error>)
    requires KdfHasLength(p)
    ensures !IsEncrypted(value) ==> r == Success(value.GetOr(""))
    ensures IsEncrypted(value) ==> r == Open(p, macCatalyst, value.value)
  {
    if IsNullOrEmpty(value) then Success("")
    else if IsEncrypted(value) then Open(p, macCatalyst, value.value)
    else Success(value.value)
  }

  datatype SendGridSettings = SendGridSettings(
    id: int,
    apiUri: Option<string>,
    keyName: Option<string>,
    apiKey: Option<string>,
    fromEmail: Option<string>,
    fromName: Option<string>)

  /** The row written to the database: Id forced to 1, both secrets
      encrypted, everything else copied. */
  function EncryptForStorage(p: Primitives, s: SendGridSettings, keyNameCoins: Coins, apiKeyCoins: Coins): (r: SendGridSettings)
    requires KdfHasLength(p) && ValidCoins(keyNameCoins) && ValidCoins(apiKeyCoins)
    ensures r.id == 1
    ensures r.apiUri == s.apiUri && r.fromEmail == s.fromEmail && r.fromName == s.fromName
    ensures IsEncrypted(r.keyName) && IsEncrypted(r.apiKey)
  {
    SendGridSettings(
      1,
      s.apiUri,
      Some(EncryptIfNeeded(p, s.keyName, keyNameCoins)),
      Some(EncryptIfNeeded(p, s.apiKey, apiKeyCoins)),
      s.fromEmail,
      s.fromName)
  }

  /** The settings read back: Id forced to 1, both secrets decrypted if they
      look encrypted. The initializer evaluates KeyName before ApiKey, so a
      failure in KeyName is the one reported. */
  function DecryptFromStorage(p: Primitives, macCatalyst: bool, s: SendGridSettings): (r: Result<SendGridSettings, Error>)
    requires KdfHasLength(p)
    ensures r.Success? <==>
      DecryptIfNeeded(p, macCatalyst, s.keyName).Success? && DecryptIfNeeded(p, macCatalyst, s.apiKey).Success?
    ensures DecryptIfNeeded(p, macCatalyst, s.keyName).Failure? ==> r == Failure(DecryptIfNeeded(p, macCatalyst, s.keyName).error)
    ensures r.Success? ==>
      && r.value.id == 1
      && r.value.apiUri == s.apiUri && r.value.fromEmail == s.fromEmail && r.value.fromName == s.fromName
      && r.value.keyName == Some(DecryptIfNeeded(p, macCatalyst, s.keyName).value)
      && r.value.apiKey == Some(DecryptIfNeeded(p, macCatalyst, s.apiKey).value)
  {
    var keyName :- DecryptIfNeeded(p, macCatalyst, s.keyName);
    var apiKey :- DecryptIfNeeded(p, macCatalyst, s.apiKey);
    Success(SendGridSettings(1, s.apiUri, Some(keyName), Some(apiKey), s.fromEmail, s.fromName))
  }

  /** The row InitAsync inserts when the table is empty. */
  function SeedSettings(): SendGridSettings {
    SendGridSettings(1, Some("https://api.sendgrid.com/v3/mail/send"), Some(""), Some(""), Some(""), Some(""))
  }

  // =====================================================================
  // Properties
  // =====================================================================

  /** IsEncrypted's null-or-empty guard adds nothing: it is exactly the
      prefix test EncryptIfNeeded uses, on a non-null value. */
  lemma IsEncryptedIsPrefixTest(value: Option<string>)
    ensures IsEncrypted(value) <==> value.Some? && HasEnvelopePrefix(value.value)
  {
    if value == Some("") {
      assert !StartsWith("", PrefixV2) && !StartsWith("", PrefixV1);
    }
  }

  /** Encrypting an already-stored value changes nothing. */
  lemma EncryptIfNeededIdempotent(p: Primitives, value: Option<string>, c1: Coins, c2: Coins)
    requires KdfHasLength(p) && ValidCoins(c1) && ValidCoins(c2)
    ensures var once := EncryptIfNeeded(p, value, c1);
      EncryptIfNeeded(p, Some(once), c2) == once
  {
    var once := EncryptIfNeeded(p, value, c1);
    assert IsEncrypted(Some(once));
  }

  /** Legacy plaintext (and null) survives a write and a read; this is where
      the envelope round trip is used. */
  lemma DecryptAfterEncrypt(p: Primitives, macCatalyst: bool, value: Option<string>, c: Coins)
    requires Lawful(p) && ValidCoins(c)
    requires !IsEncrypted(value)
    ensures DecryptIfNeeded(p, macCatalyst, Some(EncryptIfNeeded(p, value, c))) == Success(value.GetOr(""))
  {
    var v := value.GetOr("");
    IsEncryptedIsPrefixTest(value);
    assert !HasEnvelopePrefix(v) by {
      if value.None? {
        assert !StartsWith("", PrefixV2) && !StartsWith("", PrefixV1);
      }
    }
    RoundTrip(p, macCatalyst, v, c.salt, c.iv);
  }

  /** A settings row whose secrets are legacy plaintext reads back as it was
      written, with Id 1 and null secrets as "". */
  lemma StorageRoundTrip(p: Primitives, macCatalyst: bool, s: SendGridSettings, c1: Coins, c2: Coins)
    requires Lawful(p) && ValidCoins(c1) && ValidCoins(c2)
    requires !IsEncrypted(s.keyName) && !IsEncrypted(s.apiKey)
    ensures DecryptFromStorage(p, macCatalyst, EncryptForStorage(p, s, c1, c2)) ==
      Success(s.(id := 1, keyName := Some(s.keyName.GetOr("")), apiKey := Some(s.apiKey.GetOr(""))))
  {
    DecryptAfterEncrypt(p, macCatalyst, s.keyName, c1);
    DecryptAfterEncrypt(p, macCatalyst, s.apiKey, c2);
  }

  /** The seeded row holds encrypted empty secrets, never raw "" values, and
      they read back as "". */
  lemma SeedStoresEncryptedEmptySecrets(p: Primitives, macCatalyst: bool, c1: Coins, c2: Coins)
    requires Lawful(p) && ValidCoins(c1) && ValidCoins(c2)
    ensures var row := EncryptForStorage(p, SeedSettings(), c1, c2);
      && row.keyName != Some("") && row.apiKey != Some("")
      && DecryptFromStorage(p, macCatalyst, row) == Success(SeedSettings())
  {
    var row := EncryptForStorage(p, SeedSettings(), c1, c2);
    assert IsEncrypted(row.keyName) && IsEncrypted(row.apiKey);
    assert !IsEncrypted(Some(""));
    StorageRoundTrip(p, macCatalyst, SeedSettings(), c1, c2);
  }
}
