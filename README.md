# LTKCC core, modelled in Dafny

LTKCC is a desktop tool for sending templated e-mail. It stores its SendGrid secrets encrypted, keeps HTML
templates with `{{ KEY }}` placeholders, and publishes workflow definitions under growing version numbers.
This project models the parts of it that hold logic rather than I/O:

- **Token format** (`EncryptionTool`, `Base64Url`, `Bytes`, `CryptoPrimitives`).
  - A v2 token is `enc:v2:` followed by the unpadded base64url encoding of
    `version(1) | saltLen(4, signed big-endian) | salt | iv(16) | mac(32) | cipher`.
    The encoding follows section 5 of RFC 4648.
  - A v1 token is `enc:v1:` followed by `version | saltLen | salt | nonce(12) | tag(16) | cipher`.
  - Encryption is modelled as methods over byte arrays, the way EncryptionTool builds the payload
    (`Buffer.BlockCopy`, `ZeroMemory`). Decryption of both versions is modelled the same way, with dispatch on
    the literal prefix.
  - Each method is proved against a pure specification function: `Seal`, `ParseV2`, `OpenV2Token`, `ParseV1`,
    `OpenV1Token` and `Open`.
  - The cryptographic primitives are the fields of a `Primitives` value the caller supplies:
    - AES-CBC with PKCS#7 padding, and AES-GCM;
    - HMAC-SHA256 and PBKDF2-SHA256;
    - UTF-8.

    The laws the proofs rely on are the ghost predicate `Lawful`:
    - AES-CBC decryption inverts AES-CBC encryption (AES-GCM has no law; the v1 path only passes its
      result on);
    - HMAC returns 32 bytes;
    - PBKDF2 returns the requested length;
    - UTF-8 decoding inverts encoding.
  - The random salt and iv are parameters.
- **Settings field transform** (`AppDb`). The two secret fields of the SendGrid settings row are encrypted on
  the way to the database and decrypted on the way back.
  - A value that does not carry one of the two prefixes is treated as legacy plaintext.
  - Strings the database may return as null are `Option<string>`.
- **Placeholder extractor** (`HtmlTemplateParameterExtractor`).
  - The regular expression `\{\{\s*([^\{\}\s]+)\s*\}\}` becomes a deterministic left-to-right scanner
    (`MatchAt`, `Matches`). `IsToken` is an independent, declarative description of one match.
  - `ExtractKeys` is LTKCC's loop over the matches, with its `seen` set and its `ordered` list. It is
    proved to equal the first-occurrence de-duplication of the trimmed captures.
- **File-name normaliser** (`TemplateFileService`).
  - `NormalizeFileName` works in stages: trim, last path component, `.htm` to `.html` / append `.html`, scan
    for invalid characters, reserved device names on Windows.
  - It is a method with a loop, proved against the function `Normalize`.
  - `Path.GetFileName` and `Path.GetInvalidFileNameChars` are modelled for both the Windows and the Unix
    platform (a `windows` flag). The `#if WINDOWS` device-name check uses the same flag.
- **Workflow publishing** (`WorkflowRepository`).
  - `GetLatestVersionAsync` becomes a function over the stored rows: the largest version of the id, or 0.
  - The version rule of `PublishNewVersionAsync` is `latest + 1` in 32-bit arithmetic, floored at 1.
  - Step normalisation has four parts:
    - keep the enabled steps;
    - sort stably by `StepOrder` (an insertion sort, as `OrderBy` is stable);
    - renumber 1..N;
    - stamp the ids, the workflow id and the version.
  - `PublishNewVersion` is a method that reassigns its locals as `PublishNewVersionAsync` does.
  - `Guid.NewGuid()` values are parameters.

Supporting modules: `Wrappers` (Option, Result), `Bytes` (bytes, 32-bit integers, big-endian, `BlockCopy`,
`ZeroMemory`), `Text` (.NET white space and `Trim`, ordinal and ASCII case-insensitive comparison).

### Errors for unknown prefixes and versions

- A token with an unknown prefix such as `enc:v3:` raises `FormatException`, because neither literal prefix
  matches.
- A v2 token whose payload holds at least 53 bytes and whose inner version byte is not 2 raises
  `NotSupportedException`; a shorter one raises `FormatException` first.
  `Dispatch`, `WrongVersionRejected` and `ParseV2Rejections` state this behaviour.
- The `cipherLen < 0` checks in `DecryptV2` and `DecryptV1` can never fire: the preceding length checks
  already guarantee a non-negative remainder. The methods assert this.

## Model

| member | source | states |
|---|---|---|
| Bytes.WrapInt32 | LTKCC/Data/WorkflowRepository.cs:58 | the result is a 32-bit integer congruent to the input modulo 2^32, and equals it when it already fits |
| Bytes.ReadWriteInt32 | LTKCC/Security/EncryptionTool.cs:94 | reading back the 4-byte big-endian encoding of a 32-bit integer returns it |
| Bytes.ReadInt32BigEndian | LTKCC/Security/EncryptionTool.cs:94 | four bytes read as a signed 32-bit value, negative exactly when the top bit is set |
| Bytes.BlockCopy | LTKCC/Security/EncryptionTool.cs:53-60 | count bytes of src land at dstOffset; the rest of dst is unchanged |
| Bytes.ZeroMemory | LTKCC/Security/EncryptionTool.cs:62-63 | the array is all zero afterwards |
| Text.TrimEmptyIff | LTKCC/Services/TemplateFileService.cs:116-119 | trimming yields "" exactly when the string is empty or all white space |
| Text.TrimNoOp | LTKCC/Services/HtmlTemplateParameterExtractor.cs:22 | Trim leaves a string alone when neither end is white space |
| Base64Url.EncodeDecodeRoundTrip | LTKCC/Security/EncryptionTool.cs:334-346 | decoding the url-safe encoding of any byte sequence returns exactly that sequence |
| Base64Url.StdRoundTrip | LTKCC/Security/EncryptionTool.cs:334-337 | the standard padded decoder inverts the standard padded encoder on every byte sequence |
| Base64Url.EncodeAlphabet | LTKCC/Security/EncryptionTool.cs:334-338 | every encoded character is in A-Z a-z 0-9 - _ (no '=', '+' or '/'), and the length is never 1 mod 4 |
| Base64Url.ToBase64Length | LTKCC/Security/EncryptionTool.cs:336 | the padded standard encoding has a length divisible by 4 and is non-empty for non-empty data |
| Base64Url.UrlTextRestored | LTKCC/Security/EncryptionTool.cs:342-343 | restoring '+' and '/' in an encoded text gives back the standard unpadded encoding |
| Base64Url.PaddingRestored | LTKCC/Security/EncryptionTool.cs:344-345 | re-padding the unpadded text to a multiple of four gives back the standard padded encoding |
| Base64Url.DecodeRejectsLengthOneModFour | LTKCC/Security/EncryptionTool.cs:340-347 | a text whose length is 1 mod 4 is rejected |
| Base64Url.BadFinalQuadRejected | LTKCC/Security/EncryptionTool.cs:346 | a final quad with '=' in its second position is rejected |
| EncryptionTool.ParseSerializeV2 | LTKCC/Security/EncryptionTool.cs:88-119 | the v2 parser recovers exactly the version, salt, iv, mac and cipher that were laid out |
| EncryptionTool.SerializeParseV2 | LTKCC/Security/EncryptionTool.cs:88-119 | every payload the v2 parser accepts is the layout of the fields it returns |
| EncryptionTool.ParseSerializeV1 | LTKCC/Security/EncryptionTool.cs:242-274 | the v1 parser recovers exactly the version, salt, nonce, tag and cipher that were laid out |
| EncryptionTool.SerializeParseV1 | LTKCC/Security/EncryptionTool.cs:242-274 | every payload the v1 parser accepts is the layout of the fields it returns |
| EncryptionTool.ParseV2Rejections | LTKCC/Security/EncryptionTool.cs:88-99 | each v2 error: under 53 bytes gives too-short; a version byte other than 2 gives NotSupported; a salt length outside 0..1024 gives invalid-salt; a payload under 53 + saltLen gives too-short; anything else is accepted |
| EncryptionTool.ParseV1Rejections | LTKCC/Security/EncryptionTool.cs:243-253 | the same rules for v1: under 5 bytes, version other than 1, salt length outside 0..1024, under 33 + saltLen |
| EncryptionTool.DerivedKeysV2 | LTKCC/Security/EncryptionTool.cs:151-168 | the two 32-byte keys are the first and the last half of the 64 bytes of PBKDF2 output |
| EncryptionTool.SealEnvelope | LTKCC/Security/EncryptionTool.cs:35-47 | the envelope Encrypt writes has version 2, the drawn salt and iv, and the mac Decrypt expects |
| EncryptionTool.SealLayout | LTKCC/Security/EncryptionTool.cs:43-65 | a token is the v2 prefix plus base64url of a payload of 85 + cipher bytes: version 2, salt length 16, salt, iv, mac, cipher, with the mac over header and cipher under the derived mac key |
| EncryptionTool.RoundTrip | LTKCC/Security/EncryptionTool.cs:28-149 | Decrypt returns the plaintext for every token Encrypt makes, for every salt and iv, on every platform |
| EncryptionTool.DistinctRandomnessDistinctTokens | LTKCC/Security/EncryptionTool.cs:35-65 | two encryptions drawing different salts or ivs give different tokens |
| EncryptionTool.MacVerifiedBeforeDecrypt | LTKCC/Security/EncryptionTool.cs:123-135 | when the mac does not verify, the result is a mac-mismatch error whatever the decryption function is, so the cipher is not reached |
| EncryptionTool.TamperedMacRejected | LTKCC/Security/EncryptionTool.cs:123-135 | a token from Encrypt with a forged mac of the right length is rejected with a mac-mismatch error |
| EncryptionTool.TruncatedTokenRejected | LTKCC/Security/EncryptionTool.cs:87-88 | a v2 token with fewer than 53 payload bytes is a too-short format error |
| EncryptionTool.WrongVersionRejected | LTKCC/Security/EncryptionTool.cs:91-92 | a long-enough v2 token whose version byte is not 2 is NotSupported with that byte |
| EncryptionTool.Dispatch | LTKCC/Security/EncryptionTool.cs:68-79 | "enc:v2:" goes to the v2 path and "enc:v1:" to the v1 path (always PlatformNotSupported on MacCatalyst); any other string is a missing-prefix format error |
| EncryptionTool.BuildV2Header | LTKCC/Security/EncryptionTool.cs:170-194 | an iv that is not 16 bytes is an error; otherwise a fresh array holding version, big-endian salt length, salt and iv |
| EncryptionTool.BuildAadV1 | LTKCC/Security/EncryptionTool.cs:312-319 | a fresh array holding exactly version followed by the salt |
| EncryptionTool.DeriveKeysV2 | LTKCC/Security/EncryptionTool.cs:151-168 | two distinct fresh 32-byte keys equal to the halves of the PBKDF2 output, and the fresh 64-byte PBKDF2 buffer, distinct from both keys, zeroed |
| EncryptionTool.Concat3 | LTKCC/Security/EncryptionTool.cs:53-60 | the three BlockCopy calls leave header, mac and cipher in sequence in a fresh array |
| EncryptionTool.Encrypt | LTKCC/Security/EncryptionTool.cs:28-66 | null is an argument error; otherwise the result is the sealed token and both derived keys, freshly allocated, are zeroed before returning |
| EncryptionTool.FixedTimeEquals | LTKCC/Security/EncryptionTool.cs:125 | true exactly when the two arrays have the same contents |
| EncryptionTool.ReadV2Payload | LTKCC/Security/EncryptionTool.cs:88-119 | fails exactly when the v2 parser does, with its error; otherwise fresh arrays holding the parsed fields |
| EncryptionTool.DecryptV2 | LTKCC/Security/EncryptionTool.cs:85-149 | the result is the v2 specification's; keys exist exactly when the payload parses, and are then fresh 32-byte arrays that are zero on return; the cipher is invoked exactly when the mac verifies |
| EncryptionTool.ReadV1Payload | LTKCC/Security/EncryptionTool.cs:242-274 | fails exactly when the v1 parser does, with its error; otherwise fresh arrays holding the parsed fields |
| EncryptionTool.DecryptV1 | LTKCC/Security/EncryptionTool.cs:235-296 | the result is the v1 specification's (PlatformNotSupported on MacCatalyst); the key exists exactly when the payload parses off MacCatalyst, and is then a fresh array of the KDF's 32 bytes that is zero on return |
| EncryptionTool.Decrypt | LTKCC/Security/EncryptionTool.cs:68-79 | a null token is an argument error; otherwise the prefix dispatch of Open |
| AppDb.EncryptIfNeeded | LTKCC/Data/AppDb.cs:156-164 | the result always looks encrypted, and equals the input (null read as "") exactly when the input already did |
| AppDb.DecryptIfNeeded | LTKCC/Data/AppDb.cs:149-154 | null, "" and unprefixed values come back as they are (null as ""); only prefixed values go to Decrypt |
| AppDb.EncryptForStorage | LTKCC/Data/AppDb.cs:119-127 | Id is 1, ApiUri, FromEmail and FromName are copied, and both secrets look encrypted |
| AppDb.DecryptFromStorage | LTKCC/Data/AppDb.cs:129-139 | succeeds exactly when both secrets decrypt; a KeyName failure is the one reported; on success Id is 1, the other fields are copied and the secrets are the decrypted values |
| AppDb.IsEncryptedIsPrefixTest | LTKCC/Data/AppDb.cs:141-147 | IsEncrypted is false for null and "", and otherwise is exactly the ordinal test for either prefix |
| AppDb.EncryptIfNeededIdempotent | LTKCC/Data/AppDb.cs:156-164 | applying EncryptIfNeeded to its own output returns that output, whatever randomness the second call draws |
| AppDb.DecryptAfterEncrypt | LTKCC/Data/AppDb.cs:149-164 | any value without a prefix (null included) reads back as itself (null as "") after a write |
| AppDb.StorageRoundTrip | LTKCC/Data/AppDb.cs:119-139 | a settings row with plaintext secrets reads back as written, with Id 1 and null secrets as "" |
| AppDb.SeedStoresEncryptedEmptySecrets | LTKCC/Data/AppDb.cs:40-48 | the seeded row stores encrypted secrets, never raw "", and reads back as the seed |
| HtmlTemplateParameterExtractor.SkipWhiteSpace | LTKCC/Services/HtmlTemplateParameterExtractor.cs:10 | the scan stops at the first non-white-space character and skips only white space |
| HtmlTemplateParameterExtractor.SkipKey | LTKCC/Services/HtmlTemplateParameterExtractor.cs:10 | the scan stops at the first brace or white space and skips only key characters |
| HtmlTemplateParameterExtractor.MatchAt | LTKCC/Services/HtmlTemplateParameterExtractor.cs:10 | a scanner hit at i is a token that starts at i |
| HtmlTemplateParameterExtractor.TokenIsUnique | LTKCC/Services/HtmlTemplateParameterExtractor.cs:10 | every token (in the declarative sense) starting at a position is the one the scanner finds there |
| HtmlTemplateParameterExtractor.MatchesAreTokens | LTKCC/Services/HtmlTemplateParameterExtractor.cs:9-20 | every match is a token of the pattern |
| HtmlTemplateParameterExtractor.MatchesInOrder | LTKCC/Services/HtmlTemplateParameterExtractor.cs:20 | matches are left to right and do not overlap |
| HtmlTemplateParameterExtractor.MatchesLeftmost | LTKCC/Services/HtmlTemplateParameterExtractor.cs:20 | if a token starts at or after i, there is a match and the first one starts no later |
| HtmlTemplateParameterExtractor.NoMatchesInWhiteSpace | LTKCC/Services/HtmlTemplateParameterExtractor.cs:14-15 | blank html has no matches |
| HtmlTemplateParameterExtractor.TrimmedKeyIsKey | LTKCC/Services/HtmlTemplateParameterExtractor.cs:9-23 | a captured key is non-empty, free of braces and white space, and unchanged by Trim |
| HtmlTemplateParameterExtractor.AllKeysAreCaptures | LTKCC/Services/HtmlTemplateParameterExtractor.cs:20-23 | the trimmed non-empty keys are exactly the captures, each one valid and each one the key of a token in the html |
| HtmlTemplateParameterExtractor.DedupNoDuplicates | LTKCC/Services/HtmlTemplateParameterExtractor.cs:17-26 | de-duplication leaves no key twice |
| HtmlTemplateParameterExtractor.DedupFirstOccurrenceOrder | LTKCC/Services/HtmlTemplateParameterExtractor.cs:18-26 | de-duplicated keys appear in the order of their first occurrence |
| HtmlTemplateParameterExtractor.Dedup | LTKCC/Services/HtmlTemplateParameterExtractor.cs:25-26 | de-duplication keeps exactly the keys of its input |
| HtmlTemplateParameterExtractor.ExtractKeys | LTKCC/Services/HtmlTemplateParameterExtractor.cs:12-30 | the loop yields the de-duplicated captures: [] for blank html, no duplicates, every key valid and the key of a token in the html |
| TemplateFileService.GetFileName | LTKCC/Services/TemplateFileService.cs:122 | the result is a suffix of the path with no directory separator, and it starts at a separator or at the end of the drive root, never before that end |
| TemplateFileService.WithHtmlExtension | LTKCC/Services/TemplateFileService.cs:124-133 | the result ends in .html (any case); .html names are kept; .htm names have their last four characters replaced; others get .html appended |
| TemplateFileService.ContainsInvalidChar | LTKCC/Services/TemplateFileService.cs:135-139 | the loop over the invalid characters finds one exactly when the name holds one |
| TemplateFileService.InvalidFileNameCharsAgree | LTKCC/Services/TemplateFileService.cs:135 | the listed invalid characters are exactly the controls plus the platform's reserved punctuation |
| TemplateFileService.NormalizeFileName | LTKCC/Services/TemplateFileService.cs:114-154 | blank input is Required; every success ends in .html and holds no invalid character; the result is Normalize's |
| TemplateFileService.NormalizeRequired | LTKCC/Services/TemplateFileService.cs:116-119 | the Required error is raised exactly for null, empty or white-space input |
| TemplateFileService.ReservedExactlyDeviceNames | LTKCC/Services/TemplateFileService.cs:141-151 | a candidate name is rejected as reserved exactly on Windows when its stem is CON, PRN, AUX, NUL, COM1-9 or LPT1-9 (any case) |
| TemplateFileService.NormalizedShape | LTKCC/Services/TemplateFileService.cs:116-154 | a successful result ends in .html, has no separator and no invalid character |
| TemplateFileService.NormalizedStem | LTKCC/Services/TemplateFileService.cs:142-151 | the stem checked against the device names is the result without its last five characters |
| TemplateFileService.NormalizeIdempotent | LTKCC/Services/TemplateFileService.cs:114-154 | re-normalising a successful result without leading white space gives the same result |
| WorkflowRepository.LatestVersion | LTKCC/Data/WorkflowRepository.cs:35-43 | 0 when no row has the id; otherwise the version of one of its rows, and no row of it has a larger one |
| WorkflowRepository.NextVersion | LTKCC/Data/WorkflowRepository.cs:58-59 | always at least 1 and a 32-bit value; latest + 1 for latest in 0..2^31-2; 1 after a negative latest or the wrap-around at 2^31-1 |
| WorkflowRepository.FirstVersionIsOne | LTKCC/Data/WorkflowRepository.cs:42-59 | a workflow without rows is published as version 1 |
| WorkflowRepository.EnabledSteps | LTKCC/Data/WorkflowRepository.cs:73 | exactly the enabled steps, each with its multiplicity, and no disabled one |
| WorkflowRepository.EnabledStepsInOrder | LTKCC/Data/WorkflowRepository.cs:73 | the enabled steps keep the caller's order: the result is a subsequence of the input |
| WorkflowRepository.EnabledStepsUnique | LTKCC/Data/WorkflowRepository.cs:73 | any all-enabled subsequence of the input holding every enabled step as often as the input does is the result of EnabledSteps |
| WorkflowRepository.SubsequenceCounts | LTKCC/Data/WorkflowRepository.cs:73 | a subsequence holds no step more often than its source |
| WorkflowRepository.EnabledWithStepOrderCommute | LTKCC/Data/WorkflowRepository.cs:73-74 | dropping disabled steps and selecting one StepOrder commute |
| WorkflowRepository.TiesKeepInputOrder | LTKCC/Data/WorkflowRepository.cs:72-80 | after filtering and sorting, the steps with any one StepOrder are exactly the caller's enabled steps with it, in the caller's order |
| WorkflowRepository.InsertByStepOrder | LTKCC/Data/WorkflowRepository.cs:74 | inserting into a sorted sequence keeps it sorted and adds exactly the element |
| WorkflowRepository.SortByStepOrder | LTKCC/Data/WorkflowRepository.cs:74 | the result is sorted by StepOrder and a permutation of the input |
| WorkflowRepository.SortIsStable | LTKCC/Data/WorkflowRepository.cs:74 | the steps sharing any StepOrder keep their input order |
| WorkflowRepository.InsertKeepsTies | LTKCC/Data/WorkflowRepository.cs:74 | insertion places the element after every step with its StepOrder |
| WorkflowRepository.NormalizeStepsSpec | LTKCC/Data/WorkflowRepository.cs:72-83 | step i of the result is step i of the sorted enabled steps with StepOrder i+1, the workflow id and version stamped, a non-empty id kept and an empty one replaced by a fresh non-empty id, the other fields unchanged |
| WorkflowRepository.PublishNewVersion | LTKCC/Data/WorkflowRepository.cs:49-95 | an empty id is replaced by the fresh one; the version is the next after the latest; the stored row and the returned pair carry that id and version; the steps are normalised with them |

## Left out

- Cryptography is not computed. AES-CBC/PKCS#7, AES-GCM, HMAC-SHA256 and PBKDF2-SHA256 (100 000 iterations)
  are fields of `Primitives`, constrained only by the laws in `Lawful`. This covers `EncryptAesCbc`,
  `DecryptAesCbc`, `ComputeHmacSha256` and `DeriveKeyV1`. UTF-8 is likewise an abstract pair of functions
  that invert.
- EncryptionTool.RoundTrip: `Encoding.UTF8` replaces an unpaired surrogate with U+FFFD, so in LTKCC a
  plaintext holding one does not survive `Decrypt(Encrypt(s))`. Dafny strings cannot hold unpaired
  surrogates, so the model cannot express such a plaintext, and the round trip is stated for the strings it can.
- `RandomBytes`: the salt and iv are parameters of `Encrypt`. `Guid.NewGuid()` values are parameters of
  `PublishNewVersion`, assumed non-empty. `DateTime.UtcNow` (CreatedUtc, UpdatedUtc) is not modelled.
- EncryptionTool.TamperedMacRejected: only a changed mac field is proved to be rejected. A changed salt, iv
  or ciphertext is rejected only if HMAC-SHA256 gives different macs for different inputs, and `Lawful`
  states no such law. `MacVerifiedBeforeDecrypt` still proves that any token whose mac does not match never
  reaches the cipher.
- EncryptionTool.FixedTimeEquals: the constant-time behaviour cannot be expressed in Dafny. Only the result is
  stated.
- ZeroMemory: only its effect is stated, that the key arrays are all zero. Whether any copy of a key remains
  elsewhere in memory is outside the model.
- Base64Url.FromBase64String is strict. It takes no embedded white space, which .NET's decoder tolerates. Like
  .NET, it does not insist that the unused trailing bits are zero.
- TemplateFileService.GetFileName: Windows UNC and device roots (`\\server\share`, `\\?\`) are not recognised
  as roots; only drive roots are. For a path that lies wholly inside such a root, .NET returns "" and
  `NormalizeFileName` then yields ".html". Examples are `\\server\share` and `\\name.html`. The model instead
  cuts at the last separator and yields "share.html" or "name.html". For every other path the root lies before
  the last separator and is dropped either way.
- Text.EqualsIgnoreCase and EndsWithIgnoreCase fold ASCII letters only. `OrdinalIgnoreCase` also folds
  non-ASCII letters.
- Persistence is left out as I/O:
  - the SQLite queries and inserts;
  - `InitAsync`, apart from the row it seeds (`AppDb.SeedSettings`);
  - `SaveSendGridSettingsAsync` and `GetSendGridSettingsAsync`, apart from the transforms they apply;
  - the transaction in `PublishNewVersionAsync`.
- `GetLatestVersionAsync` is modelled over the rows passed in, not over a database query.
- WorkflowRepository.NormalizeSteps works on step values. `PublishNewVersionAsync`'s `Select` mutates the caller's step
  objects in place, so the caller sees the stamped values; that aliasing is not modelled.
- WorkflowRepository.NormalizeSteps: if the same step object appears twice in the caller's list, `PublishNewVersionAsync`
  stamps it twice. Both list entries then carry the last StepOrder and the last fresh id. The model numbers
  them as distinct values, 1..N.
- The `Steps` list of `WorkflowRow` is not stored by `PublishNewVersionAsync` and is not modelled.
- The path-traversal check and the rest of `TemplateFileService` use the file system and are not modelled.
