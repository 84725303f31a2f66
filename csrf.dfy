/** CSRF tokens (packages/api/src/utils/csrf-token.ts): a token is a random salt
    followed by the SHA-256 digest of salt and secret, both in hex. The random
    bytes and the SHA-256 function are parameters: the model takes any 32 bytes
    and any function from strings to strings. */
module Csrf {
  import opened Common
  import Seqs

  /** `SALT_LENGTH`: bytes of randomness in a salt. */
  const SaltLength: nat := 32

  /** The salt occupies the first `2 * SALT_LENGTH` characters of a token. */
  const SaltChars: nat := 2 * SaltLength

  predicate IsHexChar(c: char) {
    '0' <= c <= '9' || 'a' <= c <= 'f'
  }

  function HexDigit(v: nat): (c: char)
    requires v < 16
    ensures IsHexChar(c)
  {
    "0123456789abcdef"[v]
  }

  /** `Buffer.toString("hex")`: two lower-case hex digits per byte, high nibble first. */
  function HexEncode(bytes: seq<bv8>): (r: string)
    ensures |r| == 2 * |bytes|
    ensures forall i :: 0 <= i < |r| ==> IsHexChar(r[i])
  {
    if bytes == [] then ""
    else [HexDigit(bytes[0] as nat / 16), HexDigit(bytes[0] as nat % 16)] + HexEncode(bytes[1..])
  }

  /** `generateSalt()`, given the bytes `crypto.randomBytes(SALT_LENGTH)` drew. */
  function GenerateSalt(randomBytes: seq<bv8>): (salt: string)
    requires |randomBytes| == SaltLength
    ensures |salt| == SaltChars
    ensures forall i :: 0 <= i < |salt| ==> IsHexChar(salt[i])
  {
    HexEncode(randomBytes)
  }

  /** `generateCsrfToken(salt, secret)`; `sha256Hex` stands for
      `createHash("sha256").update(x).digest("hex")`. */
  function GenerateCsrfToken(salt: string, secret: string, sha256Hex: string -> string): string {
    salt + sha256Hex(salt + secret)
  }

  /** `createCsrfToken(secret)`. */
  function CreateCsrfToken(secret: string, randomBytes: seq<bv8>, sha256Hex: string -> string): string
    requires |randomBytes| == SaltLength
  {
    GenerateCsrfToken(GenerateSalt(randomBytes), secret, sha256Hex)
  }

  /** `validateCsrfToken(token, secret)`; `None` is an absent (non-string) token. */
  predicate ValidateCsrfToken(token: Option<string>, secret: string, sha256Hex: string -> string) {
    match token
    case None => false
    case Some(t) => t == GenerateCsrfToken(Seqs.Take(t, SaltChars), secret, sha256Hex)
  }

  /** SHA-256 in hex always yields 64 characters. */
  ghost predicate IsHexDigest(sha256Hex: string -> string) {
    forall s :: |sha256Hex(s)| == 64
  }

  /** A freshly created token validates against the same secret. */
  lemma CreatedTokenValidates(secret: string, randomBytes: seq<bv8>, sha256Hex: string -> string)
    requires |randomBytes| == SaltLength
    ensures ValidateCsrfToken(Some(CreateCsrfToken(secret, randomBytes, sha256Hex)), secret, sha256Hex)
  {
    var salt := GenerateSalt(randomBytes);
    var token := CreateCsrfToken(secret, randomBytes, sha256Hex);
    assert token[..SaltChars] == salt;
  }

  /** Exactly the tokens of 128 characters whose second half is the digest of
      their first half and the secret are accepted; an absent token never is. */
  lemma ValidateCsrfTokenIff(t: string, secret: string, sha256Hex: string -> string)
    requires IsHexDigest(sha256Hex)
    ensures !ValidateCsrfToken(None, secret, sha256Hex)
    ensures ValidateCsrfToken(Some(t), secret, sha256Hex) <==>
      |t| == 2 * SaltChars && t[SaltChars..] == sha256Hex(t[..SaltChars] + secret)
  {
    var salt := Seqs.Take(t, SaltChars);
    var expected := GenerateCsrfToken(salt, secret, sha256Hex);
    assert |sha256Hex(salt + secret)| == 64;
    if t == expected {
      assert |t| == |salt| + 64;
      assert |salt| == SaltChars;
      assert t[..SaltChars] == salt;
      assert t[SaltChars..] == sha256Hex(salt + secret);
    }
    if |t| == 2 * SaltChars && t[SaltChars..] == sha256Hex(t[..SaltChars] + secret) {
      assert salt == t[..SaltChars];
      assert t == t[..SaltChars] + t[SaltChars..];
    }
  }

  /** Appending anything to a valid token makes it invalid. */
  lemma ExtendedTokenRejected(secret: string, randomBytes: seq<bv8>, sha256Hex: string -> string, suffix: string)
    requires |randomBytes| == SaltLength
    requires IsHexDigest(sha256Hex)
    requires suffix != []
    ensures !ValidateCsrfToken(Some(CreateCsrfToken(secret, randomBytes, sha256Hex) + suffix), secret, sha256Hex)
  {
    var token := CreateCsrfToken(secret, randomBytes, sha256Hex);
    assert |sha256Hex(GenerateSalt(randomBytes) + secret)| == 64;
    ValidateCsrfTokenIff(token + suffix, secret, sha256Hex);
  }

  /** Keeping the salt but replacing the digest by anything else is rejected. */
  lemma ForgedDigestRejected(salt: string, digest: string, secret: string, sha256Hex: string -> string)
    requires |salt| == SaltChars
    requires IsHexDigest(sha256Hex)
    requires digest != sha256Hex(salt + secret)
    ensures !ValidateCsrfToken(Some(salt + digest), secret, sha256Hex)
  {
    var t := salt + digest;
    ValidateCsrfTokenIff(t, secret, sha256Hex);
    if |t| == 2 * SaltChars {
      assert t[..SaltChars] == salt && t[SaltChars..] == digest;
    }
  }

  /** A token validated against one secret is rejected for another secret,
      unless the digests of the two collide. */
  lemma OtherSecretRejected(t: string, secret: string, other: string, sha256Hex: string -> string)
    requires IsHexDigest(sha256Hex)
    requires ValidateCsrfToken(Some(t), secret, sha256Hex)
    requires sha256Hex(t[..SaltChars] + secret) != sha256Hex(t[..SaltChars] + other)
    ensures !ValidateCsrfToken(Some(t), other, sha256Hex)
  {
    ValidateCsrfTokenIff(t, secret, sha256Hex);
    ValidateCsrfTokenIff(t, other, sha256Hex);
  }
}
