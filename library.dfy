/**
 * The foreign libraries the vault calls: hashlib's SHA-256 (FIPS 180-4),
 * imagehash's difference hash over a PIL image, and the cryptography
 * package's Fernet tokens (AES-128-CBC with HMAC-SHA256). Their internals
 * are not modelled: each is a function value handed to the objects that use
 * it, and what the vault relies on is stated as a predicate over that value.
 */
module Library {
  import opened Common

  /** `hashlib.sha256(m).hexdigest()` as a function of the whole message `m`. */
  type Sha256 = Bytes -> string

  /**
   * `str(imagehash.dhash(Image.open(f).convert('L')))` as a function of the
   * file's bytes; `None` when PIL cannot decode the bytes as an image.
   */
  type DHash = Bytes -> Option<string>

  /** hexdigest() always prints 64 lower-case hexadecimal digits. */
  ghost predicate HexDigests(sha256: Sha256) {
    forall m :: |sha256(m)| == 64 && IsLowerHex(sha256(m))
  }

  /** The default 8x8 dHash prints as 16 lower-case hexadecimal digits. */
  ghost predicate SixteenDigitDHashes(dhash: DHash) {
    forall m :: dhash(m).Some? ==> |dhash(m).value| == 16 && IsLowerHex(dhash(m).value)
  }

  /**
   * Fernet as an abstract authenticated cipher: `encrypt(key, iv, plaintext)`
   * builds a token (the IV and the token's timestamp are fresh on every call,
   * hence a parameter); `decrypt(key, token)` returns the plaintext or `None`
   * where the library raises `InvalidToken`.
   */
  datatype Fernet = Fernet(encrypt: (Bytes, Bytes, Bytes) -> Bytes,
                           decrypt: (Bytes, Bytes) -> Option<Bytes>)

  /** A token that `encrypt` produces under `key` for some IV and plaintext. */
  ghost predicate IsToken(f: Fernet, key: Bytes, t: Bytes) {
    exists iv, p :: f.encrypt(key, iv, p) == t
  }

  /**
   * The two axioms of authenticated encryption: decryption inverts
   * encryption under the same key, and decryption succeeds only on a token
   * that encryption produced, for that very plaintext, under that key.
   */
  ghost predicate Authenticated(f: Fernet) {
    && (forall key, iv, p :: f.decrypt(key, f.encrypt(key, iv, p)) == Some(p))
    && (forall key, t, p :: f.decrypt(key, t) == Some(p) ==> exists iv :: f.encrypt(key, iv, p) == t)
  }

  /** Bytes that are not a token under `key` (a foreign or tampered blob) are rejected. */
  lemma NonTokenRejected(f: Fernet, key: Bytes, t: Bytes)
    requires Authenticated(f)
    requires !IsToken(f, key, t)
    ensures f.decrypt(key, t) == None
  {
  }
}
