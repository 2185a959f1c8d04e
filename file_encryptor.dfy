/**
 * The file encryptor (`FileEncryptor`): a secret key loaded from, or created
 * in, a key file at construction, and whole-file Fernet encryption and
 * decryption under that key, with the error handling of `encrypt_file` and
 * `decrypt_file`.
 */
module FileEncryptor {
  import opened Common
  import opened Library
  import opened FileSystem

  /** `0o600`: read and write for the owner only. */
  const KeyFileMode: int := 0x180

  /** `Fernet(key)`: the library's cipher object bound to one key. */
  datatype Cipher = Cipher(fernet: Fernet, key: Bytes) {
    /** `cipher.encrypt(plaintext)`: a token under this cipher's key. */
    function Encrypt(iv: Bytes, plaintext: Bytes): (token: Bytes)
      ensures IsToken(fernet, key, token)
    {
      fernet.encrypt(key, iv, plaintext)
    }
    /**
     * `cipher.decrypt(token)`: `None` where the library raises
     * `InvalidToken`; under an authenticated cipher only a token made under
     * this key decrypts.
     */
    function Decrypt(token: Bytes): (plaintext: Option<Bytes>)
      ensures Authenticated(fernet) && plaintext.Some? ==> IsToken(fernet, key, token)
    {
      fernet.decrypt(key, token)
    }
  }

  /** Decrypting a token the same cipher produced gives back the plaintext. */
  lemma CipherRoundTrip(c: Cipher, iv: Bytes, plaintext: Bytes)
    requires Authenticated(c.fernet)
    ensures c.Decrypt(c.Encrypt(iv, plaintext)) == Some(plaintext)
  {
  }

  /** The exceptions `encrypt_file` re-raises. */
  datatype Failure = InputNotFound | IoFailure

  /** How `encrypt_file` ends: normally, or by raising. */
  datatype Outcome = Done | Raised(failure: Failure)

  /**
   * `_load_or_create_key`: an existing key file is read verbatim; otherwise
   * `generatedKey` (what `Fernet.generate_key()` returned) is written to a
   * new key file whose mode is then set to 0o600.
   */
  method LoadOrCreateKey(fs: Fs, keyPath: Path, generatedKey: Bytes) returns (key: Bytes)
    requires keyPath in fs.files ==> keyPath !in fs.unreadable
    requires keyPath !in fs.files ==> keyPath !in fs.unwritable
    modifies fs
    ensures old(keyPath in fs.files) ==>
      key == old(fs.files[keyPath]) && fs.files == old(fs.files) && fs.modes == old(fs.modes)
    ensures old(keyPath !in fs.files) ==>
      && key == generatedKey
      && fs.files == old(fs.files)[keyPath := generatedKey]
      && fs.modes == old(fs.modes)[keyPath := KeyFileMode]
    ensures keyPath in fs.files && fs.files[keyPath] == key
  {
    if fs.Exists(keyPath) {
      var r := fs.ReadAll(keyPath);
      key := r.data;
    } else {
      key := generatedKey;
      var written := fs.WriteAll(keyPath, key);
      fs.Chmod(keyPath, KeyFileMode);
    }
  }

  class FileEncryptor {
    const keyPath: Path
    /** The key fixed at construction. */
    const key: Bytes
    /** `self.cipher = Fernet(self.key)`. */
    const cipher: Cipher

    ghost predicate Valid() {
      cipher.key == key
    }

    constructor (fs: Fs, keyPath: Path, fernet: Fernet, generatedKey: Bytes)
      requires keyPath in fs.files ==> keyPath !in fs.unreadable
      requires keyPath !in fs.files ==> keyPath !in fs.unwritable
      modifies fs
      ensures Valid() && this.keyPath == keyPath && cipher == Cipher(fernet, key)
      ensures old(keyPath in fs.files) ==>
        key == old(fs.files[keyPath]) && fs.files == old(fs.files) && fs.modes == old(fs.modes)
      ensures old(keyPath !in fs.files) ==>
        && key == generatedKey
        && fs.files == old(fs.files)[keyPath := generatedKey]
        && fs.modes == old(fs.modes)[keyPath := KeyFileMode]
      ensures keyPath in fs.files && fs.files[keyPath] == key
    {
      var k := LoadOrCreateKey(fs, keyPath, generatedKey);
      this.keyPath := keyPath;
      key := k;
      cipher := Cipher(fernet, k);
    }

    /** `get_key`: the key the cipher encrypts and decrypts with. */
    function GetKey(): (k: Bytes)
      requires Valid()
      ensures k == cipher.key
    {
      key
    }

    /**
     * `encrypt_file`: writes a fresh token for the input's bytes to the
     * output. A missing input re-raises `FileNotFoundError` before anything
     * is written; a failing write re-raises after part of the token is on
     * disk.
     */
    method EncryptFile(fs: Fs, inputPath: Path, outputPath: Path, iv: Bytes) returns (r: Outcome)
      modifies fs
      ensures fs.modes == old(fs.modes)
      ensures inputPath !in old(fs.files) ==> r == Raised(InputNotFound) && fs.files == old(fs.files)
      ensures inputPath in old(fs.files) && inputPath in fs.unreadable ==>
        r == Raised(IoFailure) && fs.files == old(fs.files)
      ensures inputPath in old(fs.files) && inputPath !in fs.unreadable ==>
        var token := cipher.Encrypt(iv, old(fs.files)[inputPath]);
        && outputPath in fs.files
        && fs.files == old(fs.files)[outputPath := fs.files[outputPath]]
        && fs.files[outputPath] <= token
        && (r == Done <==> outputPath !in fs.unwritable)
        && (r == Done ==> fs.files[outputPath] == token)
        && (r != Done ==> r == Raised(IoFailure))
    {
      var read := fs.ReadAll(inputPath);
      if read.NotFound? {
        return Raised(InputNotFound);
      } else if read.IoError? {
        return Raised(IoFailure);
      }
      var encrypted := cipher.Encrypt(iv, read.data);
      var written := fs.WriteAll(outputPath, encrypted);
      r := if written then Done else Raised(IoFailure);
    }

    /**
     * What `decrypt_file` recovers from `encryptedPath` in `files`: the
     * plaintext, or `None` for a missing or unreadable file or an invalid
     * token.
     */
    function Recover(fs: Fs, files: map<Path, Bytes>, encryptedPath: Path): (p: Option<Bytes>)
      ensures p.Some? <==> encryptedPath in files && encryptedPath !in fs.unreadable
                           && cipher.Decrypt(files[encryptedPath]).Some?
      ensures p.Some? ==> p == cipher.Decrypt(files[encryptedPath])
    {
      if encryptedPath in files && encryptedPath !in fs.unreadable then cipher.Decrypt(files[encryptedPath])
      else None
    }

    /**
     * `decrypt_file`: `False` for a missing or unreadable token file or an
     * invalid token, in which cases nothing is written; otherwise the
     * plaintext is written to the output, and a failing write also gives
     * `False`, after part of the plaintext is on disk.
     */
    method DecryptFile(fs: Fs, encryptedPath: Path, outputPath: Path) returns (ok: bool)
      modifies fs
      ensures fs.modes == old(fs.modes)
      ensures Recover(fs, old(fs.files), encryptedPath).None? ==> !ok && fs.files == old(fs.files)
      ensures Recover(fs, old(fs.files), encryptedPath).Some? ==>
        var plaintext := Recover(fs, old(fs.files), encryptedPath).value;
        && outputPath in fs.files
        && fs.files == old(fs.files)[outputPath := fs.files[outputPath]]
        && fs.files[outputPath] <= plaintext
        && (ok <==> outputPath !in fs.unwritable)
        && (ok ==> fs.files[outputPath] == plaintext)
    {
      var read := fs.ReadAll(encryptedPath);
      if !read.Read? {
        return false;
      }
      var decrypted := cipher.Decrypt(read.data);
      if decrypted.None? {
        return false;
      }
      ok := fs.WriteAll(outputPath, decrypted.value);
    }
  }

  /**
   * Constructing twice over the same key path gives the same key: the
   * second construction loads what the first one created or loaded.
   */
  method ConstructTwice(fs: Fs, keyPath: Path, fernet: Fernet, generated1: Bytes, generated2: Bytes)
    returns (first: FileEncryptor, second: FileEncryptor)
    requires keyPath !in fs.unreadable
    requires keyPath !in fs.files ==> keyPath !in fs.unwritable
    modifies fs
    ensures first.Valid() && second.Valid() && first.GetKey() == second.GetKey()
    ensures old(keyPath in fs.files) ==> first.key == old(fs.files[keyPath])
    ensures old(keyPath !in fs.files) ==> first.key == generated1
  {
    first := new FileEncryptor(fs, keyPath, fernet, generated1);
    second := new FileEncryptor(fs, keyPath, fernet, generated2);
  }

  /**
   * Encrypting a file and decrypting the result under the same key writes
   * the original bytes, when no I/O fails.
   */
  method EncryptThenDecrypt(e: FileEncryptor, fs: Fs, inputPath: Path, encryptedPath: Path,
                            outputPath: Path, iv: Bytes) returns (encrypted: Outcome, decrypted: bool)
    requires Authenticated(e.cipher.fernet)
    requires inputPath in fs.files && inputPath !in fs.unreadable
    requires encryptedPath !in fs.unreadable && encryptedPath !in fs.unwritable
    requires outputPath !in fs.unwritable
    modifies fs
    ensures encrypted == Done && decrypted
    ensures outputPath in fs.files && fs.files[outputPath] == old(fs.files[inputPath])
  {
    encrypted := e.EncryptFile(fs, inputPath, encryptedPath, iv);
    CipherRoundTrip(e.cipher, iv, old(fs.files[inputPath]));
    decrypted := e.DecryptFile(fs, encryptedPath, outputPath);
  }
}
