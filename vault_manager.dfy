/**
 * The orchestrator (`VaultManager`): the upload transaction (stage a copy,
 * hash it, encrypt it to a path derived from the hash, record it) and the
 * download transaction (look up, decrypt, verify the hash), over the file
 * system, the metadata store and the encryptor.
 */
module VaultManager {
  import opened Common
  import opened Library
  import opened FileSystem
  import opened ImageHasher
  import opened VaultDatabase
  import FE = FileEncryptor

  /** Python's `hash[:16]`: the first 16 characters, or all of a shorter string. */
  function Prefix16(hash: string): (p: string)
    ensures p <= hash && |p| == if |hash| < 16 then |hash| else 16
  {
    if |hash| < 16 then hash else hash[..16]
  }

  /** `f"{crypto_hash[:16]}.enc"`. */
  function BlobName(hash: string): (name: string)
    ensures |name| == |Prefix16(hash)| + 4
    ensures name[..|name| - 4] == Prefix16(hash) && name[|name| - 4..] == ".enc"
  {
    Prefix16(hash) + ".enc"
  }

  /** `os.path.join(encrypted_folder, f"{crypto_hash[:16]}.enc")`. */
  function BlobPath(encryptedFolder: Path, hash: string): (p: Path)
  {
    Join(encryptedFolder, BlobName(hash))
  }

  /**
   * For a 64-digit hex digest the blob lives directly in the encrypted
   * folder under the digest's first 16 digits, so two digests share a blob
   * path exactly when their first 16 digits agree.
   */
  lemma BlobPathShape(encryptedFolder: Path, h1: string, h2: string)
    requires encryptedFolder != "" && encryptedFolder[|encryptedFolder| - 1] != '/'
    requires |h1| == 64 && IsLowerHex(h1) && |h2| == 64 && IsLowerHex(h2)
    ensures BlobPath(encryptedFolder, h1) == encryptedFolder + "/" + h1[..16] + ".enc"
    ensures BlobPath(encryptedFolder, h1) == BlobPath(encryptedFolder, h2) <==> h1[..16] == h2[..16]
  {
    assert h1[0] != '/';
    assert h2[0] != '/';
    assert BlobName(h1)[0] != '/' && BlobName(h2)[0] != '/';
    var p1, p2 := BlobPath(encryptedFolder, h1), BlobPath(encryptedFolder, h2);
    if p1 == p2 {
      var n := |encryptedFolder| + 1;
      assert p1[n..n + 16] == h1[..16];
      assert p2[n..n + 16] == h2[..16];
    }
  }

  /**
   * A staged copy (or a file named after it, such as a scratch token) and a
   * blob never share a path: they sit in sibling folders.
   */
  lemma StagingIsNotBlob(basePath: Path, name: string, suffix: string, blobName: string)
    requires '/' !in name && '/' !in blobName
    ensures Join(Join(basePath, "uploads"), name) != Join(Join(basePath, "encrypted"), blobName)
    ensures Join(Join(basePath, "uploads"), name) + suffix != Join(Join(basePath, "encrypted"), blobName)
  {
    var b := if basePath == "" || basePath[|basePath| - 1] == '/' then basePath else basePath + "/";
    assert Join(basePath, "uploads") == b + "uploads";
    assert Join(basePath, "encrypted") == b + "encrypted";
    if name != [] { assert name[0] in name; }
    if blobName != [] { assert blobName[0] in blobName; }
    var staged := Join(b + "uploads", name);
    var blob := Join(b + "encrypted", blobName);
    assert staged == b + "uploads" + "/" + name;
    assert blob == b + "encrypted" + "/" + blobName;
    assert staged[|b|] == 'u' && blob[|b|] == 'e';
    assert (staged + suffix)[|b|] == 'u';
  }

  /** A blob name built from a lower-case hex digest has no separator in it. */
  lemma BlobNameIsComponent(hash: string)
    requires IsLowerHex(hash)
    ensures '/' !in BlobName(hash)
  {
    assert BlobName(hash) == Prefix16(hash) + ".enc";
  }

  /** Writing the staging path and then removing it leaves no trace of the write. */
  lemma StagedThenCleared(m: map<Path, Bytes>, t: Path, c: Bytes, b: Path, v: Bytes)
    requires b != t
    ensures m[t := c][b := v] - {t} == m[b := v] - {t}
    ensures m[t := c] - {b} - {t} == m - {b, t}
  {
  }

  /** Removing a path undoes any earlier write to it, and removing an absent path is a no-op. */
  lemma WrittenThenCleared(m: map<Path, Bytes>, t: Path, c: Bytes)
    ensures m[t := c] - {t} == m - {t}
    ensures t !in m ==> m - {t} == m
  {
  }

  /** The corrected upload's file-map algebra: staging and scratch both cleared, the blob in place. */
  lemma ScratchThenCleared(m: map<Path, Bytes>, t: Path, c: Bytes, s: Path, b: Path, v: Bytes)
    requires b != t && b != s
    ensures (m[t := c] - {s})[b := v] - {t} == m[b := v] - {t, s}
    ensures m[t := c] - {s} - {t} == m - {t, s}
  {
  }

  /** Every row points at the blob path its hash derives. */
  predicate Addressed(encryptedFolder: Path, rows: seq<FileRow>) {
    forall i :: 0 <= i < |rows| ==> rows[i].encryptedPath == BlobPath(encryptedFolder, rows[i].originalHash)
  }

  /** Appending a row stored at its own blob path keeps the rows addressed. */
  lemma AddressedAppend(encryptedFolder: Path, rows: seq<FileRow>, row: FileRow)
    requires Addressed(encryptedFolder, rows)
    requires row.encryptedPath == BlobPath(encryptedFolder, row.originalHash)
    ensures Addressed(encryptedFolder, rows + [row])
  {
    var r := rows + [row];
    forall i | 0 <= i < |r|
      ensures r[i].encryptedPath == BlobPath(encryptedFolder, r[i].originalHash)
    {
      if i < |rows| {
        assert r[i] == rows[i];
      }
    }
  }

  /** Removing two other paths keeps what is stored at this one. */
  lemma RemovingOthersKeeps(m: map<Path, Bytes>, a: Path, b: Path, k: Path)
    requires k != a && k != b
    ensures k in m ==> k in m - {a, b} && (m - {a, b})[k] == m[k]
    ensures k in m ==> k in m - {a} && (m - {a})[k] == m[k]
  {
  }

  class VaultManager {
    const basePath: Path
    const encryptedFolder: Path
    const uploadFolder: Path
    const encryptor: FE.FileEncryptor
    const db: Database
    const sha256: Sha256
    const dhash: DHash

    /** The folders hang off the base path, and the components are sound. */
    ghost predicate Valid()
      reads this, db
    {
      && encryptedFolder == Join(basePath, "encrypted")
      && uploadFolder == Join(basePath, "uploads")
      && db.Valid()
      && encryptor.Valid()
      && HexDigests(sha256)
    }

    /**
     * Every stored row points at the blob path its hash derives. Rows
     * inserted through the upload transaction keep this; `add_file` called
     * directly need not.
     */
    ghost predicate ContentAddressed()
      reads this, db
    {
      Addressed(encryptedFolder, db.files)
    }

    /**
     * `__init__`: the folder paths, the encryptor over `secret.key` and a
     * new metadata database. Directory creation is not modelled.
     */
    constructor (fs: Fs, basePath: Path, sha256: Sha256, dhash: DHash, fernet: Fernet, generatedKey: Bytes)
      requires HexDigests(sha256)
      requires Join(basePath, "secret.key") in fs.files ==> Join(basePath, "secret.key") !in fs.unreadable
      requires Join(basePath, "secret.key") !in fs.files ==> Join(basePath, "secret.key") !in fs.unwritable
      modifies fs
      ensures Valid() && ContentAddressed() && fresh(db) && fresh(encryptor)
      ensures this.basePath == basePath && this.sha256 == sha256 && this.dhash == dhash
      ensures encryptor.cipher.fernet == fernet && encryptor.keyPath == Join(basePath, "secret.key")
      ensures db.files == [] && db.scanResults == [] && db.fileSeq == 0 && db.scanSeq == 0
      ensures var keyPath := Join(basePath, "secret.key");
        old(keyPath in fs.files) ==>
          encryptor.key == old(fs.files[keyPath]) && fs.files == old(fs.files) && fs.modes == old(fs.modes)
      ensures var keyPath := Join(basePath, "secret.key");
        old(keyPath !in fs.files) ==>
          && encryptor.key == generatedKey
          && fs.files == old(fs.files)[keyPath := generatedKey]
          && fs.modes == old(fs.modes)[keyPath := FE.KeyFileMode]
      ensures Join(basePath, "secret.key") in fs.files && fs.files[Join(basePath, "secret.key")] == encryptor.key
    {
      this.basePath := basePath;
      encryptedFolder := Join(basePath, "encrypted");
      uploadFolder := Join(basePath, "uploads");
      encryptor := new FE.FileEncryptor(fs, Join(basePath, "secret.key"), fernet, generatedKey);
      db := new Database();
      this.sha256 := sha256;
      this.dhash := dhash;
    }

    /** `temp_path`: where a source file is staged. */
    function StagingPath(filePath: Path): (p: Path)
      ensures Basename(filePath) != "" && uploadFolder != "" && uploadFolder[|uploadFolder| - 1] != '/' ==>
        p == uploadFolder + "/" + Basename(filePath)
    {
      Join(uploadFolder, Basename(filePath))
    }

    /** `shutil.copy(file_path, temp_path)` succeeds. */
    ghost predicate CopySucceeds(fs: Fs, files: map<Path, Bytes>, filePath: Path) {
      && filePath in files
      && filePath != StagingPath(filePath)
      && filePath !in fs.unreadable
      && StagingPath(filePath) !in fs.unwritable
    }

    /** The staged copy is hashed: the copy succeeded and the copy can be read. */
    ghost predicate HashSucceeds(fs: Fs, files: map<Path, Bytes>, filePath: Path) {
      CopySucceeds(fs, files, filePath) && StagingPath(filePath) !in fs.unreadable
    }

    /** The staged copy is hashed and its token reaches the blob path. */
    ghost predicate EncryptSucceeds(fs: Fs, files: map<Path, Bytes>, filePath: Path)
      requires filePath in files
    {
      HashSucceeds(fs, files, filePath) && BlobPath(encryptedFolder, sha256(files[filePath])) !in fs.unwritable
    }

    /**
     * Steps 3 and 4 of `upload_and_encrypt` on a staged copy whose hash is
     * known: encrypt it to the blob path, insert the row, and on a
     * duplicate remove the blob path.
     */
    method EncryptAndRecord(fs: Fs, tempPath: Path, filename: string, cryptoHash: string,
                            perceptualHash: Option<string>, now: Timestamp, iv: Bytes)
      returns (fileId: Option<int>)
      requires Valid()
      requires tempPath in fs.files && tempPath !in fs.unreadable
      requires tempPath != BlobPath(encryptedFolder, cryptoHash)
      modifies fs, db
      ensures Valid()
      ensures fs.modes == old(fs.modes) && db.scanResults == old(db.scanResults) && db.scanSeq == old(db.scanSeq)
      ensures old(ContentAddressed()) ==> ContentAddressed()
      ensures
        var blob := BlobPath(encryptedFolder, cryptoHash);
        var token := encryptor.cipher.Encrypt(iv, old(fs.files)[tempPath]);
        && (fileId.Some? <==> blob !in fs.unwritable && !HasHash(old(db.files), cryptoHash))
        && (fileId.None? ==> db.files == old(db.files) && db.fileSeq == old(db.fileSeq))
        && (fileId.Some? ==>
              && fileId.value == old(db.fileSeq) + 1 == db.fileSeq
              && db.files == old(db.files) + [FileRow(fileId.value, filename, cryptoHash, perceptualHash, blob, now, None)]
              && fs.files == old(fs.files)[blob := token])
        && (blob !in fs.unwritable && HasHash(old(db.files), cryptoHash) ==> fs.files == old(fs.files) - {blob})
        && (blob in fs.unwritable ==>
              blob in fs.files && fs.files[blob] <= token && fs.files == old(fs.files)[blob := fs.files[blob]])
    {
      var encryptedPath := BlobPath(encryptedFolder, cryptoHash);
      ghost var before := fs.files;
      var encrypted := encryptor.EncryptFile(fs, tempPath, encryptedPath, iv);
      if encrypted != FE.Done {
        return None;
      }
      ghost var rows := db.files;
      fileId := db.AddFile(filename, cryptoHash, perceptualHash, encryptedPath, now);
      if fileId.None? {
        WrittenThenCleared(before, encryptedPath, fs.files[encryptedPath]);
        fs.Remove(encryptedPath);
      } else if Addressed(encryptedFolder, rows) {
        AddressedAppend(encryptedFolder, rows, db.files[|rows|]);
        assert db.files == rows + [db.files[|rows|]];
      }
    }

    /**
     * Steps 2 to 4 of `upload_and_encrypt` on a staged copy: hash it, then
     * encrypt and record it. Stated in terms of the staged bytes.
     */
    method HashAndStore(fs: Fs, tempPath: Path, filename: string, now: Timestamp, iv: Bytes)
      returns (fileId: Option<int>)
      requires Valid()
      requires tempPath in fs.files && tempPath == Join(uploadFolder, filename) && '/' !in filename
      modifies fs, db
      ensures Valid()
      ensures fs.modes == old(fs.modes) && db.scanResults == old(db.scanResults) && db.scanSeq == old(db.scanSeq)
      ensures old(ContentAddressed()) ==> ContentAddressed()
      ensures tempPath in fs.unreadable ==>
        fileId == None && fs.files == old(fs.files) && db.files == old(db.files) && db.fileSeq == old(db.fileSeq)
      ensures tempPath !in fs.unreadable ==>
        var c := old(fs.files)[tempPath];
        var blob := BlobPath(encryptedFolder, sha256(c));
        var token := encryptor.cipher.Encrypt(iv, c);
        && blob != tempPath
        && (fileId.Some? <==> blob !in fs.unwritable && !HasHash(old(db.files), sha256(c)))
        && (fileId.None? ==> db.files == old(db.files) && db.fileSeq == old(db.fileSeq))
        && (fileId.Some? ==>
              && fileId.value == old(db.fileSeq) + 1 == db.fileSeq
              && db.files == old(db.files) + [FileRow(fileId.value, filename, sha256(c), dhash(c), blob, now, None)]
              && fs.files == old(fs.files)[blob := token])
        && (blob !in fs.unwritable && HasHash(old(db.files), sha256(c)) ==> fs.files == old(fs.files) - {blob})
        && (blob in fs.unwritable ==>
              blob in fs.files && fs.files[blob] <= token && fs.files == old(fs.files)[blob := fs.files[blob]])
    {
      var cryptoHash := GetCryptographicHash(fs, sha256, tempPath);
      if cryptoHash.None? || cryptoHash.value == "" {
        return None;
      }
      var perceptualHash := GetPerceptualHash(fs, dhash, tempPath);
      BlobNameIsComponent(cryptoHash.value);
      StagingIsNotBlob(basePath, filename, "", BlobName(cryptoHash.value));
      fileId := EncryptAndRecord(fs, tempPath, filename, cryptoHash.value, perceptualHash, now, iv);
    }

    /**
     * The `try` block of `upload_and_encrypt` on an existing source: stage a
     * copy, then hash, encrypt and record it. The outcome on the file system
     * is stated up to the staging path, which the `finally` block removes.
     */
    method StageAndStore(fs: Fs, filePath: Path, tempPath: Path, originalFilename: string,
                         now: Timestamp, iv: Bytes) returns (fileId: Option<int>)
      requires Valid() && filePath in fs.files
      requires originalFilename == Basename(filePath) && tempPath == StagingPath(filePath)
      modifies fs, db
      ensures Valid()
      ensures fs.modes == old(fs.modes) && db.scanResults == old(db.scanResults) && db.scanSeq == old(db.scanSeq)
      ensures old(ContentAddressed()) ==> ContentAddressed()
      ensures fileId.Some? <==>
        EncryptSucceeds(fs, old(fs.files), filePath) && !HasHash(old(db.files), sha256(old(fs.files)[filePath]))
      ensures fileId.None? ==> db.files == old(db.files) && db.fileSeq == old(db.fileSeq)
      ensures fileId.Some? ==>
        var content := old(fs.files)[filePath];
        var blob := BlobPath(encryptedFolder, sha256(content));
        && fileId.value == old(db.fileSeq) + 1 == db.fileSeq
        && db.files == old(db.files) + [FileRow(fileId.value, originalFilename, sha256(content),
                                                dhash(content), blob, now, None)]
        && fs.files - {tempPath} == old(fs.files)[blob := encryptor.cipher.Encrypt(iv, content)] - {tempPath}
      ensures EncryptSucceeds(fs, old(fs.files), filePath) && HasHash(old(db.files), sha256(old(fs.files)[filePath])) ==>
        var blob := BlobPath(encryptedFolder, sha256(old(fs.files)[filePath]));
        fs.files - {tempPath} == old(fs.files) - {blob, tempPath}
      ensures HashSucceeds(fs, old(fs.files), filePath) && !EncryptSucceeds(fs, old(fs.files), filePath) ==>
        var content := old(fs.files)[filePath];
        var blob := BlobPath(encryptedFolder, sha256(content));
        && blob != tempPath && blob in fs.files && fs.files[blob] <= encryptor.cipher.Encrypt(iv, content)
        && fs.files - {tempPath} == old(fs.files)[blob := fs.files[blob]] - {tempPath}
      ensures !HashSucceeds(fs, old(fs.files), filePath) ==> fileId == None && fs.files - {tempPath} == old(fs.files) - {tempPath}
    {
      ghost var before := fs.files;
      ghost var content := before[filePath];
      var copied := fs.Copy(filePath, tempPath);
      assert copied <==> CopySucceeds(fs, before, filePath);
      if copied {
        assert fs.files == before[tempPath := content];
        fileId := HashAndStore(fs, tempPath, originalFilename, now, iv);
        var blob := BlobPath(encryptedFolder, sha256(content));
        if tempPath !in fs.unreadable {
          assert HashSucceeds(fs, before, filePath);
          assert EncryptSucceeds(fs, before, filePath) <==> blob !in fs.unwritable;
          var token := encryptor.cipher.Encrypt(iv, content);
          if fileId.Some? {
            StagedThenCleared(before, tempPath, content, blob, token);
            assert fs.files - {tempPath} == before[blob := token] - {tempPath};
          } else if blob !in fs.unwritable {
            StagedThenCleared(before, tempPath, content, blob, token);
            assert fs.files - {tempPath} == before - {blob, tempPath};
          } else {
            StagedThenCleared(before, tempPath, content, blob, fs.files[blob]);
            assert fs.files - {tempPath} == before[blob := fs.files[blob]] - {tempPath};
          }
        } else {
          assert !HashSucceeds(fs, before, filePath);
          WrittenThenCleared(before, tempPath, content);
          assert fs.files - {tempPath} == before - {tempPath};
        }
      } else {
        assert !HashSucceeds(fs, before, filePath);
        fileId := None;
        if tempPath in fs.files {
          WrittenThenCleared(before, tempPath, fs.files[tempPath]);
        } else {
          WrittenThenCleared(before, tempPath, []);
        }
        assert fs.files - {tempPath} == before - {tempPath};
      }
    }

    /**
     * `upload_and_encrypt`. Returns the new row's id, or `None` when the
     * source is missing, staging, hashing or encryption fails, or the
     * content is already in the vault. The staged copy is gone on every
     * exit. A duplicate has the same blob path as the entry already stored,
     * and the rollback removes that path; a failed encryption leaves part
     * of a token at the blob path.
     */
    method UploadAndEncrypt(fs: Fs, filePath: Path, now: Timestamp, iv: Bytes) returns (fileId: Option<int>)
      requires Valid()
      modifies fs, db
      ensures Valid()
      ensures fs.modes == old(fs.modes) && db.scanResults == old(db.scanResults) && db.scanSeq == old(db.scanSeq)
      ensures old(ContentAddressed()) ==> ContentAddressed()
      // a missing source changes nothing
      ensures filePath !in old(fs.files) ==>
        fileId == None && fs.files == old(fs.files) && db.files == old(db.files) && db.fileSeq == old(db.fileSeq)
      // the staged copy never survives the call
      ensures filePath in old(fs.files) ==> StagingPath(filePath) !in fs.files
      // success exactly when every step succeeds and the hash is new
      ensures fileId.Some? <==>
        filePath in old(fs.files) && EncryptSucceeds(fs, old(fs.files), filePath)
        && !HasHash(old(db.files), sha256(old(fs.files)[filePath]))
      ensures fileId.None? ==> db.files == old(db.files) && db.fileSeq == old(db.fileSeq)
      ensures fileId.Some? ==>
        var content := old(fs.files)[filePath];
        var blob := BlobPath(encryptedFolder, sha256(content));
        && fileId.value == old(db.fileSeq) + 1 == db.fileSeq
        && db.files == old(db.files) + [FileRow(fileId.value, Basename(filePath), sha256(content),
                                                dhash(content), blob, now, None)]
        && fs.files == old(fs.files)[blob := encryptor.cipher.Encrypt(iv, content)] - {StagingPath(filePath)}
      // a duplicate: the blob path is removed
      ensures filePath in old(fs.files) && EncryptSucceeds(fs, old(fs.files), filePath)
              && HasHash(old(db.files), sha256(old(fs.files)[filePath])) ==>
        var blob := BlobPath(encryptedFolder, sha256(old(fs.files)[filePath]));
        fileId == None && fs.files == old(fs.files) - {blob, StagingPath(filePath)}
      // a failed encryption: part of a token stays at the blob path
      ensures filePath in old(fs.files) && HashSucceeds(fs, old(fs.files), filePath)
              && !EncryptSucceeds(fs, old(fs.files), filePath) ==>
        var content := old(fs.files)[filePath];
        var blob := BlobPath(encryptedFolder, sha256(content));
        && fileId == None
        && blob in fs.files && fs.files[blob] <= encryptor.cipher.Encrypt(iv, content)
        && fs.files == old(fs.files)[blob := fs.files[blob]] - {StagingPath(filePath)}
      // staging or hashing fails: only the staging path is gone
      ensures filePath in old(fs.files) && !HashSucceeds(fs, old(fs.files), filePath) ==>
        fileId == None && fs.files == old(fs.files) - {StagingPath(filePath)}
    {
      if !fs.Exists(filePath) {
        return None;
      }
      var originalFilename := Basename(filePath);
      var tempPath := Join(uploadFolder, originalFilename);
      fileId := StageAndStore(fs, filePath, tempPath, originalFilename, now, iv);
      ghost var staged := fs.files;
      label Staged:
      if fs.Exists(tempPath) {
        fs.Remove(tempPath);
      } else {
        WrittenThenCleared(staged, tempPath, []);
      }
      assert fs.files == staged - {tempPath} && unchanged@Staged(db);
    }

    /**
     * `download_and_decrypt`: looks the row up, decrypts its blob to the
     * output path and re-hashes what was written. A digest that differs
     * from the recorded one (or an output that cannot be read back) removes
     * the output and gives `False`. Creating the output's directory is not
     * modelled.
     */
    method DownloadAndDecrypt(fs: Fs, fileId: int, outputPath: Path) returns (ok: bool)
      requires Valid()
      modifies fs
      ensures Valid()
      ensures fs.modes == old(fs.modes)
      ensures db.GetFile(fileId).None? ==> !ok && fs.files == old(fs.files)
      ensures db.GetFile(fileId).Some? ==>
        var row := db.GetFile(fileId).value;
        var recovered := encryptor.Recover(fs, old(fs.files), row.encryptedPath);
        && (recovered.None? ==> !ok && fs.files == old(fs.files))
        && (recovered.Some? ==>
              && (ok <==> outputPath !in fs.unwritable && outputPath !in fs.unreadable
                          && sha256(recovered.value) == row.originalHash)
              && (ok ==> fs.files == old(fs.files)[outputPath := recovered.value])
              && (outputPath in fs.unwritable ==>
                    && outputPath in fs.files && fs.files[outputPath] <= recovered.value
                    && fs.files == old(fs.files)[outputPath := fs.files[outputPath]])
              && (!ok && outputPath !in fs.unwritable ==> fs.files == old(fs.files) - {outputPath}))
      // a reported success leaves bytes whose digest is the recorded one
      ensures ok ==> db.GetFile(fileId).Some? && outputPath in fs.files
                     && sha256(fs.files[outputPath]) == db.GetFile(fileId).value.originalHash
    {
      var fileInfo := db.GetFile(fileId);
      if fileInfo.None? {
        return false;
      }
      var encryptedPath := fileInfo.value.encryptedPath;
      var originalHash := fileInfo.value.originalHash;
      ghost var before := fs.files;
      ghost var recovered := encryptor.Recover(fs, before, encryptedPath);
      var decrypted := encryptor.DecryptFile(fs, encryptedPath, outputPath);
      assert fileInfo == db.GetFile(fileId);
      if !decrypted {
        return false;
      }
      assert fs.files == before[outputPath := recovered.value];
      var decryptedHash := GetCryptographicHash(fs, sha256, outputPath);
      if decryptedHash == Some(originalHash) {
        return true;
      }
      WrittenThenCleared(before, outputPath, fs.files[outputPath]);
      fs.Remove(outputPath);
      return false;
    }

    /**
     * Corrected `download_and_decrypt`: decrypts to a scratch file beside the
     * output, re-hashes the scratch file, and renames it onto the output only
     * when its digest is the recorded one. Every other exit after the lookup
     * removes the scratch file, so a failed download never leaves a partial
     * or corrupt plaintext at the output path.
     */
    method DownloadAndDecryptSafely(fs: Fs, fileId: int, outputPath: Path) returns (ok: bool)
      requires Valid()
      modifies fs
      ensures Valid()
      ensures fs.modes == old(fs.modes)
      ensures db.GetFile(fileId).None? ==> !ok && fs.files == old(fs.files)
      ensures db.GetFile(fileId).Some? ==>
        var row := db.GetFile(fileId).value;
        var scratch := outputPath + ".part";
        var recovered := encryptor.Recover(fs, old(fs.files), row.encryptedPath);
        && (ok <==> recovered.Some? && scratch !in fs.unwritable && scratch !in fs.unreadable
                    && sha256(recovered.value) == row.originalHash)
        && (ok ==> fs.files == (old(fs.files) - {scratch})[outputPath := recovered.value])
        && (!ok ==> fs.files == old(fs.files) - {scratch})
      ensures ok ==> db.GetFile(fileId).Some? && outputPath in fs.files
                     && sha256(fs.files[outputPath]) == db.GetFile(fileId).value.originalHash
    {
      var fileInfo := db.GetFile(fileId);
      if fileInfo.None? {
        return false;
      }
      var encryptedPath := fileInfo.value.encryptedPath;
      var originalHash := fileInfo.value.originalHash;
      var scratchPath := outputPath + ".part";
      assert scratchPath != outputPath by { assert |scratchPath| == |outputPath| + 5; }
      ghost var before := fs.files;
      ghost var recovered := encryptor.Recover(fs, before, encryptedPath);
      var decrypted := encryptor.DecryptFile(fs, encryptedPath, scratchPath);
      assert fileInfo == db.GetFile(fileId);
      if !decrypted {
        if fs.Exists(scratchPath) {
          WrittenThenCleared(before, scratchPath, fs.files[scratchPath]);
          fs.Remove(scratchPath);
        } else {
          WrittenThenCleared(before, scratchPath, []);
        }
        return false;
      }
      assert fs.files == before[scratchPath := recovered.value];
      var decryptedHash := GetCryptographicHash(fs, sha256, scratchPath);
      WrittenThenCleared(before, scratchPath, recovered.value);
      if decryptedHash == Some(originalHash) {
        fs.Rename(scratchPath, outputPath);
        return true;
      }
      fs.Remove(scratchPath);
      return false;
    }

    /**
     * Where the corrected upload writes a token before it is moved to the
     * blob path: next to the staged copy, which it never overwrites.
     */
    function ScratchPath(filePath: Path): (p: Path)
      ensures p != StagingPath(filePath)
    {
      StagingPath(filePath) + ".enc"
    }

    /**
     * Corrected steps 3 and 4: encrypt to the scratch path, insert the row,
     * and only then move the token to the blob path. A failed write or a
     * duplicate removes the scratch file and leaves the blob path alone.
     */
    method EncryptAndRecordSafely(fs: Fs, tempPath: Path, filename: string, cryptoHash: string,
                                  perceptualHash: Option<string>, now: Timestamp, iv: Bytes)
      returns (fileId: Option<int>)
      requires Valid()
      requires tempPath in fs.files && tempPath !in fs.unreadable
      requires BlobPath(encryptedFolder, cryptoHash) != tempPath + ".enc"
      modifies fs, db
      ensures Valid()
      ensures fs.modes == old(fs.modes) && db.scanResults == old(db.scanResults) && db.scanSeq == old(db.scanSeq)
      ensures old(ContentAddressed()) ==> ContentAddressed()
      ensures
        var blob := BlobPath(encryptedFolder, cryptoHash);
        var scratch := tempPath + ".enc";
        var token := encryptor.cipher.Encrypt(iv, old(fs.files)[tempPath]);
        && (fileId.Some? <==> scratch !in fs.unwritable && !HasHash(old(db.files), cryptoHash))
        && (fileId.None? ==> db.files == old(db.files) && db.fileSeq == old(db.fileSeq)
                             && fs.files == old(fs.files) - {scratch})
        && (fileId.Some? ==>
              && fileId.value == old(db.fileSeq) + 1 == db.fileSeq
              && db.files == old(db.files) + [FileRow(fileId.value, filename, cryptoHash, perceptualHash, blob, now, None)]
              && fs.files == (old(fs.files) - {scratch})[blob := token])
    {
      var encryptedPath := BlobPath(encryptedFolder, cryptoHash);
      var scratchPath := tempPath + ".enc";
      assert scratchPath != tempPath by { assert |scratchPath| == |tempPath| + 4; }
      ghost var before := fs.files;
      var encrypted := encryptor.EncryptFile(fs, tempPath, scratchPath, iv);
      if encrypted != FE.Done {
        WrittenThenCleared(before, scratchPath, fs.files[scratchPath]);
        fs.Remove(scratchPath);
        return None;
      }
      WrittenThenCleared(before, scratchPath, fs.files[scratchPath]);
      ghost var rows := db.files;
      fileId := db.AddFile(filename, cryptoHash, perceptualHash, encryptedPath, now);
      if fileId.None? {
        fs.Remove(scratchPath);
        return None;
      }
      if Addressed(encryptedFolder, rows) {
        AddressedAppend(encryptedFolder, rows, db.files[|rows|]);
        assert db.files == rows + [db.files[|rows|]];
      }
      fs.Rename(scratchPath, encryptedPath);
    }

    /** Corrected steps 2 to 4 on a staged copy. */
    method HashAndStoreSafely(fs: Fs, tempPath: Path, filename: string, now: Timestamp, iv: Bytes)
      returns (fileId: Option<int>)
      requires Valid()
      requires tempPath in fs.files && tempPath == Join(uploadFolder, filename) && '/' !in filename
      modifies fs, db
      ensures Valid()
      ensures fs.modes == old(fs.modes) && db.scanResults == old(db.scanResults) && db.scanSeq == old(db.scanSeq)
      ensures old(ContentAddressed()) ==> ContentAddressed()
      ensures tempPath in fs.unreadable ==>
        fileId == None && fs.files == old(fs.files) && db.files == old(db.files) && db.fileSeq == old(db.fileSeq)
      ensures tempPath !in fs.unreadable ==>
        var c := old(fs.files)[tempPath];
        var blob := BlobPath(encryptedFolder, sha256(c));
        var scratch := tempPath + ".enc";
        && blob != tempPath && blob != scratch
        && (fileId.Some? <==> scratch !in fs.unwritable && !HasHash(old(db.files), sha256(c)))
        && (fileId.None? ==> db.files == old(db.files) && db.fileSeq == old(db.fileSeq)
                             && fs.files == old(fs.files) - {scratch})
        && (fileId.Some? ==>
              && fileId.value == old(db.fileSeq) + 1 == db.fileSeq
              && db.files == old(db.files) + [FileRow(fileId.value, filename, sha256(c), dhash(c), blob, now, None)]
              && fs.files == (old(fs.files) - {scratch})[blob := encryptor.cipher.Encrypt(iv, c)])
    {
      var cryptoHash := GetCryptographicHash(fs, sha256, tempPath);
      if cryptoHash.None? || cryptoHash.value == "" {
        return None;
      }
      var perceptualHash := GetPerceptualHash(fs, dhash, tempPath);
      BlobNameIsComponent(cryptoHash.value);
      StagingIsNotBlob(basePath, filename, ".enc", BlobName(cryptoHash.value));
      fileId := EncryptAndRecordSafely(fs, tempPath, filename, cryptoHash.value, perceptualHash, now, iv);
    }

    /**
     * The corrected `try` block on an existing source, stated up to the
     * staging path. A source that is the staging path itself is refused by
     * the copy and nothing changes.
     */
    method StageAndStoreSafely(fs: Fs, filePath: Path, tempPath: Path, originalFilename: string,
                               now: Timestamp, iv: Bytes) returns (fileId: Option<int>)
      requires Valid() && filePath in fs.files
      requires originalFilename == Basename(filePath) && tempPath == StagingPath(filePath)
      modifies fs, db
      ensures Valid()
      ensures fs.modes == old(fs.modes) && db.scanResults == old(db.scanResults) && db.scanSeq == old(db.scanSeq)
      ensures old(ContentAddressed()) ==> ContentAddressed()
      ensures filePath == tempPath ==> fileId == None && fs.files == old(fs.files)
      ensures fileId.Some? <==>
        HashSucceeds(fs, old(fs.files), filePath)
        && ScratchPath(filePath) !in fs.unwritable && !HasHash(old(db.files), sha256(old(fs.files)[filePath]))
      ensures fileId.None? ==> db.files == old(db.files) && db.fileSeq == old(db.fileSeq)
      ensures fileId.Some? ==>
        var content := old(fs.files)[filePath];
        var blob := BlobPath(encryptedFolder, sha256(content));
        && fileId.value == old(db.fileSeq) + 1 == db.fileSeq
        && db.files == old(db.files) + [FileRow(fileId.value, originalFilename, sha256(content),
                                                dhash(content), blob, now, None)]
        && fs.files - {tempPath} == old(fs.files)[blob := encryptor.cipher.Encrypt(iv, content)]
                                    - {tempPath, ScratchPath(filePath)}
      ensures HashSucceeds(fs, old(fs.files), filePath) && fileId.None? ==>
        fs.files - {tempPath} == old(fs.files) - {tempPath, ScratchPath(filePath)}
      ensures filePath != tempPath && !HashSucceeds(fs, old(fs.files), filePath) ==>
        fileId == None && fs.files - {tempPath} == old(fs.files) - {tempPath}
    {
      ghost var before := fs.files;
      ghost var content := before[filePath];
      ghost var scratch := tempPath + ".enc";
      assert scratch == ScratchPath(filePath);
      var copied := fs.Copy(filePath, tempPath);
      assert copied <==> CopySucceeds(fs, before, filePath);
      if copied {
        assert fs.files == before[tempPath := content];
        fileId := HashAndStoreSafely(fs, tempPath, originalFilename, now, iv);
        var blob := BlobPath(encryptedFolder, sha256(content));
        if tempPath !in fs.unreadable {
          assert HashSucceeds(fs, before, filePath);
          ScratchThenCleared(before, tempPath, content, scratch, blob, encryptor.cipher.Encrypt(iv, content));
          if fileId.Some? {
            assert fs.files == (before[tempPath := content] - {scratch})[blob := encryptor.cipher.Encrypt(iv, content)];
          } else {
            assert fs.files == before[tempPath := content] - {scratch};
          }
        } else {
          WrittenThenCleared(before, tempPath, content);
        }
      } else {
        fileId := None;
        if tempPath in fs.files {
          WrittenThenCleared(before, tempPath, fs.files[tempPath]);
        } else {
          WrittenThenCleared(before, tempPath, []);
        }
      }
    }

    /**
     * `upload_and_encrypt` with both defects repaired: the token goes to a
     * scratch path first, so a rejected upload never touches a stored blob,
     * and the staged copy is cleared only when it is not the caller's own
     * file.
     */
    method UploadAndEncryptSafely(fs: Fs, filePath: Path, now: Timestamp, iv: Bytes) returns (fileId: Option<int>)
      requires Valid()
      modifies fs, db
      ensures Valid()
      ensures fs.modes == old(fs.modes) && db.scanResults == old(db.scanResults) && db.scanSeq == old(db.scanSeq)
      ensures old(ContentAddressed()) ==> ContentAddressed()
      ensures filePath !in old(fs.files) ==>
        fileId == None && fs.files == old(fs.files) && db.files == old(db.files) && db.fileSeq == old(db.fileSeq)
      // a source that already is the staging path is left alone
      ensures filePath == StagingPath(filePath) ==>
        fileId == None && fs.files == old(fs.files) && db.files == old(db.files) && db.fileSeq == old(db.fileSeq)
      ensures fileId.Some? <==>
        filePath in old(fs.files) && HashSucceeds(fs, old(fs.files), filePath)
        && ScratchPath(filePath) !in fs.unwritable && !HasHash(old(db.files), sha256(old(fs.files)[filePath]))
      ensures fileId.None? ==> db.files == old(db.files) && db.fileSeq == old(db.fileSeq)
      ensures fileId.Some? ==>
        var content := old(fs.files)[filePath];
        var blob := BlobPath(encryptedFolder, sha256(content));
        && fileId.value == old(db.fileSeq) + 1 == db.fileSeq
        && db.files == old(db.files) + [FileRow(fileId.value, Basename(filePath), sha256(content),
                                                dhash(content), blob, now, None)]
        && fs.files == old(fs.files)[blob := encryptor.cipher.Encrypt(iv, content)]
                       - {StagingPath(filePath), ScratchPath(filePath)}
      // a rejection after hashing clears only the staging and scratch paths
      ensures filePath in old(fs.files) && HashSucceeds(fs, old(fs.files), filePath) && fileId.None? ==>
        fs.files == old(fs.files) - {StagingPath(filePath), ScratchPath(filePath)}
      // staging or hashing fails: only the staging copy is gone, unless it is the source itself
      ensures filePath in old(fs.files) && filePath != StagingPath(filePath) && !HashSucceeds(fs, old(fs.files), filePath) ==>
        fileId == None && fs.files == old(fs.files) - {StagingPath(filePath)}
    {
      if !fs.Exists(filePath) {
        return None;
      }
      var originalFilename := Basename(filePath);
      var tempPath := Join(uploadFolder, originalFilename);
      fileId := StageAndStoreSafely(fs, filePath, tempPath, originalFilename, now, iv);
      ghost var staged := fs.files;
      label Staged:
      if tempPath != filePath && fs.Exists(tempPath) {
        fs.Remove(tempPath);
      } else if tempPath != filePath {
        WrittenThenCleared(staged, tempPath, []);
      }
      assert tempPath != filePath ==> fs.files == staged - {tempPath};
      assert unchanged@Staged(db);
    }

    /** `get_file_info`: the row with this id as a record, or `None`. */
    function GetFileInfo(fileId: int): (info: Option<FileRow>)
      reads this, db
      requires Valid()
      ensures info.Some? ==> info.value.id == fileId && info.value in db.files
      ensures info.None? <==> forall i :: 0 <= i < |db.files| ==> db.files[i].id != fileId
    {
      db.GetFile(fileId)
    }
  }

  /**
   * Downloading an entry whose blob decrypts to bytes with the recorded
   * digest writes exactly those bytes, when the output can be written and
   * read back.
   */
  method DownloadIntact(vault: VaultManager, fs: Fs, fileId: int, outputPath: Path, ghost content: Bytes)
    returns (downloaded: bool)
    requires vault.Valid() && vault.db.GetFile(fileId).Some?
    requires vault.encryptor.Recover(fs, fs.files, vault.db.GetFile(fileId).value.encryptedPath) == Some(content)
    requires vault.sha256(content) == vault.db.GetFile(fileId).value.originalHash
    requires outputPath !in fs.unreadable && outputPath !in fs.unwritable
    modifies fs
    ensures downloaded && outputPath in fs.files && fs.files[outputPath] == content
  {
    downloaded := vault.DownloadAndDecrypt(fs, fileId, outputPath);
  }

  /** Downloading an entry whose blob is gone fails and writes nothing. */
  method DownloadMissingBlob(vault: VaultManager, fs: Fs, fileId: int, outputPath: Path)
    returns (downloaded: bool)
    requires vault.Valid() && vault.db.GetFile(fileId).Some?
    requires vault.db.GetFile(fileId).value.encryptedPath !in fs.files
    modifies fs
    ensures !downloaded && fs.files == old(fs.files)
  {
    downloaded := vault.DownloadAndDecrypt(fs, fileId, outputPath);
  }

  /**
   * Uploading a file and downloading the id it was given writes the file's
   * original bytes, when every read and write succeeds and the content is
   * new to the vault.
   */
  method UploadThenDownload(vault: VaultManager, fs: Fs, filePath: Path, outputPath: Path, now: Timestamp, iv: Bytes)
    returns (fileId: Option<int>, downloaded: bool)
    requires vault.Valid() && Authenticated(vault.encryptor.cipher.fernet)
    requires filePath in fs.files && vault.EncryptSucceeds(fs, fs.files, filePath)
    requires !HasHash(vault.db.files, vault.sha256(fs.files[filePath]))
    requires BlobPath(vault.encryptedFolder, vault.sha256(fs.files[filePath])) !in fs.unreadable
    requires outputPath !in fs.unreadable && outputPath !in fs.unwritable
    modifies fs, vault.db
    ensures fileId.Some? && downloaded
    ensures outputPath in fs.files && fs.files[outputPath] == old(fs.files[filePath])
  {
    ghost var content := fs.files[filePath];
    ghost var rows := vault.db.files;
    ghost var hash := vault.sha256(content);
    ghost var blob := BlobPath(vault.encryptedFolder, hash);
    BlobNameIsComponent(hash);
    StagingIsNotBlob(vault.basePath, Basename(filePath), "", BlobName(hash));
    ghost var staging := vault.StagingPath(filePath);
    ghost var token := vault.encryptor.cipher.Encrypt(iv, content);
    assert staging != blob;
    ghost var before := fs.files;
    fileId := vault.UploadAndEncrypt(fs, filePath, now, iv);
    assert fs.files == before[blob := token] - {staging};
    RemovingOthersKeeps(before[blob := token], staging, staging, blob);
    ghost var row := vault.db.files[|rows|];
    assert vault.db.files == rows + [row];
    assert row.encryptedPath == blob && row.originalHash == hash;
    FindAppended(rows, row);
    assert vault.db.GetFile(fileId.value) == Some(row);
    FE.CipherRoundTrip(vault.encryptor.cipher, iv, content);
    assert vault.encryptor.Recover(fs, fs.files, blob) == Some(content);
    downloaded := DownloadIntact(vault, fs, fileId.value, outputPath, content);
  }

  /**
   * Uploading content the vault already holds is rejected, and the rollback
   * removes the blob path the stored entry points at, while the entry stays
   * in the database.
   */
  method UploadDuplicate(vault: VaultManager, fs: Fs, filePath: Path, existingId: int, now: Timestamp, iv: Bytes)
    returns (fileId: Option<int>)
    requires vault.Valid() && vault.ContentAddressed()
    requires filePath in fs.files && vault.EncryptSucceeds(fs, fs.files, filePath)
    requires vault.db.GetFile(existingId).Some?
    requires vault.db.GetFile(existingId).value.originalHash == vault.sha256(fs.files[filePath])
    modifies fs, vault.db
    ensures vault.Valid() && fileId == None
    ensures vault.db.files == old(vault.db.files) && vault.db.fileSeq == old(vault.db.fileSeq)
    ensures vault.db.scanResults == old(vault.db.scanResults) && vault.db.scanSeq == old(vault.db.scanSeq)
    ensures vault.db.GetFile(existingId).Some?
            && vault.db.GetFile(existingId).value.encryptedPath !in fs.files
  {
    ghost var row := vault.db.GetFile(existingId).value;
    ghost var i :| 0 <= i < |vault.db.files| && vault.db.files[i] == row;
    assert HasHash(vault.db.files, vault.sha256(fs.files[filePath]));
    ghost var rows := vault.db.files;
    fileId := vault.UploadAndEncrypt(fs, filePath, now, iv);
    assert fileId == None && vault.db.files == rows;
    assert row.encryptedPath !in fs.files;
  }

  /**
   * Uploading content the vault already holds is rejected, but the rollback
   * removes the blob path the stored entry points at: the entry stays in
   * the database and can no longer be downloaded.
   */
  method DuplicateUploadLosesStoredEntry(vault: VaultManager, fs: Fs, filePath: Path, existingId: int,
                                         outputPath: Path, now: Timestamp, iv: Bytes)
    returns (fileId: Option<int>, downloaded: bool)
    requires vault.Valid() && vault.ContentAddressed()
    requires filePath in fs.files && vault.EncryptSucceeds(fs, fs.files, filePath)
    requires vault.db.GetFile(existingId).Some?
    requires vault.db.GetFile(existingId).value.originalHash == vault.sha256(fs.files[filePath])
    modifies fs, vault.db
    ensures vault.Valid() && fileId == None && !downloaded
    ensures vault.db.files == old(vault.db.files)
    ensures vault.db.GetFile(existingId).Some?
            && vault.db.GetFile(existingId).value.encryptedPath !in fs.files
  {
    fileId := UploadDuplicate(vault, fs, filePath, existingId, now, iv);
    downloaded := DownloadMissingBlob(vault, fs, existingId, outputPath);
  }

  /**
   * Uploading the same file twice: the first upload is stored, the second
   * is rejected, and the rejection leaves the first entry without its blob.
   */
  method UploadTwiceLosesFirst(vault: VaultManager, fs: Fs, filePath: Path, outputPath: Path,
                               now1: Timestamp, now2: Timestamp, iv1: Bytes, iv2: Bytes)
    returns (first: Option<int>, second: Option<int>, downloaded: bool)
    requires vault.Valid() && vault.ContentAddressed()
    requires filePath in fs.files && vault.EncryptSucceeds(fs, fs.files, filePath)
    requires !HasHash(vault.db.files, vault.sha256(fs.files[filePath]))
    requires filePath != BlobPath(vault.encryptedFolder, vault.sha256(fs.files[filePath]))
    modifies fs, vault.db
    ensures vault.Valid() && first.Some? && second.None? && !downloaded
    ensures vault.db.GetFile(first.value).Some?
            && vault.db.GetFile(first.value).value.encryptedPath !in fs.files
  {
    ghost var content := fs.files[filePath];
    ghost var rows := vault.db.files;
    first := vault.UploadAndEncrypt(fs, filePath, now1, iv1);
    ghost var row := vault.db.files[|rows|];
    assert vault.db.files == rows + [row];
    FindAppended(rows, row);
    assert filePath in fs.files && fs.files[filePath] == content;
    second, downloaded := DuplicateUploadLosesStoredEntry(vault, fs, filePath, first.value, outputPath, now2, iv2);
  }

  /**
   * A source file that already sits at its own staging path is refused by
   * `shutil.copy`, and the `finally` block then deletes it: the caller's
   * file is lost.
   */
  method UploadFromStagingDeletesSource(vault: VaultManager, fs: Fs, filePath: Path, now: Timestamp, iv: Bytes)
    returns (fileId: Option<int>)
    requires vault.Valid()
    requires filePath in fs.files && filePath == vault.StagingPath(filePath)
    modifies fs, vault.db
    ensures fileId == None && filePath !in fs.files
    ensures fs.files == old(fs.files) - {filePath}
  {
    fileId := vault.UploadAndEncrypt(fs, filePath, now, iv);
  }

  /**
   * With the corrected upload a duplicate is still rejected, and the stored
   * entry's blob keeps its bytes.
   */
  method SafeDuplicateKeepsStoredEntry(vault: VaultManager, fs: Fs, filePath: Path, existingId: int,
                                       now: Timestamp, iv: Bytes)
    returns (fileId: Option<int>)
    requires vault.Valid() && vault.ContentAddressed()
    requires filePath in fs.files
    requires vault.db.GetFile(existingId).Some?
    requires vault.db.GetFile(existingId).value.originalHash == vault.sha256(fs.files[filePath])
    modifies fs, vault.db
    ensures vault.Valid() && fileId == None
    ensures vault.db.files == old(vault.db.files)
    ensures vault.db.GetFile(existingId) == old(vault.db.GetFile(existingId))
    ensures var blob := vault.db.GetFile(existingId).value.encryptedPath;
      blob in old(fs.files) ==> blob in fs.files && fs.files[blob] == old(fs.files)[blob]
  {
    ghost var row := vault.db.GetFile(existingId).value;
    ghost var i :| 0 <= i < |vault.db.files| && vault.db.files[i] == row;
    ghost var hash := vault.sha256(fs.files[filePath]);
    assert HasHash(vault.db.files, hash);
    assert row.encryptedPath == BlobPath(vault.encryptedFolder, hash);
    BlobNameIsComponent(hash);
    StagingIsNotBlob(vault.basePath, Basename(filePath), ".enc", BlobName(hash));
    ghost var before := fs.files;
    ghost var staging, scratch := vault.StagingPath(filePath), vault.ScratchPath(filePath);
    assert staging != row.encryptedPath && scratch != row.encryptedPath;
    fileId := vault.UploadAndEncryptSafely(fs, filePath, now, iv);
    assert vault.db.GetFile(existingId) == Some(row);
    if filePath == staging {
      assert fs.files == before;
    } else if vault.HashSucceeds(fs, before, filePath) {
      assert fs.files == before - {staging, scratch};
      RemovingOthersKeeps(before, staging, scratch, row.encryptedPath);
    } else {
      assert fs.files == before - {staging};
      RemovingOthersKeeps(before, staging, scratch, row.encryptedPath);
    }
  }
}
