# Vault core of el-dorado, modelled in Dafny

el-dorado is a personal file vault. An upload stages a copy of a file, hashes it
(SHA-256 for identity, a dHash for image similarity), encrypts it with Fernet
to a blob path derived from the content hash, and records a metadata row in
SQLite. A download looks the row up, decrypts the blob and checks the digest of
what it wrote. This project models that core: the orchestrator
(`VaultManager`), the metadata store (`VaultDatabase`), the hash engine
(`ImageHasher`) and the encryptor (`FileEncryptor`).

The model works over these pieces:

- **File system.** `FileSystem.Fs` is a map from canonical path strings to
  byte contents, with a map of permission bits. Two fixed path sets mark where
  faults occur:
  - a read of an `unreadable` path raises an I/O error;
  - a write to an `unwritable` path raises after truncating, leaving some
    prefix of the data on disk.
- **Python path helpers.** `os.path.join`, `os.path.basename` and
  `shutil.copy` are modelled with their POSIX behaviour. A copy onto the
  source itself raises `SameFileError`.
- **Foreign libraries.** SHA-256, dHash and Fernet are function values that
  the objects carry. What the vault relies on is stated as predicates over
  them:
  - `HexDigests`: a digest is 64 lower-case hexadecimal digits.
  - `SixteenDigitDHashes`: a dHash is 16 such digits.
  - `Authenticated`: decryption inverts encryption under the same key, and
    accepts nothing else.
- **External inputs.** The clock, the generated key and Fernet's IV are
  passed in as parameters.
- **Database.** Tables are sequences of rows in rowid order. Each table has
  an `sqlite_sequence` counter.

The model follows the code where the code and its evident intent differ.
Three intentions can be read off the code and its tests, and the code does
not meet them:

- A duplicate upload should not lose the first copy. The removal of the blob
  after a rejected insert is commented "Clean up encrypted file."
  (`vault_project/vault_manager.py:85`), that is, the file this upload just
  wrote. `test_05_duplicate_upload_rejection`
  (`vault_project/test_vault.py:139-147`) expects the second upload to be
  refused, not the first one to be damaged.
- A failed upload should leave nothing behind. Its docstring promises `None on
  failure` (`vault_project/vault_manager.py:49`), and its `finally` block
  removes the staged copy (`vault_project/vault_manager.py:95-99`).
- A failed download should leave no unusable output. A download whose digest
  does not match removes the "potentially corrupt file"
  (`vault_project/vault_manager.py:141-142`).

The code instead loses the first copy's blob, and it leaves a partial token at
the blob path and a partial plaintext at the output path when a write fails.
The model states what the code does. Corrected versions of the upload and
the download are proved beside it (see "## Findings").

## Model

| member | source | states |
|---|---|---|
| FileSystem.Join | vault_project/vault_manager.py:23-24 | `os.path.join` of two components: an absolute second part wins, otherwise a single '/' separates the parts |
| FileSystem.Basename | vault_project/vault_manager.py:55 | `os.path.basename`: the suffix after the last '/', which has no '/' in it |
| FileSystem.BasenameIsSuffix | vault_project/vault_manager.py:55 | the base name is the suffix of the path after its last '/': the whole path, or a suffix that a '/' precedes |
| FileSystem.Fs.Exists | vault_project/vault_manager.py:51 | `os.path.exists`: true exactly when a file is stored at the path |
| FileSystem.Fs.ReadAll | file_encryptor.py:57-59 | `open(p, 'rb').read()`: FileNotFoundError for a missing path, an I/O error for an unreadable one, otherwise the whole contents |
| FileSystem.Fs.Remove | vault_project/vault_manager.py:86 | `os.remove`: exactly that path disappears from the file map |
| FileSystem.Fs.Chmod | file_encryptor.py:41 | `os.chmod`: only that path's mode changes, to the given one |
| FileSystem.Fs.WriteAll | file_encryptor.py:63-64 | a write changes only the target path; on success it holds the data, on an I/O error a prefix of it |
| FileSystem.Fs.Copy | vault_project/vault_manager.py:60 | `shutil.copy`: succeeds exactly when the paths differ, the source exists and is readable and the target is writable; otherwise only the target may change, to a prefix of the source's bytes |
| Library.NonTokenRejected | file_encryptor.py:90 | Fernet rejects bytes that are not a token under the key, such as a foreign or tampered blob |
| ImageHasher.NextChunk | image_hasher.py:54 | `f.read(4096)` at an offset: the next at most 4096 bytes, and empty exactly at end of file |
| ImageHasher.GetCryptographicHash | image_hasher.py:38-62 | the chunk loop absorbs exactly the whole file, so the result is the SHA-256 of its full contents; a missing or unreadable file gives None |
| ImageHasher.GetPerceptualHash | image_hasher.py:14-36 | the dHash of the file's bytes (None for a non-image), and None for a missing or unreadable file |
| ImageHasher.DigitBits | image_hasher.py:75-76 | `hex_to_hash` turns each digit into 4 bits |
| ImageHasher.HexToBits | image_hasher.py:75-76 | `hex_to_hash`: a hex string becomes 4 bits per digit |
| ImageHasher.CountDiffering | image_hasher.py:77 | `h1 - h2` counts differing positions of two bit arrays, at most their length |
| ImageHasher.DigitDistance | image_hasher.py:64-77 | two hex digits differ in at most 4 bits, and in none exactly when their values are equal |
| ImageHasher.CompareHashes | image_hasher.py:64-77 | the Hamming distance is at most 4 bits per digit, and 0 exactly when the two strings denote the same hash digit by digit |
| ImageHasher.DigitDistanceCountsBits | image_hasher.py:75-77 | one digit's distance is the number of differing positions in its 4-bit expansion |
| ImageHasher.CountDifferingAppend | image_hasher.py:77 | counting differing bits distributes over concatenation |
| ImageHasher.CompareHashesCountsBits | image_hasher.py:75-77 | the distance equals imagehash's definition: expand both strings to bit arrays (`hex_to_hash`) and count the differing positions |
| ImageHasher.CompareHashesSymmetric | image_hasher.py:64-77 | the distance does not depend on argument order |
| ImageHasher.CompareHashesSelf | image_hasher.py:142 | a hash is at distance 0 from itself |
| ImageHasher.DistinctHashesPositive | vault_project/test_vault.py:94-95 | for lower-case hex strings, the distance is positive exactly when the strings differ |
| ImageHasher.PerceptualHashesComparable | vault_project/test_vault.py:87-95 | any two dHash results can be compared, and they are at positive distance exactly when they differ |
| ImageHasher.IsMatch | image_hasher.py:79-91 | `is_match`: never under a negative threshold, always once the threshold reaches the bit count, and for hashes denoting the same value exactly when the threshold is not negative |
| ImageHasher.IsMatchDefault | image_hasher.py:79 | the default threshold is 5 |
| ImageHasher.IsMatchThreshold | image_hasher.py:79-91 | `is_match` holds exactly when the threshold is at least the distance, so it is monotone in the threshold |
| ImageHasher.SameHashMatches | image_hasher.py:79-91 | identical hashes match under every non-negative threshold |
| VaultDatabase.FindById | vault_database.py:91-92 | `SELECT ... WHERE id = ?`: a row with that id, or None exactly when no row has it |
| VaultDatabase.FindAppended | vault_database.py:76 | a row appended under a fresh id is found by that id |
| VaultDatabase.FindOtherAfterAppend | vault_database.py:70-76 | appending a row does not change what any other id finds |
| VaultDatabase.InsertByUploadDesc | vault_database.py:101 | inserting into a list sorted newest first keeps it sorted, one row longer, headed by the new row or the old head |
| VaultDatabase.InsertByUploadDescPermutes | vault_database.py:101 | the insertion adds exactly that row: the result's multiset is the old one plus the row |
| VaultDatabase.SortByUploadDesc | vault_database.py:101 | `ORDER BY upload_date DESC`: a permutation of the rows, sorted newest first |
| VaultDatabase.Database.constructor | vault_database.py:24-51 | `create_tables` on a new file: both tables empty, constraints hold |
| VaultDatabase.Database.AddFile | vault_database.py:55-79 | rejects (None) exactly when the hash is already stored, leaving the table unchanged; otherwise appends one row, with the insert time and a null scan date, under an id larger than every earlier id; hashes stay unique |
| VaultDatabase.Database.GetFile | vault_database.py:81-92 | the row with this id, or None exactly when there is none |
| VaultDatabase.Database.GetAllFiles | vault_database.py:94-102 | every row exactly once, newest upload first |
| VaultDatabase.Database.UpdateLastScan | vault_database.py:104-117 | only `last_scan_date` of the matching row changes (to the given date or now); an unknown id changes nothing |
| VaultDatabase.Database.AddScanResult | vault_database.py:119-138 | appends one scan row under a fresh id, stamped now, for any file id, leaving `files` unchanged |
| FileEncryptor.Cipher.Encrypt | file_encryptor.py:61 | `cipher.encrypt`: the result is a token under the cipher's key |
| FileEncryptor.Cipher.Decrypt | file_encryptor.py:90 | `cipher.decrypt`: under an authenticated cipher, only a token made under the cipher's key decrypts |
| FileEncryptor.CipherRoundTrip | file_encryptor.py:61-90 | decrypting a token under the key that made it gives back the plaintext |
| FileEncryptor.LoadOrCreateKey | file_encryptor.py:23-43 | an existing key file is read verbatim and nothing changes; otherwise the generated key is written and the file's mode becomes 0o600 |
| FileEncryptor.FileEncryptor.constructor | file_encryptor.py:12-21 | the key is loaded or created as above, and the cipher is bound to that key |
| FileEncryptor.FileEncryptor.GetKey | file_encryptor.py:108-115 | the key the cipher uses |
| FileEncryptor.FileEncryptor.Recover | file_encryptor.py:86-90 | what `decrypt_file` can recover: the plaintext exactly when the blob exists, can be read and holds a valid token |
| FileEncryptor.FileEncryptor.EncryptFile | file_encryptor.py:45-73 | a missing input raises FileNotFoundError and an unreadable one IOError, both with nothing written; otherwise the token for the input's bytes is written, and a failed write raises after a prefix of it is on disk |
| FileEncryptor.FileEncryptor.DecryptFile | file_encryptor.py:75-106 | False with nothing written for a missing or unreadable blob or an invalid token; otherwise the plaintext is written, and the result is True exactly when the write succeeds |
| FileEncryptor.ConstructTwice | file_encryptor.py:31-43 | two constructions over the same key path give the same key |
| FileEncryptor.EncryptThenDecrypt | file_encryptor.py:128-141 | encrypting then decrypting under the same encryptor reproduces the input bytes |
| VaultManager.Prefix16 | vault_project/vault_manager.py:70 | `hash[:16]`: a prefix of the hash, 16 characters long or the whole of a shorter string |
| VaultManager.BlobName | vault_project/vault_manager.py:70 | the blob's file name is the hash's first 16 characters followed by `.enc` |
| VaultManager.BlobPath | vault_project/vault_manager.py:70-71 | the blob path joins the encrypted folder and the blob name; it has no contract of its own, and its shape is stated by BlobPathShape |
| VaultManager.BlobPathShape | vault_project/vault_manager.py:70-71 | for a 64-digit digest the blob path is `encrypted/` + its first 16 digits + `.enc`, so two digests share a blob path exactly when their first 16 digits agree |
| VaultManager.StagingIsNotBlob | vault_project/vault_manager.py:23-24 | a staged copy, or any path that extends it, never coincides with a blob path |
| VaultManager.AddressedAppend | vault_project/vault_manager.py:70-82 | appending a row stored at the blob path its hash derives keeps every row content-addressed |
| VaultManager.VaultManager.constructor | vault_project/vault_manager.py:15-33 | the folders derive from the base path, the encryptor uses `secret.key`, the tables start empty with both id counters at 0, so the first upload gets id 1; an existing key is loaded with the file system unchanged, otherwise the generated key is written with mode 0o600 |
| VaultManager.VaultManager.StagingPath | vault_project/vault_manager.py:55-56 | the staging path is the source's base name inside the upload folder |
| VaultManager.VaultManager.EncryptAndRecord | vault_project/vault_manager.py:70-87 | encrypts to the blob path and inserts the row; a duplicate removes the blob path, and a failed write leaves a prefix of the token there; a new id is the file counter's new value, and the scan table and its counter never change |
| VaultManager.VaultManager.HashAndStore | vault_project/vault_manager.py:63-87 | hashes the staged copy, then stores it under the path its hash derives, with the outcomes above |
| VaultManager.VaultManager.StageAndStore | vault_project/vault_manager.py:58-94 | the `try` block on an existing source: away from the staging path, the file map and the tables end in exactly the outcomes listed for the upload below |
| VaultManager.VaultManager.UploadAndEncrypt | vault_project/vault_manager.py:35-98 | a missing source changes nothing; the staged copy is gone on every other exit; the result is an id exactly when every step succeeds and the hash is new; the new row stores basename, hash, dHash and blob path; a duplicate removes the blob path; a failed encryption leaves part of a token behind; a new id is the file counter's new value, and the scan table and its counter never change |
| VaultManager.VaultManager.DownloadAndDecrypt | vault_project/vault_manager.py:101-143 | an unknown id, a missing blob or an invalid token writes nothing; True exactly when decryption, the write and the re-hash succeed and the digest is the stored one; a mismatch removes the output; success guarantees the output's digest |
| VaultManager.VaultManager.GetFileInfo | vault_project/vault_manager.py:145-156 | None for an unknown id, otherwise the row with that id |
| VaultManager.DownloadIntact | vault_project/vault_manager.py:116-138 | downloading an entry whose blob decrypts to bytes with the recorded digest writes exactly those bytes and returns True |
| VaultManager.DownloadMissingBlob | vault_project/vault_manager.py:116-132 | downloading an entry whose blob is gone returns False and writes nothing |
| VaultManager.UploadThenDownload | vault_project/test_vault.py:118-137 | uploading a new file and downloading its id writes back exactly the original bytes |
| VaultManager.UploadDuplicate | vault_project/vault_manager.py:70-87 | uploading content the vault already holds returns None and leaves both tables and both counters unchanged, but removes the blob path of the entry already stored |
| VaultManager.DuplicateUploadLosesStoredEntry | vault_project/vault_manager.py:70-87 | a rejected duplicate removes the blob of the entry already stored, and that entry's download then fails |
| VaultManager.UploadTwiceLosesFirst | vault_project/test_vault.py:139-147 | uploading the same file twice gives an id and then None, and leaves the first entry without its blob |
| VaultManager.UploadFromStagingDeletesSource | vault_project/vault_manager.py:55-98 | a source already at its own staging path is refused by the copy and then deleted by the cleanup |
| VaultManager.VaultManager.DownloadAndDecryptSafely | vault_project/vault_manager.py:101-143 | corrected download: the plaintext goes to a scratch file and is renamed onto the output only when its digest is the recorded one; every False leaves the file map as it was apart from the scratch path, so the output path is never left with partial or corrupt bytes |
| VaultManager.VaultManager.ScratchPath | vault_project/vault_manager.py:55-56 | used only by the corrected upload: the scratch token path is derived from the staging path and never coincides with it, so writing the token cannot clobber the staged copy |
| VaultManager.VaultManager.EncryptAndRecordSafely | vault_project/vault_manager.py:70-87 | corrected steps 3-4: the token goes to a scratch path and moves to the blob path only after the insert succeeds; the scan table and its counter never change |
| VaultManager.VaultManager.HashAndStoreSafely | vault_project/vault_manager.py:63-87 | corrected steps 2-4 on a staged copy |
| VaultManager.VaultManager.StageAndStoreSafely | vault_project/vault_manager.py:58-94 | the corrected `try` block: a source at its own staging path changes nothing; otherwise, away from the staging path, only the scratch path and, on success, the blob path change |
| VaultManager.VaultManager.UploadAndEncryptSafely | vault_project/vault_manager.py:35-98 | corrected upload: a rejection clears only the staging and scratch paths, and a source at its own staging path is left untouched |
| VaultManager.SafeDuplicateKeepsStoredEntry | vault_project/vault_manager.py:84-87 | with the corrected upload, a rejected duplicate leaves the stored entry's blob bytes unchanged |

## Left out

- The HTTP API (`api.py`), the terminal menu (`vault_project/main.py`) and the reverse image search (`reverse_image_search.py`) are I/O adapters and are not part of this model.
- Logging with `print`, and the `__main__` demonstration blocks. The demonstrations serve only as evidence for the scenario members.
- The internals of SHA-256, dHash, PIL decoding and Fernet. The random key and IV are parameters.
- SQLite itself: SQL text, connections, commits and `close_db`.
- Reopening an existing database file: `Database.constructor` models `create_tables` on a new file only.
- Directories: `os.makedirs` and `os.path.dirname` are not modelled, and paths are compared as strings.
- File-system faults are limited to reads and writes. `os.remove`, `os.path.exists`, renaming and `os.chmod` never fail, and a read is all or nothing.
- FileSystem.Fs.WriteAll: a failing write always fails after `open(p, 'wb')` has truncated the file, leaving a prefix of the data. An `open` that itself raises (a read-only existing file keeps its old bytes, an unwritable directory creates no file) is not modelled. The prefix outcomes of `EncryptFile`, `DecryptFile`, `EncryptAndRecord`, `UploadAndEncrypt` and `DownloadAndDecrypt`, and the removal of the scratch file in the corrected upload, rely on that.
- FileSystem.Fs.Copy: likewise, a copy whose `open` of the target raises, leaving the target as it was, is not modelled; a failing copy always leaves a prefix of the source's bytes at the target.
- `shutil.copy` also copies permission bits; that is not modelled.
- `datetime.now()` is a timestamp parameter. Timestamps are integers, ordered as their ISO text is.
- FileEncryptor.LoadOrCreateKey: requires an existing key file to be readable and a missing one to be writable. The exception a failing key read or write raises out of `_load_or_create_key` is not modelled.
- FileEncryptor.FileEncryptor.constructor: carries the same requirement, for the same reason. Fernet's rejection of a malformed key is not modelled either.
- VaultManager.VaultManager.constructor: carries the same requirement on `secret.key`, for the same reason. It models a new `vault.db` only, as `Database.constructor` does: reopening a vault whose tables already hold rows (`CREATE TABLE IF NOT EXISTS` keeps them) is not modelled, so the tables always start empty and both id counters at 0.
- ImageHasher.CompareHashes: requires two non-empty hex strings of equal length. imagehash raises on the empty string. Unequal lengths are outside the model: the library raises on some such pairs and reshapes others (it sizes the bit array as the integer square root of the bit count). Equal lengths are guaranteed to match imagehash only when their bit count is a perfect square, such as the 16-digit dHash, the only hashes the vault compares.
- VaultDatabase.SortByUploadDesc: keeps rowid order among equal upload dates, where SQLite may return ties in any order.
- VaultDatabase.Database.AddFile: the NOT NULL constraints cannot fail in the model, because every text argument is a string.
- Concurrency: the shared connection and the absence of locking are not modelled.

## Findings

| source | as written | input that shows it | evidently intended | confidence | as-written member | corrected member |
|---|---|---|---|---|---|---|
| vault_project/vault_manager.py:70-87 | a duplicate derives the stored entry's blob path, overwrites it with its own token, then removes it on rejection | upload the same file twice, as test_05 does | the rejection leaves the stored entry's blob intact | high, not executed | VaultManager.UploadTwiceLosesFirst | VaultManager.SafeDuplicateKeepsStoredEntry |
| vault_project/vault_manager.py:55-98 | when the source already is `uploads/<name>`, `shutil.copy` raises SameFileError and the `finally` block removes the source | upload `<base>/uploads/photo.png` | the caller's file is never deleted | medium, not executed | VaultManager.UploadFromStagingDeletesSource | VaultManager.VaultManager.UploadAndEncryptSafely |
| vault_project/vault_manager.py:129-132 | when `decrypt_file`'s write fails part-way (`file_encryptor.py:92-93`, `file_encryptor.py:104-106`), the download returns False and leaves the partial plaintext at the output path | download to an output path whose write fails part-way | a failed download leaves no unusable output, as the corrupt-file cleanup at lines 141-142 does for a digest mismatch | medium, not executed | VaultManager.VaultManager.DownloadAndDecrypt | VaultManager.VaultManager.DownloadAndDecryptSafely |
| vault_project/vault_manager.py:74 | a write failure inside `encrypt_file` leaves part of a token at the blob path, over the stored blob if the content is a duplicate | upload a new file to a blob path whose write fails part-way | a failed upload leaves no partial ciphertext | medium, not executed | VaultManager.VaultManager.UploadAndEncrypt | VaultManager.VaultManager.UploadAndEncryptSafely |
