/**
 * The metadata store (`VaultDatabase`): the `files` table, whose `id` is an
 * AUTOINCREMENT primary key and whose `original_hash` is UNIQUE, and the
 * append-only `scan_results` table. SQLite itself is not modelled; the
 * tables are sequences of rows in rowid order, and `sqlite_sequence` (the
 * largest id ever handed out) is a counter per table.
 */
module VaultDatabase {
  import opened Common

  /** A row of `files`. `last_scan_date` is NULL until the first scan. */
  datatype FileRow = FileRow(
    id: int,
    filename: string,
    originalHash: string,
    perceptualHash: Option<string>,
    encryptedPath: string,
    uploadDate: Timestamp,
    lastScanDate: Option<Timestamp>)

  /** A row of `scan_results`. */
  datatype ScanRow = ScanRow(
    id: int,
    fileId: int,
    url: string,
    foundDate: Timestamp,
    similarityScore: int)

  /** `original_hash` occurs in some row. */
  predicate HasHash(rows: seq<FileRow>, h: string) {
    exists i :: 0 <= i < |rows| && rows[i].originalHash == h
  }

  /** No two rows share an `original_hash`: the UNIQUE constraint. */
  predicate UniqueHashes(rows: seq<FileRow>) {
    forall i, j :: 0 <= i < j < |rows| ==> rows[i].originalHash != rows[j].originalHash
  }

  /** `SELECT * FROM files WHERE id = ?` followed by `fetchone()`. */
  function FindById(rows: seq<FileRow>, id: int): (r: Option<FileRow>)
    ensures r.Some? ==> r.value in rows && r.value.id == id
    ensures r.None? <==> forall i :: 0 <= i < |rows| ==> rows[i].id != id
  {
    if rows == [] then None
    else if rows[0].id == id then Some(rows[0])
    else FindById(rows[1..], id)
  }

  /** A row appended under an id no earlier row has is found by that id. */
  lemma {:induction false} FindAppended(rows: seq<FileRow>, row: FileRow)
    requires forall i :: 0 <= i < |rows| ==> rows[i].id != row.id
    ensures FindById(rows + [row], row.id) == Some(row)
  {
    if rows != [] {
      assert (rows + [row])[1..] == rows[1..] + [row];
      FindAppended(rows[1..], row);
    }
  }

  /** Appending a row does not change what an id other than its own finds. */
  lemma {:induction false} FindOtherAfterAppend(rows: seq<FileRow>, row: FileRow, id: int)
    requires id != row.id
    ensures FindById(rows + [row], id) == FindById(rows, id)
  {
    if rows == [] {
      assert FindById([row], id) == FindById([row][1..], id);
    } else {
      assert (rows + [row])[1..] == rows[1..] + [row];
      FindOtherAfterAppend(rows[1..], row, id);
    }
  }

  /** `ORDER BY upload_date DESC`. */
  predicate SortedByUploadDesc(rows: seq<FileRow>) {
    forall i, j :: 0 <= i < j < |rows| ==> rows[i].uploadDate >= rows[j].uploadDate
  }

  /** Putting a row in front of a sorted list keeps it sorted when the row is at least as recent as the head. */
  lemma SortedCons(row: FileRow, sorted: seq<FileRow>)
    requires SortedByUploadDesc(sorted)
    requires sorted == [] || row.uploadDate >= sorted[0].uploadDate
    ensures SortedByUploadDesc([row] + sorted)
  {
    var r := [row] + sorted;
    forall i, j | 0 <= i < j < |r| ensures r[i].uploadDate >= r[j].uploadDate {
      if i == 0 {
        assert r[j] == sorted[j - 1];
        if j > 1 {
          assert sorted[0].uploadDate >= sorted[j - 1].uploadDate;
        }
      } else {
        assert r[i] == sorted[i - 1] && r[j] == sorted[j - 1];
      }
    }
  }

  /** Dropping the newest row keeps the list sorted. */
  lemma SortedTail(sorted: seq<FileRow>)
    requires sorted != [] && SortedByUploadDesc(sorted)
    ensures SortedByUploadDesc(sorted[1..])
  {
    var tail := sorted[1..];
    forall i, j | 0 <= i < j < |tail| ensures tail[i].uploadDate >= tail[j].uploadDate {
      assert tail[i] == sorted[i + 1] && tail[j] == sorted[j + 1];
    }
  }

  function InsertByUploadDesc(row: FileRow, sorted: seq<FileRow>): (r: seq<FileRow>)
    requires SortedByUploadDesc(sorted)
    ensures SortedByUploadDesc(r)
    ensures |r| == |sorted| + 1
    ensures r[0] == row || (sorted != [] && r[0] == sorted[0])
  {
    if sorted == [] || row.uploadDate >= sorted[0].uploadDate then
      SortedCons(row, sorted);
      [row] + sorted
    else
      var tail := sorted[1..];
      SortedTail(sorted);
      var rest := InsertByUploadDesc(row, tail);
      assert tail != [] ==> sorted[0].uploadDate >= tail[0].uploadDate;
      SortedCons(sorted[0], rest);
      [sorted[0]] + rest
  }

  /** Insertion adds exactly the one row: the result is a permutation of the list plus the row. */
  lemma {:induction false} InsertByUploadDescPermutes(row: FileRow, sorted: seq<FileRow>)
    requires SortedByUploadDesc(sorted)
    ensures multiset(InsertByUploadDesc(row, sorted)) == multiset(sorted) + multiset{row}
  {
    if sorted != [] && row.uploadDate < sorted[0].uploadDate {
      var tail := sorted[1..];
      assert sorted == [sorted[0]] + tail;
      SortedTail(sorted);
      InsertByUploadDescPermutes(row, tail);
      assert InsertByUploadDesc(row, sorted) == [sorted[0]] + InsertByUploadDesc(row, tail);
    }
  }

  /**
   * The order SQLite returns for `ORDER BY upload_date DESC`. Rows with
   * equal dates may come in any order; this one keeps rowid order among them.
   */
  function SortByUploadDesc(rows: seq<FileRow>): (r: seq<FileRow>)
    ensures SortedByUploadDesc(r)
    ensures multiset(r) == multiset(rows)
    ensures |r| == |rows|
  {
    if rows == [] then []
    else
      assert rows == [rows[0]] + rows[1..];
      var rest := SortByUploadDesc(rows[1..]);
      InsertByUploadDescPermutes(rows[0], rest);
      InsertByUploadDesc(rows[0], rest)
  }

  class Database {
    /** The `files` table, in rowid order. */
    var files: seq<FileRow>
    /** The `scan_results` table, in rowid order. */
    var scanResults: seq<ScanRow>
    /** `sqlite_sequence` for `files`: the largest id handed out so far. */
    var fileSeq: int
    /** `sqlite_sequence` for `scan_results`. */
    var scanSeq: int

    /** The constraints of `create_tables` and the AUTOINCREMENT discipline. */
    ghost predicate Valid()
      reads this
    {
      && fileSeq >= 0 && scanSeq >= 0
      && (forall i :: 0 <= i < |files| ==> 1 <= files[i].id <= fileSeq)
      && (forall i, j :: 0 <= i < j < |files| ==> files[i].id < files[j].id)
      && UniqueHashes(files)
      && (forall i :: 0 <= i < |scanResults| ==> 1 <= scanResults[i].id <= scanSeq)
      && (forall i, j :: 0 <= i < j < |scanResults| ==> scanResults[i].id < scanResults[j].id)
    }

    /** `create_tables` on a new database file: both tables empty. */
    constructor ()
      ensures Valid()
      ensures files == [] && scanResults == [] && fileSeq == 0 && scanSeq == 0
    {
      files, scanResults := [], [];
      fileSeq, scanSeq := 0, 0;
    }

    /**
     * `add_file`: inserts a row stamped with the current time, or returns
     * `None` when the UNIQUE constraint on `original_hash` rejects it.
     */
    method AddFile(filename: string, originalHash: string, perceptualHash: Option<string>,
                   encryptedPath: string, now: Timestamp) returns (id: Option<int>)
      requires Valid()
      modifies this
      ensures Valid()
      ensures scanResults == old(scanResults) && scanSeq == old(scanSeq)
      ensures id.None? <==> HasHash(old(files), originalHash)
      ensures id.None? ==> files == old(files) && fileSeq == old(fileSeq)
      ensures id.Some? ==>
        && id.value == old(fileSeq) + 1 && fileSeq == id.value
        && (forall i :: 0 <= i < |old(files)| ==> old(files)[i].id < id.value)
        && files == old(files) + [FileRow(id.value, filename, originalHash, perceptualHash,
                                          encryptedPath, now, None)]
    {
      if exists i :: 0 <= i < |files| && files[i].originalHash == originalHash {
        return None;
      }
      fileSeq := fileSeq + 1;
      files := files + [FileRow(fileSeq, filename, originalHash, perceptualHash, encryptedPath, now, None)];
      id := Some(fileSeq);
    }

    /** `get_file`: the row with this id, or `None` when there is none. */
    function GetFile(id: int): (r: Option<FileRow>)
      reads this
      requires Valid()
      ensures r.Some? ==> r.value.id == id && exists i :: 0 <= i < |files| && files[i] == r.value
      ensures r.None? <==> forall i :: 0 <= i < |files| ==> files[i].id != id
    {
      FindById(files, id)
    }

    /** `get_all_files`: every row, newest upload first. */
    function GetAllFiles(): (rows: seq<FileRow>)
      reads this
      ensures multiset(rows) == multiset(files) && |rows| == |files|
      ensures SortedByUploadDesc(rows)
    {
      SortByUploadDesc(files)
    }

    /**
     * `update_last_scan`: `UPDATE files SET last_scan_date = ? WHERE id = ?`,
     * with the current time when no date is given. An unknown id matches
     * no row and changes nothing.
     */
    method UpdateLastScan(id: int, scanDate: Option<Timestamp>, now: Timestamp)
      requires Valid()
      modifies this
      ensures Valid()
      ensures scanResults == old(scanResults) && fileSeq == old(fileSeq) && scanSeq == old(scanSeq)
      ensures |files| == |old(files)|
      ensures forall i :: 0 <= i < |files| ==>
        files[i] == if old(files)[i].id == id
                    then old(files)[i].(lastScanDate := Some(scanDate.GetOr(now)))
                    else old(files)[i]
      ensures (forall i :: 0 <= i < |old(files)| ==> old(files)[i].id != id) ==> files == old(files)
    {
      var date := scanDate.GetOr(now);
      files := seq(|files|, i requires 0 <= i < |files| reads this =>
                 if files[i].id == id then files[i].(lastScanDate := Some(date)) else files[i]);
    }

    /**
     * `add_scan_result`: appends a finding stamped with the current time.
     * Foreign keys are not enforced, so `fileId` need not name a file.
     */
    method AddScanResult(fileId: int, url: string, similarityScore: int, now: Timestamp) returns (id: int)
      requires Valid()
      modifies this
      ensures Valid()
      ensures files == old(files) && fileSeq == old(fileSeq)
      ensures id == old(scanSeq) + 1 && scanSeq == id
      ensures forall i :: 0 <= i < |old(scanResults)| ==> old(scanResults)[i].id < id
      ensures scanResults == old(scanResults) + [ScanRow(id, fileId, url, now, similarityScore)]
    {
      scanSeq := scanSeq + 1;
      scanResults := scanResults + [ScanRow(scanSeq, fileId, url, now, similarityScore)];
      id := scanSeq;
    }
  }
}
