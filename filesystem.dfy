/**
 * The part of the operating system the vault uses: `os.path.join`,
 * `os.path.basename`, and a file system holding the contents of regular
 * files. Reading a path in `unreadable` raises an I/O error; writing a path
 * in `unwritable` raises one after `open(path, 'wb')` has truncated the file
 * and only part of the data (some prefix of it) has reached the disk.
 * Existence checks, removal, renaming and `chmod` do not fail.
 */
module FileSystem {
  import opened Common

  /** `posixpath.join(a, b)` for two components. */
  function Join(a: Path, b: Path): (p: Path)
    ensures |b| > 0 && b[0] == '/' ==> p == b
    ensures (|b| == 0 || b[0] != '/') && (a == "" || a[|a| - 1] == '/') ==> p == a + b
    ensures (|b| == 0 || b[0] != '/') && a != "" && a[|a| - 1] != '/' ==> p == a + "/" + b
  {
    if |b| > 0 && b[0] == '/' then b
    else if a == "" || a[|a| - 1] == '/' then a + b
    else a + "/" + b
  }

  /** `posixpath.basename(p)`: what follows the last '/'. */
  function Basename(p: Path): (b: Path)
    ensures '/' !in b
  {
    if p == [] || p[|p| - 1] == '/' then []
    else Basename(p[..|p| - 1]) + [p[|p| - 1]]
  }

  /**
   * The base name is the suffix of the path after its last '/': either the
   * whole path or the part that a '/' precedes.
   */
  lemma {:induction false} BasenameIsSuffix(p: Path)
    ensures |Basename(p)| <= |p| && Basename(p) == p[|p| - |Basename(p)|..]
    ensures |Basename(p)| == |p| || p[|p| - |Basename(p)| - 1] == '/'
  {
    if p != [] && p[|p| - 1] != '/' {
      var q := p[..|p| - 1];
      BasenameIsSuffix(q);
      assert |Basename(p)| == |Basename(q)| + 1;
      assert q[|q| - |Basename(q)|..] + [p[|p| - 1]] == p[|p| - |Basename(p)|..];
      if |Basename(q)| < |q| {
        assert p[|p| - |Basename(p)| - 1] == q[|q| - |Basename(q)| - 1];
      }
    }
  }

  /** The result of reading a whole file. */
  datatype ReadResult = Read(data: Bytes) | NotFound | IoError

  class Fs {
    /** Contents of every regular file, by path. */
    var files: map<Path, Bytes>
    /** Permission bits set by `os.chmod`. */
    var modes: map<Path, int>
    /** Paths whose reads fail with an I/O error. */
    const unreadable: set<Path>
    /** Paths whose writes fail with an I/O error part-way. */
    const unwritable: set<Path>

    constructor (files: map<Path, Bytes>, unreadable: set<Path>, unwritable: set<Path>)
      ensures this.files == files && modes == map[]
      ensures this.unreadable == unreadable && this.unwritable == unwritable
    {
      this.files := files;
      modes := map[];
      this.unreadable := unreadable;
      this.unwritable := unwritable;
    }

    /** `os.path.exists(p)`: some file is stored under `p`. */
    predicate Exists(p: Path): (e: bool)
      reads this
      ensures e <==> p in files
    {
      p in files
    }

    /** `open(p, 'rb').read()`. */
    method ReadAll(p: Path) returns (r: ReadResult)
      ensures p !in files ==> r == NotFound
      ensures p in files && p in unreadable ==> r == IoError
      ensures p in files && p !in unreadable ==> r == Read(files[p])
    {
      if p !in files {
        r := NotFound;
      } else if p in unreadable {
        r := IoError;
      } else {
        r := Read(files[p]);
      }
    }

    /**
     * `open(p, 'wb').write(data)`: on success `p` holds `data`; on an I/O
     * error it holds whatever prefix of `data` was written.
     */
    method WriteAll(p: Path, data: Bytes) returns (ok: bool)
      modifies this`files
      ensures ok == (p !in unwritable)
      ensures p in files && files == old(files)[p := files[p]]
      ensures ok ==> files[p] == data
      ensures files[p] <= data
    {
      if p in unwritable {
        var n: nat :| n <= |data|;
        files := files[p := data[..n]];
        ok := false;
      } else {
        files := files[p := data];
        ok := true;
      }
    }

    /** `os.remove(p)` on a path that exists. */
    method Remove(p: Path)
      requires p in files
      modifies this`files
      ensures files == old(files) - {p}
    {
      files := files - {p};
    }

    /** `os.replace(src, dst)` on a source that exists. */
    method Rename(src: Path, dst: Path)
      requires src in files
      modifies this`files
      ensures files == (old(files) - {src})[dst := old(files)[src]]
    {
      files := (files - {src})[dst := files[src]];
    }

    /** `os.chmod(p, mode)` on a path that exists. */
    method Chmod(p: Path, mode: int)
      requires p in files
      modifies this`modes
      ensures modes == old(modes)[p := mode]
    {
      modes := modes[p := mode];
    }

    /**
     * `shutil.copy(src, dst)`: refuses a copy onto the same file
     * (`SameFileError`), raises when the source is missing or unreadable,
     * and otherwise writes the source's bytes to `dst`.
     */
    method Copy(src: Path, dst: Path) returns (ok: bool)
      modifies this`files
      ensures !ok && (src == dst || src !in old(files) || src in unreadable) ==> files == old(files)
      ensures ok <==> src != dst && src in old(files) && src !in unreadable && dst !in unwritable
      ensures src != dst && src in old(files) && src !in unreadable ==>
        && dst in files && files == old(files)[dst := files[dst]]
        && files[dst] <= old(files)[src]
        && (ok ==> files[dst] == old(files)[src])
    {
      if src == dst {
        return false;
      }
      var r := ReadAll(src);
      if !r.Read? {
        return false;
      }
      ok := WriteAll(dst, r.data);
    }
  }
}
