/** The part of the operating system's file system that the file-backed search index
    uses: regular files holding bytes and a set of directories, each named by its path.

    The functions below give the effect of the `os` calls made in
    webmark-backend/search/mod.go (`os.OpenFile` with `O_RDWR|O_CREATE|O_TRUNC`,
    `io.ReadAll`, `os.Stat`, `os.MkdirAll`, `os.Remove`, `Readdir`), with every error
    the code ignores turned into "nothing changes". The empty path stands for the
    directory relative paths start from, which always exists. */
module Disks {
  import opened Text

  /** The directory part of a path: everything before its last '/' ("" when there is none). */
  function Parent(p: string): (q: string)
    ensures p != "" ==> |q| < |p|
    ensures |q| <= |p| && q == p[..|q|]
  {
    if p == "" then ""
    else if p[|p| - 1] == '/' then p[..|p| - 1]
    else Parent(p[..|p| - 1])
  }

  /** The parent of `d/n`, for a name `n` without '/', is `d`. */
  lemma {:induction false} ParentOfChild(d: string, n: string)
    requires '/' !in n
    ensures Parent(d + "/" + n) == d
  {
    var p := d + "/" + n;
    if n == "" {
      assert p[..|p| - 1] == d;
    } else {
      var n' := n[..|n| - 1];
      assert p[..|p| - 1] == d + "/" + n';
      assert p[|p| - 1] == n[|n| - 1];
      ParentOfChild(d, n');
    }
  }

  /** `p` and every directory above it, up to (not including) the starting directory "". */
  function Ancestors(p: string): (a: set<string>)
    ensures forall q :: q in a ==> q != "" && |q| <= |p|
    ensures p != "" ==> p in a
    decreases |p|
  {
    if p == "" then {} else {p} + Ancestors(Parent(p))
  }

  datatype Disk = Disk(files: map<string, seq<byte>>, dirs: set<string>)

  /** No path is both a file and a directory, and "" (the starting directory) is no file. */
  predicate DiskOk(d: Disk) {
    forall p :: p in d.files ==> p !in d.dirs && p != ""
  }

  predicate IsDir(d: Disk, p: string) {
    p == "" || p in d.dirs
  }

  /** What `readFile` (open read-only, then `io.ReadAll`) gives: the contents of a file,
      a not-exist error for a missing path, another error for a directory or for a path
      below a regular file. */
  datatype ReadResult = Data(bytes: seq<byte>) | NotExist | IoError

  /** A directory on the way to `p` is a regular file, so that opening `p` fails with
      "not a directory", which `os.IsNotExist` does not count as a missing file. */
  predicate Blocked(d: Disk, p: string) {
    exists q :: q in Ancestors(Parent(p)) && q in d.files
  }

  function Read(d: Disk, p: string): (r: ReadResult)
    ensures r.Data? <==> p in d.files
    ensures r.NotExist? <==> p !in d.files && !IsDir(d, p) && !Blocked(d, p)
  {
    if p in d.files then Data(d.files[p])
    else if IsDir(d, p) || Blocked(d, p) then IoError
    else NotExist
  }

  /** Opening with `O_CREATE|O_TRUNC` and writing: it succeeds when the parent directory
      exists and `p` is not a directory, and then `p` holds exactly `c`. */
  function Write(d: Disk, p: string, c: seq<byte>): (r: Disk)
    ensures r.dirs == d.dirs
    ensures IsDir(d, Parent(p)) && !IsDir(d, p) ==> r.files == d.files[p := c]
    ensures !(IsDir(d, Parent(p)) && !IsDir(d, p)) ==> r == d
  {
    if IsDir(d, Parent(p)) && !IsDir(d, p) then d.(files := d.files[p := c]) else d
  }

  /** `os.MkdirAll`: an existing directory is left alone; otherwise the parent is made
      first and then `p`. It fails, changing nothing further, at a path that is a file. */
  function MkdirAll(d: Disk, p: string): (r: Disk)
    ensures r.files == d.files
    ensures d.dirs <= r.dirs
    ensures forall q :: q in r.dirs && q !in d.dirs ==> q in Ancestors(p) && q !in d.files
    decreases |p|
  {
    if IsDir(d, p) || p in d.files then d
    else
      var r := MkdirAll(d, Parent(p));
      if IsDir(r, Parent(p)) then r.(dirs := r.dirs + {p}) else r
  }

  /** `handEmptyDir`: a path that exists (as file or directory) is left alone, any other
      is created with `MkdirAll`. */
  function EnsureDir(d: Disk, p: string): (r: Disk)
    ensures r.files == d.files && d.dirs <= r.dirs
  {
    if p in d.files || IsDir(d, p) then d else MkdirAll(d, p)
  }

  /** No file and no directory has `p` as its parent. */
  predicate NoEntries(d: Disk, p: string) {
    (forall f :: f in d.files ==> Parent(f) != p) && (forall q :: q in d.dirs ==> Parent(q) != p)
  }

  /** `isDirEmpty`'s boolean: true only for an existing directory without entries; it is
      false whenever opening or listing fails. */
  predicate DirIsEmpty(d: Disk, p: string) {
    p in d.dirs && NoEntries(d, p)
  }

  /** `os.Remove`: a file is deleted, an empty directory is deleted, anything else stays. */
  function Remove(d: Disk, p: string): (r: Disk)
    ensures p in d.files ==> r == d.(files := d.files - {p})
    ensures p !in d.files && DirIsEmpty(d, p) ==> r == d.(dirs := d.dirs - {p})
    ensures p !in d.files && !DirIsEmpty(d, p) ==> r == d
  {
    if p in d.files then d.(files := d.files - {p})
    else if DirIsEmpty(d, p) then d.(dirs := d.dirs - {p})
    else d
  }

  /** `MkdirAll` succeeds when no path on the way up is a file: `p` is then a directory. */
  lemma {:induction false} MkdirAllMakes(d: Disk, p: string)
    requires forall q :: q in Ancestors(p) ==> q !in d.files
    ensures IsDir(MkdirAll(d, p), p)
    decreases |p|
  {
    if !IsDir(d, p) && p !in d.files {
      assert Ancestors(Parent(p)) <= Ancestors(p);
      MkdirAllMakes(d, Parent(p));
    }
  }

  /** Every operation that changes the disk keeps files and directories apart. */
  lemma DiskOkKept(d: Disk, p: string, c: seq<byte>)
    requires DiskOk(d)
    ensures DiskOk(Write(d, p, c))
    ensures DiskOk(MkdirAll(d, p))
    ensures DiskOk(EnsureDir(d, p))
    ensures DiskOk(Remove(d, p))
  {
  }

  /** The whole file system as the index sees it. */
  class FileSystem {
    var files: map<string, seq<byte>>
    var dirs: set<string>

    function State(): Disk
      reads this
    {
      Disk(files, dirs)
    }

    constructor(d: Disk)
      ensures State() == d
    {
      files, dirs := d.files, d.dirs;
    }

    /** Replaces the whole state: the single effect of one system call. */
    method Set(d: Disk)
      modifies this
      ensures State() == d
    {
      files, dirs := d.files, d.dirs;
    }
  }
}
