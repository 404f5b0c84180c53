/**
 * The filesystem the organizer works on, as a value: regular files with their
 * contents, and directories.  Directories are kept explicitly so that one left
 * empty by a move still exists.  The operations are the `std::fs` calls the
 * organizer makes: `exists`, `is_file`, `metadata().len()`, `read_dir`,
 * `create_dir_all` and `rename`.
 */
module Disks {
  import opened Wrappers
  import opened Paths
  import opened Naming

  type Byte = bv8

  /** Why a filesystem call or a per-file step failed. */
  datatype Error =
    | NotFound(path: Path)
    | NotADirectory(path: Path)
    | IsADirectory(path: Path)
    | NoDateTime(path: Path)

  /**
   * A regular file: its bytes, and the capture time `PhotoDateTimeInfo::load`
   * finds for it (`None` when loading fails).  The time belongs to the file and
   * travels with it when the file is renamed.
   */
  datatype FileEntry = FileEntry(content: seq<Byte>, taken: Option<DateTime>)

  /**
   * Files by path, directories by path, and the length the OS reports for a
   * directory.  The root `[]` always exists and is not listed.
   */
  datatype Disk = Disk(files: map<Path, FileEntry>, dirs: set<Path>, directorySize: nat)

  /** `Path::is_dir`. */
  predicate IsDir(d: Disk, p: Path) {
    p == [] || p in d.dirs
  }

  /** Every path that names something. */
  function Occupied(d: Disk): set<Path> {
    d.files.Keys + d.dirs
  }

  /** `Path::exists`. */
  predicate Exists(d: Disk, p: Path) {
    p in d.files || IsDir(d, p)
  }

  /**
   * A tree: nothing is both a file and a directory, and everything that exists
   * sits in an existing directory.
   */
  predicate WellFormed(d: Disk) {
    && d.files.Keys !! d.dirs
    && [] !in d.files && [] !in d.dirs
    && (forall p {:trigger Parent(p)} :: p in d.files ==> |p| > 0 && IsDir(d, Parent(p)))
    && (forall p {:trigger Parent(p)} :: p in d.dirs ==> |p| > 0 && IsDir(d, Parent(p)))
  }

  /** The names directly inside `dir` (what `read_dir` lists). */
  function ChildNames(d: Disk, dir: Path): set<Name> {
    set p | p in Occupied(d) && IsChild(dir, p) :: Last(p)
  }

  lemma ChildNamesMembership(d: Disk, dir: Path, n: Name)
    ensures n in ChildNames(d, dir) <==> dir + [n] in Occupied(d)
  {
    var p := dir + [n];
    if p in Occupied(d) {
      assert IsChild(dir, p) && Last(p) == n;
    }
    if n in ChildNames(d, dir) {
      var q :| q in Occupied(d) && IsChild(dir, q) && Last(q) == n;
      assert q == q[..|dir|] + [Last(q)];
    }
  }

  /** `fs::metadata(p)?.len()`. */
  function Length(d: Disk, p: Path): (r: Result<nat, Error>)
    ensures r.Ok? <==> Exists(d, p)
    ensures p in d.files ==> r == Ok(|d.files[p].content|)
    ensures r.Err? ==> r.error == NotFound(p)
  {
    if p in d.files then Ok(|d.files[p].content|)
    else if IsDir(d, p) then Ok(d.directorySize)
    else Err(NotFound(p))
  }

  /** `get_file_hash(p)?`: the digest of a file's bytes; reading a directory fails. */
  function FileHash(d: Disk, hash: seq<Byte> -> string, p: Path): (r: Result<string, Error>)
    ensures r.Ok? <==> p in d.files
    ensures r.Ok? ==> r.value == hash(d.files[p].content)
    ensures r.Err? ==> (r.error == IsADirectory(p) <==> IsDir(d, p))
  {
    if p in d.files then Ok(hash(d.files[p].content))
    else if IsDir(d, p) then Err(IsADirectory(p))
    else Err(NotFound(p))
  }

  /**
   * `are_same_file_contents`: lengths first, and only when they agree the two
   * digests; the digest of `x` when both agree.
   */
  function AreSameFileContents(d: Disk, hash: seq<Byte> -> string, x: Path, y: Path): (r: Result<Option<string>, Error>)
    ensures r.Ok? && r.value.Some? ==>
      && x in d.files && y in d.files
      && |d.files[x].content| == |d.files[y].content|
      && r.value.value == hash(d.files[x].content) == hash(d.files[y].content)
    ensures Length(d, x).Ok? && Length(d, y).Ok? && Length(d, x).value != Length(d, y).value ==> r == Ok(None)
    ensures (x in d.files && y in d.files && |d.files[x].content| == |d.files[y].content|
      && hash(d.files[x].content) != hash(d.files[y].content)) ==> r == Ok(None)
    ensures (x in d.files && y in d.files && |d.files[x].content| == |d.files[y].content|
      && hash(d.files[x].content) == hash(d.files[y].content)) ==> r == Ok(Some(hash(d.files[x].content)))
    ensures r.Err? <==> (!Exists(d, x) || !Exists(d, y)
      || (Length(d, x) == Length(d, y) && (x !in d.files || y !in d.files)))
  {
    match Length(d, x)
    case Err(e) => Err(e)
    case Ok(xLen) =>
      match Length(d, y)
      case Err(e) => Err(e)
      case Ok(yLen) =>
        if xLen != yLen then Ok(None)
        else
          match FileHash(d, hash, x)
          case Err(e) => Err(e)
          case Ok(xHash) =>
            match FileHash(d, hash, y)
            case Err(e) => Err(e)
            case Ok(yHash) =>
              if xHash != yHash then Ok(None) else Ok(Some(xHash))
  }

  /**
   * `fs::create_dir_all`: create `dir` and any missing ancestors; it fails,
   * creating nothing, when `dir` or an ancestor is a file.
   */
  function CreateDirAll(d: Disk, dir: Path): (r: Result<Disk, Error>)
    requires WellFormed(d)
    ensures r.Ok? ==>
      && WellFormed(r.value) && IsDir(r.value, dir)
      && r.value.files == d.files && r.value.directorySize == d.directorySize
      && d.dirs <= r.value.dirs
      && (forall q :: q in r.value.dirs - d.dirs ==> 0 < |q| <= |dir| && q == dir[..|q|])
    ensures r.Err? <==> exists k :: 0 < k <= |dir| && dir[..k] in d.files
    decreases |dir|
  {
    if dir == [] then Ok(d)
    else if dir in d.dirs then
      AncestorsAreDirs(d, dir);
      assert dir[..|dir|] == dir;
      Ok(d)
    else if dir in d.files then
      Err(NotADirectory(dir))
    else
      match CreateDirAll(d, Parent(dir))
      case Err(e) =>
        PrefixOfParent(dir);
        Err(e)
      case Ok(d1) =>
        assert forall k :: 0 < k <= |Parent(dir)| ==> Parent(dir)[..k] == dir[..k];
        ParentNotFileOk(d, dir);
        Ok(d1.(dirs := d1.dirs + {dir}))
  }

  /** Every ancestor of something that exists is a directory. */
  lemma {:induction false} AncestorsAreDirs(d: Disk, p: Path)
    requires WellFormed(d) && p in Occupied(d)
    ensures forall k :: 0 < k < |p| ==> p[..k] in d.dirs
    decreases |p|
  {
    if |p| > 1 {
      var q := Parent(p);
      assert q in d.dirs;
      AncestorsAreDirs(d, q);
      assert forall k :: 0 < k < |q| ==> q[..k] == p[..k];
    }
  }

  lemma PrefixOfParent(dir: Path)
    requires |dir| > 0
    ensures forall k :: 0 < k <= |Parent(dir)| ==> Parent(dir)[..k] == dir[..k]
  {
  }

  lemma ParentNotFileOk(d: Disk, dir: Path)
    requires WellFormed(d) && |dir| > 0 && dir !in d.files
    requires forall k :: 0 < k <= |Parent(dir)| ==> Parent(dir)[..k] == dir[..k]
    ensures (exists k :: 0 < k <= |dir| && dir[..k] in d.files) <==>
            (exists k :: 0 < k <= |Parent(dir)| && Parent(dir)[..k] in d.files)
  {
    if exists k :: 0 < k <= |dir| && dir[..k] in d.files {
      var k :| 0 < k <= |dir| && dir[..k] in d.files;
      assert dir[..|dir|] == dir;
      assert Parent(dir)[..k] == dir[..k];
    }
  }

  /**
   * `fs::rename(from, to)` for a regular file `from`: the entry moves to `to`,
   * replacing a file already there; it fails when `from` is missing, when `to`
   * is a directory or when the directory `to` goes into is missing.
   */
  function Rename(d: Disk, from: Path, to: Path): (r: Result<Disk, Error>)
    requires WellFormed(d) && |to| > 0
    ensures r.Ok? <==> from in d.files && to !in d.dirs && IsDir(d, Parent(to))
    ensures r.Ok? ==> WellFormed(r.value)
    ensures r.Ok? ==> to in r.value.files && r.value.files[to] == d.files[from] && (from != to ==> from !in r.value.files)
    ensures r.Ok? ==> forall q :: q != from && q != to ==> (q in r.value.files <==> q in d.files)
    ensures r.Ok? ==> forall q :: q != from && q != to && q in d.files ==> r.value.files[q] == d.files[q]
    ensures r.Ok? ==> r.value.dirs == d.dirs && r.value.directorySize == d.directorySize
  {
    if from !in d.files then Err(NotFound(from))
    else if to in d.dirs then Err(IsADirectory(to))
    else if !IsDir(d, Parent(to)) then Err(NotFound(Parent(to)))
    else Ok(d.(files := d.files - {from} + map[to := d.files[from]]))
  }

  /** `move_file`: create the destination's directory, then rename into it. */
  function MoveFile(d: Disk, from: Path, to: Path): (r: Result<Disk, Error>)
    requires WellFormed(d) && |to| > 0
    ensures r.Ok? ==> WellFormed(r.value)
    ensures r.Ok? ==>
      && from in d.files && to in r.value.files && r.value.files[to] == d.files[from]
      && (from != to ==> from !in r.value.files)
  {
    match CreateDirAll(d, Parent(to))
    case Err(e) => Err(e)
    case Ok(d1) => Rename(d1, from, to)
  }

  /**
   * A move that succeeds into an absent destination puts the source's entry
   * there, removes the source and changes no other file; it only adds
   * directories, all of them ancestors of the destination.
   */
  lemma MoveFileEffect(d: Disk, from: Path, to: Path)
    requires WellFormed(d) && |to| > 0 && from in d.files && !Exists(d, to)
    ensures MoveFile(d, from, to).Ok? <==> forall k :: 0 < k < |to| ==> to[..k] !in d.files
    ensures MoveFile(d, from, to).Ok? ==>
      var d2 := MoveFile(d, from, to).value;
      && to in d2.files && d2.files[to] == d.files[from]
      && from !in d2.files
      && (forall q :: q != from && q != to ==> (q in d2.files <==> q in d.files))
      && (forall q :: q != from && q != to && q in d.files ==> d2.files[q] == d.files[q])
      && d.dirs <= d2.dirs && d2.directorySize == d.directorySize
      && (forall q :: q in d2.dirs - d.dirs ==> 0 < |q| < |to| && q == to[..|q|])
  {
    var parent := Parent(to);
    assert forall k :: 0 < k <= |parent| ==> parent[..k] == to[..k];
    match CreateDirAll(d, parent)
    case Err(_) =>
      var k :| 0 < k <= |parent| && parent[..k] in d.files;
      assert to[..k] in d.files;
    case Ok(d1) =>
  }

  /**
   * What the organizer never does to files: it neither deletes nor copies
   * one.  As many files remain, every content is still somewhere, no
   * directory disappears, and a file only appears where nothing was.
   */
  predicate Conserves(d: Disk, d2: Disk) {
    && d.dirs <= d2.dirs
    && |d2.files| == |d.files|
    && d.files.Values <= d2.files.Values
    && (forall q :: q in d2.files && q !in d.files ==> !Exists(d, q))
  }

  lemma ConservesTransitive(d1: Disk, d2: Disk, d3: Disk)
    requires Conserves(d1, d2) && Conserves(d2, d3)
    ensures Conserves(d1, d3)
  {
    forall q | q in d3.files && q !in d1.files
      ensures !Exists(d1, q)
    {
      if q !in d2.files {
        assert !Exists(d2, q);
      }
    }
  }

  /** A move into a free destination conserves the files. */
  lemma MoveConserves(d: Disk, from: Path, to: Path)
    requires WellFormed(d) && |to| > 0 && from in d.files && !Exists(d, to)
    ensures MoveFile(d, from, to).Ok? ==> Conserves(d, MoveFile(d, from, to).value)
  {
    MoveFileEffect(d, from, to);
    if MoveFile(d, from, to).Ok? {
      var d2 := MoveFile(d, from, to).value;
      assert d2.files.Keys == d.files.Keys - {from} + {to};
      assert |d2.files.Keys| == |d.files.Keys| - 1 + 1;
      forall v | v in d.files.Values
        ensures v in d2.files.Values
      {
        var q :| q in d.files && d.files[q] == v;
        if q == from {
          assert d2.files[to] == v;
        } else {
          assert d2.files[q] == v;
        }
      }
    }
  }
}
