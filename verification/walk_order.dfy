/**
 * The order in which `organize_directory` visits the entries of a directory:
 * entries in byte order, every file before any subdirectory, and, when the
 * walk succeeds, every entry that was there when it began.
 */
module WalkOrder {
  import opened Paths
  import opened SiblingOrder
  import opened Disks
  import opened Events
  import opened Resolution
  import opened Walking

  lemma PrependSorted(x: Name, s: seq<Name>)
    requires StrictlySorted(s) && forall y :: y in s ==> Before(x, y)
    ensures StrictlySorted([x] + s)
  {
    forall i, j | 0 <= i < j < |[x] + s| ensures Before(([x] + s)[i], ([x] + s)[j]) {
      if i == 0 {
        assert ([x] + s)[j] == s[j - 1];
      }
    }
  }

  lemma SortedTail(s: seq<Name>, i: nat)
    requires i < |s| && StrictlySorted(s[i..])
    ensures StrictlySorted(s[i + 1..])
    ensures forall y :: y in s[i + 1..] ==> Before(s[i], y)
  {
    assert s[i..][1..] == s[i + 1..];
    forall y | y in s[i + 1..] ensures Before(s[i], y) {
      StrictlySortedAfter(s[i..], 0, y);
    }
  }

  /** The names from `i` on are the name at `i` and those after it. */
  lemma TailNames(s: seq<Name>, i: nat)
    requires i < |s|
    ensures s[i] in s[i..]
    ensures forall y :: y in s[i + 1..] ==> y in s[i..]
  {
    assert s[i..] == [s[i]] + s[i + 1..];
  }

  /** The log of one file starts exactly that file among the entries of its directory, and no directory. */
  lemma OneFileStarted(t: seq<Event>, dir: Path, p: Path)
    requires IsChild(dir, p) && |t| > 0 && t[0] == FileStarted(p)
    requires forall k :: 0 < k < |t| ==> !t[k].FileStarted?
    ensures ChildrenStarted(t, dir, false) == [Last(p)]
  {
    ChildrenStartedNone(t[1..], dir, false);
  }

  /**
   * The files loop starts entries of `dir` only from `names[i..]`, in the
   * order of `names`; when it succeeds it has started every one of them that
   * was a file when the loop began.
   */
  lemma {:induction false} FilesLoopOrder(d: Disk, env: Env, dir: Path, names: seq<Name>, i: nat)
    requires Ready(d, env) && i <= |names|
    ensures forall n :: n in ChildrenStarted(WalkFiles(d, env, dir, names, i).trace, dir, false) ==> n in names[i..]
    ensures StrictlySorted(names[i..]) ==> StrictlySorted(ChildrenStarted(WalkFiles(d, env, dir, names, i).trace, dir, false))
    ensures WalkFiles(d, env, dir, names, i).result.Ok? ==>
      forall j :: i <= j < |names| && dir + [names[j]] in d.files ==>
        names[j] in ChildrenStarted(WalkFiles(d, env, dir, names, i).trace, dir, false)
    decreases |names| - i
  {
    if i < |names| {
      var p := dir + [names[i]];
      var w := WalkFiles(d, env, dir, names, i);
      var cs := ChildrenStarted(w.trace, dir, false);
      TailNames(names, i);
      if StrictlySorted(names[i..]) {
        SortedTail(names, i);
      }
      if p !in d.files {
        FilesLoopOrder(d, env, dir, names, i + 1);
      } else {
        var o := FileEffect(d, env.hash, env.cfg, p);
        ChildOf(dir, names[i]);
        OneFileStarted(o.trace, dir, p);
        if o.result.Ok? {
          FileEffectReady(d, env, p);
          var rest := WalkFiles(o.disk, env, dir, names, i + 1);
          FilesLoopOrder(o.disk, env, dir, names, i + 1);
          ChildrenStartedAppend(o.trace, rest.trace, dir, false);
          assert cs == [names[i]] + ChildrenStarted(rest.trace, dir, false);
          if StrictlySorted(names[i..]) {
            PrependSorted(names[i], ChildrenStarted(rest.trace, dir, false));
          }
        }
      }
    }
  }

  /** The walk of a subdirectory starts that subdirectory and no other entry of its parent. */
  lemma OneDirStarted(d: Disk, env: Env, dir: Path, c: Path)
    requires Ready(d, env) && |c| <= env.bound && IsChild(dir, c)
    ensures ChildrenStarted(Walk(d, env, c).trace, dir, false) == []
    ensures ChildrenStarted(Walk(d, env, c).trace, dir, true) == if c == env.cfg.duplicates then [] else [Last(c)]
  {
    var t := Walk(d, env, c).trace;
    ChildrenStartedNone(t, dir, false);
    if c != env.cfg.duplicates {
      ChildrenStartedNone(t[1..], dir, true);
    }
  }

  /**
   * The directories loop starts directories inside `dir` only from
   * `names[i..]`, in the order of `names`, and no file inside `dir`; when it
   * succeeds it has started every one of them, other than the duplicates
   * root, that was a directory when the loop began.
   */
  lemma {:induction false} DirsLoopOrder(d: Disk, env: Env, dir: Path, names: seq<Name>, i: nat)
    requires Ready(d, env) && |dir| <= env.bound && i <= |names|
    ensures ChildrenStarted(WalkDirs(d, env, dir, names, i).trace, dir, false) == []
    ensures forall n :: n in ChildrenStarted(WalkDirs(d, env, dir, names, i).trace, dir, true) ==> n in names[i..]
    ensures StrictlySorted(names[i..]) ==> StrictlySorted(ChildrenStarted(WalkDirs(d, env, dir, names, i).trace, dir, true))
    ensures WalkDirs(d, env, dir, names, i).result.Ok? ==>
      forall j :: i <= j < |names| && dir + [names[j]] in d.dirs && dir + [names[j]] != env.cfg.duplicates ==>
        names[j] in ChildrenStarted(WalkDirs(d, env, dir, names, i).trace, dir, true)
    decreases |names| - i
  {
    if i < |names| {
      var c := dir + [names[i]];
      var w := WalkDirs(d, env, dir, names, i);
      if StrictlySorted(names[i..]) {
        SortedTail(names, i);
      }
      if c !in d.dirs {
        DirsLoopOrder(d, env, dir, names, i + 1);
      } else {
        DirFits(d, env, c);
        ChildOf(dir, names[i]);
        var v := Walk(d, env, c);
        OneDirStarted(d, env, dir, c);
        TailNames(names, i);
        if v.result.Ok? {
          var rest := WalkDirs(v.disk, env, dir, names, i + 1);
          DirsLoopOrder(v.disk, env, dir, names, i + 1);
          ChildrenStartedAppend(v.trace, rest.trace, dir, false);
          ChildrenStartedAppend(v.trace, rest.trace, dir, true);
          assert w.trace == v.trace + rest.trace;
          if StrictlySorted(names[i..]) && c != env.cfg.duplicates {
            PrependSorted(names[i], ChildrenStarted(rest.trace, dir, true));
          }
        }
      }
    }
  }

  /** The log of a walk that reads `dir`: its start, the files loop, then, if that succeeds, the directories loop and the finish. */
  lemma WalkShape(d: Disk, env: Env, dir: Path)
    requires Ready(d, env) && dir != env.cfg.duplicates && IsDir(d, dir)
    ensures |dir| <= env.bound
    ensures WalkFiles(d, env, dir, Entries(d, dir), 0).result.Err? ==>
      Walk(d, env, dir).trace == [DirStarted(dir)] + WalkFiles(d, env, dir, Entries(d, dir), 0).trace
    ensures var f := WalkFiles(d, env, dir, Entries(d, dir), 0);
      f.result.Ok? ==>
        var g := WalkDirs(f.disk, env, dir, Entries(d, dir), 0);
        Walk(d, env, dir).trace == [DirStarted(dir)] + (f.trace + g.trace + if g.result.Ok? then [DirFinished(dir)] else [])
  {
    DirFits(d, env, dir);
  }

  /**
   * In a log made of the start of `dir`, the events of its files loop, and
   * possibly those of its directories loop and its finish, the entries of
   * `dir` started are those the two loops start.
   */
  lemma BracketedChildren(dir: Path, files: seq<Event>, dirs: seq<Event>, closing: seq<Event>, asDir: bool)
    requires closing == [] || closing == [DirFinished(dir)]
    ensures ChildrenStarted([DirStarted(dir)] + (files + dirs + closing), dir, asDir) ==
      ChildrenStarted(files, dir, asDir) + ChildrenStarted(dirs, dir, asDir)
    ensures ChildrenStarted([DirStarted(dir)] + files, dir, asDir) == ChildrenStarted(files, dir, asDir)
  {
    ChildrenStartedNone([DirStarted(dir)], dir, asDir);
    ChildrenStartedNone(closing, dir, asDir);
    ChildrenStartedAppend(files, dirs, dir, asDir);
    ChildrenStartedAppend(files + dirs, closing, dir, asDir);
    ChildrenStartedAppend([DirStarted(dir)], files + dirs + closing, dir, asDir);
    ChildrenStartedAppend([DirStarted(dir)], files, dir, asDir);
  }

  /** Among the entries of `dir`, the walk starts as files what its files loop starts. */
  lemma WalkFileChildren(d: Disk, env: Env, dir: Path)
    requires Ready(d, env) && dir != env.cfg.duplicates && IsDir(d, dir)
    ensures ChildrenStarted(Walk(d, env, dir).trace, dir, false) ==
      ChildrenStarted(WalkFiles(d, env, dir, Entries(d, dir), 0).trace, dir, false)
  {
    var names := Entries(d, dir);
    var f := WalkFiles(d, env, dir, names, 0);
    WalkShape(d, env, dir);
    if f.result.Err? {
      BracketedChildren(dir, f.trace, [], [], false);
    } else {
      var g := WalkDirs(f.disk, env, dir, names, 0);
      DirsLoopOrder(f.disk, env, dir, names, 0);
      BracketedChildren(dir, f.trace, g.trace, if g.result.Ok? then [DirFinished(dir)] else [], false);
    }
  }

  /** Among the entries of `dir`, the walk starts as directories what its directories loop starts. */
  lemma WalkDirChildren(d: Disk, env: Env, dir: Path)
    requires Ready(d, env) && dir != env.cfg.duplicates && IsDir(d, dir)
    ensures |dir| <= env.bound
    ensures var f := WalkFiles(d, env, dir, Entries(d, dir), 0);
      ChildrenStarted(Walk(d, env, dir).trace, dir, true) ==
        if f.result.Err? then [] else ChildrenStarted(WalkDirs(f.disk, env, dir, Entries(d, dir), 0).trace, dir, true)
  {
    var names := Entries(d, dir);
    var f := WalkFiles(d, env, dir, names, 0);
    WalkShape(d, env, dir);
    ChildrenStartedNone(f.trace, dir, true);
    if f.result.Err? {
      BracketedChildren(dir, f.trace, [], [], true);
    } else {
      var g := WalkDirs(f.disk, env, dir, names, 0);
      BracketedChildren(dir, f.trace, g.trace, if g.result.Ok? then [DirFinished(dir)] else [], true);
    }
  }

  /** A walk that does not read `dir` starts none of its entries. */
  lemma WalkWithoutEntries(d: Disk, env: Env, dir: Path)
    requires Ready(d, env) && (dir == env.cfg.duplicates || !IsDir(d, dir))
    ensures ChildrenStarted(Walk(d, env, dir).trace, dir, false) == []
    ensures ChildrenStarted(Walk(d, env, dir).trace, dir, true) == []
  {
    ChildrenStartedNone(Walk(d, env, dir).trace, dir, false);
    ChildrenStartedNone(Walk(d, env, dir).trace, dir, true);
  }

  /** The names `read_dir` lists for `dir` are those of the entries directly inside it. */
  lemma EntriesAreChildren(d: Disk, dir: Path)
    ensures forall n :: n in Entries(d, dir) <==> dir + [n] in Occupied(d)
  {
    forall n ensures n in Entries(d, dir) <==> dir + [n] in Occupied(d) {
      ChildNamesMembership(d, dir, n);
    }
  }

  /** The walk of `dir` starts the files directly inside it in byte order, each an entry `read_dir` listed. */
  lemma WalkStartsFilesInOrder(d: Disk, env: Env, dir: Path)
    requires Ready(d, env)
    ensures StrictlySorted(ChildrenStarted(Walk(d, env, dir).trace, dir, false))
    ensures forall n :: n in ChildrenStarted(Walk(d, env, dir).trace, dir, false) ==> dir + [n] in Occupied(d)
    ensures Walk(d, env, dir).result.Ok? && dir != env.cfg.duplicates ==>
      forall n :: dir + [n] in d.files ==> n in ChildrenStarted(Walk(d, env, dir).trace, dir, false)
  {
    if dir == env.cfg.duplicates || !IsDir(d, dir) {
      WalkWithoutEntries(d, env, dir);
    } else {
      var names := Entries(d, dir);
      WalkFileChildren(d, env, dir);
      EntriesAreChildren(d, dir);
      assert names[0..] == names;
      FilesLoopOrder(d, env, dir, names, 0);
      forall n | dir + [n] in d.files ensures n in names {
        assert dir + [n] in Occupied(d);
      }
      forall n | n in names ensures exists j :: 0 <= j < |names| && names[j] == n {
      }
    }
  }

  /**
   * The walk of `dir` starts the subdirectories directly inside it in byte
   * order, each an entry `read_dir` listed; when it succeeds it has started
   * every subdirectory but the duplicates root.
   */
  lemma WalkStartsDirectoriesInOrder(d: Disk, env: Env, dir: Path)
    requires Ready(d, env)
    ensures StrictlySorted(ChildrenStarted(Walk(d, env, dir).trace, dir, true))
    ensures forall n :: n in ChildrenStarted(Walk(d, env, dir).trace, dir, true) ==> dir + [n] in Occupied(d)
    ensures Walk(d, env, dir).result.Ok? && dir != env.cfg.duplicates ==>
      forall n :: dir + [n] in d.dirs && dir + [n] != env.cfg.duplicates ==> n in ChildrenStarted(Walk(d, env, dir).trace, dir, true)
  {
    if dir == env.cfg.duplicates || !IsDir(d, dir) {
      WalkWithoutEntries(d, env, dir);
    } else {
      var names := Entries(d, dir);
      var f := WalkFiles(d, env, dir, names, 0);
      WalkDirChildren(d, env, dir);
      EntriesAreChildren(d, dir);
      assert names[0..] == names;
      if f.result.Ok? {
        DirsLoopOrder(f.disk, env, dir, names, 0);
        forall n | dir + [n] in d.dirs ensures n in names && dir + [n] in f.disk.dirs {
          assert dir + [n] in Occupied(d);
        }
      }
    }
  }

  /** In `t`, every file started directly inside `dir` comes before every directory started directly inside it. */
  ghost predicate FilesFirst(t: seq<Event>, dir: Path) {
    forall j, k :: 0 <= j < |t| && 0 <= k < |t| && StartsChild(t[j], dir, false) && StartsChild(t[k], dir, true) ==> j < k
  }

  /** A bracketed log whose file events precede the deeper events of the subdirectories starts files first. */
  lemma BracketedFilesFirst(dir: Path, files: seq<Event>, dirs: seq<Event>, closing: seq<Event>)
    requires forall k :: 0 <= k < |files| ==> IsFileEvent(files[k])
    requires Deeper(dirs, dir)
    requires closing == [] || closing == [DirFinished(dir)]
    ensures FilesFirst([DirStarted(dir)] + (files + dirs + closing), dir)
  {
    var t := [DirStarted(dir)] + (files + dirs + closing);
    forall j | 0 <= j < |t| && StartsChild(t[j], dir, false) ensures 1 <= j <= |files| {
    }
    forall k | 0 <= k < |t| && StartsChild(t[k], dir, true) ensures k > |files| {
    }
  }

  /** Every file directly inside `dir` is started before any subdirectory of `dir`. */
  lemma FilesBeforeSubdirectories(d: Disk, env: Env, dir: Path)
    requires Ready(d, env)
    ensures FilesFirst(Walk(d, env, dir).trace, dir)
  {
    if dir != env.cfg.duplicates && IsDir(d, dir) {
      var names := Entries(d, dir);
      var f := WalkFiles(d, env, dir, names, 0);
      WalkShape(d, env, dir);
      if f.result.Ok? {
        var g := WalkDirs(f.disk, env, dir, names, 0);
        BracketedFilesFirst(dir, f.trace, g.trace, if g.result.Ok? then [DirFinished(dir)] else []);
      } else {
        assert f.trace == f.trace + [] + [];
        BracketedFilesFirst(dir, f.trace, [], []);
      }
    }
  }
}
