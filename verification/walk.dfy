/**
 * `organize_directory` as a reference definition: a walk over one directory
 * that reads and sorts its entries once, organizes the entries that are
 * files, then walks the entries that are directories, and stops at the first
 * error.
 */
module Walking {
  import opened Wrappers
  import opened Paths
  import opened SiblingOrder
  import opened Disks
  import opened Events
  import opened Resolution

  /** The configuration, the digest, and a bound on the length of any path the walk meets. */
  datatype Env = Env(cfg: Config, hash: Hasher, bound: nat)

  /** A disk the walk can run on: a tree whose paths and move destinations fit the bound. */
  ghost predicate Ready(d: Disk, env: Env) {
    && WellFormed(d)
    && Reach(env.cfg) <= env.bound
    && (forall p {:trigger Fits(p, env.bound)} :: p in Occupied(d) ==> Fits(p, env.bound))
  }

  /** A directory of a ready disk fits the bound. */
  lemma DirFits(d: Disk, env: Env, dir: Path)
    requires Ready(d, env) && IsDir(d, dir)
    ensures |dir| <= env.bound
  {
    if dir != [] {
      assert dir in Occupied(d) && Fits(dir, env.bound);
    }
  }

  /** `p` is no longer than the bound. */
  ghost predicate Fits(p: Path, bound: nat) {
    |p| <= bound
  }

  /** The names of a set in some order. */
  ghost function Enumerate(s: set<Name>): (r: seq<Name>)
    ensures multiset(r) == multiset(s)
  {
    if s == {} then []
    else
      var x :| x in s;
      assert multiset(s) == multiset{x} + multiset(s - {x});
      [x] + Enumerate(s - {x})
  }

  /** `fs::read_dir` then `sort`: the names directly inside `dir`, in byte order. */
  ghost function Entries(d: Disk, dir: Path): (r: seq<Name>)
    ensures StrictlySorted(r)
    ensures forall n :: n in r <==> n in ChildNames(d, dir)
  {
    var e := Enumerate(ChildNames(d, dir));
    assert NoDuplicates(e) by {
      forall x | x in e ensures multiset(e)[x] == 1 {
        assert x in multiset(e);
      }
    }
    SortKeepsNoDuplicates(e);
    SortedDistinctIsStrict(Sort(e));
    assert forall n :: n in Sort(e) <==> n in multiset(Sort(e));
    Sort(e)
  }

  /** Why `read_dir` fails on a path that is not a directory. */
  function ReadDirError(d: Disk, dir: Path): Error {
    if dir in d.files then NotADirectory(dir) else NotFound(dir)
  }

  /** The result of a walk: its result, the disk it leaves, the events it logs. */
  datatype Walked = Walked(result: Result<(), Error>, disk: Disk, trace: seq<Event>)

  /** What every event of a walk of `dir` is: about `dir` or something below it, never `FileError`, and a file start strictly below. */
  ghost predicate InWalk(e: Event, dir: Path) {
    Under(dir, Subject(e)) && !e.FileError? && (e.FileStarted? ==> |e.file| > |dir|)
  }

  ghost predicate Inside(t: seq<Event>, dir: Path) {
    forall k :: 0 <= k < |t| ==> InWalk(t[k], dir)
  }

  /** Events of the walks of the subdirectories of `dir`: below `dir`, and files two levels down. */
  ghost predicate Deeper(t: seq<Event>, dir: Path) {
    forall k :: 0 <= k < |t| ==> |Subject(t[k])| > |dir| && (t[k].FileStarted? ==> |t[k].file| > |dir| + 1)
  }

  /** Every directory started in `t` lies strictly below `dir`. */
  ghost predicate OpensBelow(t: seq<Event>, dir: Path) {
    forall k :: 0 <= k < |t| && t[k].DirStarted? ==> |t[k].dir| > |dir|
  }

  /** A log cut short: it ends with the start of the file or directory that failed. */
  ghost predicate EndsOpen(t: seq<Event>) {
    |t| > 0 && (t[|t| - 1].FileStarted? || t[|t| - 1].DirStarted?)
  }

  /**
   * An event that stays out of the duplicates tree: it neither starts nor
   * finishes that directory or one below it, and concerns nothing strictly
   * inside it.
   */
  ghost predicate Avoids(e: Event, duplicates: Path) {
    if e.DirStarted? || e.DirFinished? then !Under(duplicates, e.dir) else !StrictlyUnder(duplicates, Subject(e))
  }

  ghost predicate Avoiding(t: seq<Event>, duplicates: Path) {
    forall k :: 0 <= k < |t| ==> Avoids(t[k], duplicates)
  }

  /** `organize_directory(dir)`. */
  ghost function Walk(d: Disk, env: Env, dir: Path): (w: Walked)
    requires Ready(d, env)
    ensures Ready(w.disk, env) && d.dirs <= w.disk.dirs
    ensures Inside(w.trace, dir)
    ensures dir == env.cfg.duplicates ==> w == Walked(Ok(()), d, [])
    ensures dir != env.cfg.duplicates ==> |w.trace| > 0 && w.trace[0] == DirStarted(dir) && OpensBelow(w.trace[1..], dir)
    ensures w.result.Ok? && dir != env.cfg.duplicates ==> w.trace[|w.trace| - 1] == DirFinished(dir)
    ensures w.result.Err? ==> EndsOpen(w.trace)
    ensures !Under(env.cfg.duplicates, dir) ==> Avoiding(w.trace, env.cfg.duplicates)
    decreases env.bound - |dir|, 1, 0
  {
    if dir == env.cfg.duplicates then Walked(Ok(()), d, [])
    else
      if !IsDir(d, dir) then
        WalkShape(d, env, dir, Err(ReadDirError(d, dir)), d, []);
        Walked(Err(ReadDirError(d, dir)), d, [DirStarted(dir)])
      else
        DirFits(d, env, dir);
        var names := Entries(d, dir);
        var f := WalkFiles(d, env, dir, names, 0);
        FileEventsInWalk(f.trace, dir, env.cfg.duplicates);
        if f.result.Err? then
          WalkShape(d, env, dir, f.result, f.disk, f.trace);
          Walked(f.result, f.disk, [DirStarted(dir)] + f.trace)
        else
          var g := WalkDirs(f.disk, env, dir, names, 0);
          var body := f.trace + g.trace;
          JoinedLogs(f.trace, g.trace, dir, env.cfg.duplicates);
          if g.result.Err? then
            WalkShape(d, env, dir, g.result, g.disk, body);
            Walked(g.result, g.disk, [DirStarted(dir)] + body)
          else
            var closed := body + [DirFinished(dir)];
            Brackets(dir, env.cfg.duplicates);
            JoinedLogs(body, [DirFinished(dir)], dir, env.cfg.duplicates);
            WalkShape(d, env, dir, g.result, g.disk, closed);
            Walked(g.result, g.disk, [DirStarted(dir)] + closed)
  }

  /**
   * A walk that starts `dir` and then logs `body` ends as `Walk` promises:
   * ready, with no directory lost, its log opened by DirStarted and closed
   * by DirFinished when it succeeds, cut short when it fails.
   */
  lemma WalkShape(d: Disk, env: Env, dir: Path, result: Result<(), Error>, d2: Disk, body: seq<Event>)
    requires Ready(d2, env) && d.dirs <= d2.dirs && dir != env.cfg.duplicates
    requires Inside(body, dir) && OpensBelow(body, dir)
    requires !Under(env.cfg.duplicates, dir) ==> Avoiding(body, env.cfg.duplicates)
    requires result.Ok? ==> |body| > 0 && body[|body| - 1] == DirFinished(dir)
    requires result.Err? ==> body == [] || EndsOpen(body)
    ensures var w := Walked(result, d2, [DirStarted(dir)] + body);
      && Ready(w.disk, env) && d.dirs <= w.disk.dirs
      && Inside(w.trace, dir)
      && |w.trace| > 0 && w.trace[0] == DirStarted(dir) && OpensBelow(w.trace[1..], dir)
      && (w.result.Ok? ==> w.trace[|w.trace| - 1] == DirFinished(dir))
      && (w.result.Err? ==> EndsOpen(w.trace))
      && (!Under(env.cfg.duplicates, dir) ==> Avoiding(w.trace, env.cfg.duplicates))
  {
    Started(dir, env.cfg.duplicates, body, result.Ok?);
  }

  /** The files loop of `organize_directory`, from entry `i` on. */
  ghost function WalkFiles(d: Disk, env: Env, dir: Path, names: seq<Name>, i: nat): (w: Walked)
    requires Ready(d, env) && i <= |names|
    ensures Ready(w.disk, env) && d.dirs <= w.disk.dirs
    ensures ChildFileEvents(w.trace, dir)
    ensures w.result.Err? ==> |w.trace| > 0 && w.trace[|w.trace| - 1].FileStarted?
    decreases |names| - i
  {
    if i == |names| then Walked(Ok(()), d, [])
    else
      var p := dir + [names[i]];
      if p !in d.files then WalkFiles(d, env, dir, names, i + 1)
      else
        var o := FileEffect(d, env.hash, env.cfg, p);
        ChildOf(dir, names[i]);
        FileEffectReady(d, env, p);
        FileEffectEvents(d, env, dir, p);
        if o.result.Err? then Walked(o.result, o.disk, o.trace)
        else
          var rest := WalkFiles(o.disk, env, dir, names, i + 1);
          ChildFileEventsJoined(o.trace, rest.trace, dir);
          Walked(rest.result, rest.disk, o.trace + rest.trace)
  }

  /** Events of the files loop of `dir`: each is about an entry directly inside `dir`, and none is a directory bracket or `FileError`. */
  ghost predicate ChildFileEvents(t: seq<Event>, dir: Path) {
    forall k :: 0 <= k < |t| ==> IsChild(dir, Subject(t[k])) && IsFileEvent(t[k])
  }

  lemma ChildFileEventsJoined(a: seq<Event>, b: seq<Event>, dir: Path)
    requires ChildFileEvents(a, dir) && ChildFileEvents(b, dir)
    ensures ChildFileEvents(a + b, dir)
  {
  }

  /** The events of one file's effect are file events about that file, an entry of `dir`. */
  lemma FileEffectEvents(d: Disk, env: Env, dir: Path, p: Path)
    requires Ready(d, env) && p in d.files && IsChild(dir, p)
    ensures ChildFileEvents(FileEffect(d, env.hash, env.cfg, p).trace, dir)
    ensures var o := FileEffect(d, env.hash, env.cfg, p);
      o.result.Err? ==> o.trace == [FileStarted(p)] && o.disk == d
  {
  }

  /** The directories loop of `organize_directory`, from entry `i` on. */
  ghost function WalkDirs(d: Disk, env: Env, dir: Path, names: seq<Name>, i: nat): (w: Walked)
    requires Ready(d, env) && |dir| <= env.bound && i <= |names|
    ensures Ready(w.disk, env) && d.dirs <= w.disk.dirs
    ensures Inside(w.trace, dir) && Deeper(w.trace, dir) && OpensBelow(w.trace, dir)
    ensures w.result.Err? ==> EndsOpen(w.trace)
    ensures !Under(env.cfg.duplicates, dir) ==> Avoiding(w.trace, env.cfg.duplicates)
    decreases env.bound - |dir|, 0, |names| - i
  {
    if i == |names| then Walked(Ok(()), d, [])
    else
      var c := dir + [names[i]];
      if c !in d.dirs then WalkDirs(d, env, dir, names, i + 1)
      else
        DirFits(d, env, c);
        ChildOf(dir, names[i]);
        var w := Walk(d, env, c);
        ChildEventsInWalk(w.trace, dir, c, env.cfg.duplicates);
        if w.result.Err? then w
        else
          var rest := WalkDirs(w.disk, env, dir, names, i + 1);
          Joined(w.trace, rest.trace, dir, env.cfg.duplicates);
          Walked(rest.result, rest.disk, w.trace + rest.trace)
  }

  /**
   * A walk neither deletes nor copies a file: it leaves as many files as it
   * found, every content still somewhere, and puts files only where nothing was.
   */
  lemma {:induction false} WalkConserves(d: Disk, env: Env, dir: Path)
    requires Ready(d, env)
    ensures Conserves(d, Walk(d, env, dir).disk)
    decreases env.bound - |dir|, 1, 0
  {
    if dir != env.cfg.duplicates && IsDir(d, dir) {
      DirFits(d, env, dir);
      var names := Entries(d, dir);
      var f := WalkFiles(d, env, dir, names, 0);
      WalkFilesConserves(d, env, dir, names, 0);
      if f.result.Ok? {
        WalkDirsConserves(f.disk, env, dir, names, 0);
        ConservesTransitive(d, f.disk, WalkDirs(f.disk, env, dir, names, 0).disk);
      }
    }
  }

  lemma {:induction false} WalkFilesConserves(d: Disk, env: Env, dir: Path, names: seq<Name>, i: nat)
    requires Ready(d, env) && i <= |names|
    ensures Conserves(d, WalkFiles(d, env, dir, names, i).disk)
    decreases |names| - i
  {
    if i < |names| {
      var p := dir + [names[i]];
      if p !in d.files {
        WalkFilesConserves(d, env, dir, names, i + 1);
      } else {
        var o := FileEffect(d, env.hash, env.cfg, p);
        FileEffectConserves(d, env.hash, env.cfg, p);
        if o.result.Ok? {
          FileEffectReady(d, env, p);
          WalkFilesConserves(o.disk, env, dir, names, i + 1);
          ConservesTransitive(d, o.disk, WalkFiles(o.disk, env, dir, names, i + 1).disk);
        }
      }
    }
  }

  lemma {:induction false} WalkDirsConserves(d: Disk, env: Env, dir: Path, names: seq<Name>, i: nat)
    requires Ready(d, env) && |dir| <= env.bound && i <= |names|
    ensures Conserves(d, WalkDirs(d, env, dir, names, i).disk)
    decreases env.bound - |dir|, 0, |names| - i
  {
    if i < |names| {
      var c := dir + [names[i]];
      if c !in d.dirs {
        WalkDirsConserves(d, env, dir, names, i + 1);
      } else {
        DirFits(d, env, c);
        var w := Walk(d, env, c);
        WalkConserves(d, env, c);
        if w.result.Ok? {
          WalkDirsConserves(w.disk, env, dir, names, i + 1);
          ConservesTransitive(d, w.disk, WalkDirs(w.disk, env, dir, names, i + 1).disk);
        }
      }
    }
  }

  /** A walk that cannot read `dir` logs only its start and fails as `read_dir` does. */
  lemma WalkUnreadable(d: Disk, env: Env, dir: Path)
    requires Ready(d, env) && dir != env.cfg.duplicates && !IsDir(d, dir)
    ensures Walk(d, env, dir) == Walked(Err(ReadDirError(d, dir)), d, [DirStarted(dir)])
  {
  }

  /**
   * What a walk does once the entries of `dir` are read: the files loop,
   * then, if it succeeds, the directories loop and the finish of `dir`.
   */
  ghost function Listed(d: Disk, env: Env, dir: Path, names: seq<Name>): (w: Walked)
    requires Ready(d, env) && |dir| <= env.bound
    ensures Ready(w.disk, env)
  {
    var f := WalkFiles(d, env, dir, names, 0);
    if f.result.Err? then f
    else
      var g := WalkDirs(f.disk, env, dir, names, 0);
      Walked(g.result, g.disk, f.trace + g.trace + if g.result.Ok? then [DirFinished(dir)] else [])
  }

  /** A walk that reads `dir` logs its start, then does what `Listed` says with the entries it read. */
  lemma WalkListed(d: Disk, env: Env, dir: Path)
    requires Ready(d, env) && dir != env.cfg.duplicates && IsDir(d, dir)
    ensures |dir| <= env.bound
    ensures var l := Listed(d, env, dir, Entries(d, dir));
      Walk(d, env, dir) == Walked(l.result, l.disk, [DirStarted(dir)] + l.trace)
  {
    DirFits(d, env, dir);
  }

  /** A file's effect keeps the disk ready for the rest of the walk. */
  lemma FileEffectReady(d: Disk, env: Env, p: Path)
    requires Ready(d, env) && p in d.files
    ensures Ready(FileEffect(d, env.hash, env.cfg, p).disk, env)
  {
    var o := FileEffect(d, env.hash, env.cfg, p);
    forall q {:trigger Fits(q, env.bound)} | q in Occupied(o.disk) ensures Fits(q, env.bound) {
      if q in Occupied(d) {
        assert Fits(q, env.bound);
      }
    }
  }

  /** Each of the trace properties holds of a concatenation when it holds of both parts. */
  lemma Joined(a: seq<Event>, b: seq<Event>, dir: Path, duplicates: Path)
    ensures Inside(a, dir) && Inside(b, dir) ==> Inside(a + b, dir)
    ensures OpensBelow(a, dir) && OpensBelow(b, dir) ==> OpensBelow(a + b, dir)
    ensures EndsOpen(b) ==> EndsOpen(a + b)
    ensures Deeper(a, dir) && Deeper(b, dir) ==> Deeper(a + b, dir)
    ensures Avoiding(a, duplicates) && Avoiding(b, duplicates) ==> Avoiding(a + b, duplicates)
  {
  }

  /** Two logs of the walk of `dir` joined: still of that walk, still cut short when the second is. */
  lemma JoinedLogs(a: seq<Event>, b: seq<Event>, dir: Path, duplicates: Path)
    requires Inside(a, dir) && Inside(b, dir) && OpensBelow(a, dir) && OpensBelow(b, dir)
    requires !Under(duplicates, dir) ==> Avoiding(a, duplicates) && Avoiding(b, duplicates)
    ensures Inside(a + b, dir) && OpensBelow(a + b, dir)
    ensures !Under(duplicates, dir) ==> Avoiding(a + b, duplicates)
    ensures EndsOpen(b) ==> EndsOpen(a + b)
  {
    Joined(a, b, dir, duplicates);
  }

  /** The events that open and close the walk of `dir` belong to it. */
  lemma Brackets(dir: Path, duplicates: Path)
    ensures Inside([DirStarted(dir)], dir) && Inside([DirFinished(dir)], dir) && Inside([], dir)
    ensures OpensBelow([DirFinished(dir)], dir) && OpensBelow([], dir)
    ensures !Under(duplicates, dir) ==> Avoiding([DirStarted(dir)], duplicates) && Avoiding([DirFinished(dir)], duplicates)
  {
    assert dir[..|dir|] == dir;
  }

  /**
   * The log of a walk that does not skip `dir`: its start, then a body of
   * events that belong to the walk; it ends with the finish of `dir` when
   * the walk succeeds, and is cut short when it fails.
   */
  lemma Started(dir: Path, duplicates: Path, body: seq<Event>, ok: bool)
    requires Inside(body, dir) && OpensBelow(body, dir)
    requires !Under(duplicates, dir) ==> Avoiding(body, duplicates)
    requires ok ==> |body| > 0 && body[|body| - 1] == DirFinished(dir)
    requires !ok ==> body == [] || EndsOpen(body)
    ensures var t := [DirStarted(dir)] + body;
      && Inside(t, dir) && |t| > 0 && t[0] == DirStarted(dir) && OpensBelow(t[1..], dir)
      && (ok ==> t[|t| - 1] == DirFinished(dir))
      && (!ok ==> EndsOpen(t))
      && (!Under(duplicates, dir) ==> Avoiding(t, duplicates))
  {
    Brackets(dir, duplicates);
    Opened(dir, body, duplicates);
  }

  /** The walk's log is `DirStarted(dir)` followed by the events of its body. */
  lemma Opened(dir: Path, body: seq<Event>, duplicates: Path)
    requires Inside([DirStarted(dir)], dir) && Inside(body, dir)
    requires !Under(duplicates, dir) ==> Avoiding([DirStarted(dir)], duplicates) && Avoiding(body, duplicates)
    ensures Inside([DirStarted(dir)] + body, dir)
    ensures ([DirStarted(dir)] + body)[1..] == body
    ensures !Under(duplicates, dir) ==> Avoiding([DirStarted(dir)] + body, duplicates)
  {
    Joined([DirStarted(dir)], body, dir, duplicates);
  }

  /** The events of the files loop belong to the walk of `dir` and stay out of the duplicates tree. */
  lemma FileEventsInWalk(t: seq<Event>, dir: Path, duplicates: Path)
    requires ChildFileEvents(t, dir)
    ensures Inside(t, dir) && OpensBelow(t, dir)
    ensures !Under(duplicates, dir) ==> Avoiding(t, duplicates)
  {
  }

  /** The events of a subdirectory's walk belong to the walk of `dir`, one level further down. */
  lemma ChildEventsInWalk(t: seq<Event>, dir: Path, c: Path, duplicates: Path)
    requires IsChild(dir, c)
    requires Inside(t, c)
    requires c != duplicates && !Under(duplicates, c) ==> Avoiding(t, duplicates)
    requires c == duplicates ==> t == []
    ensures Inside(t, dir) && Deeper(t, dir) && OpensBelow(t, dir)
    ensures !Under(duplicates, dir) ==> Avoiding(t, duplicates)
  {
    forall k | 0 <= k < |t| ensures InWalk(t[k], dir) {
      UnderTransitive(dir, c, Subject(t[k]));
    }
  }
}
