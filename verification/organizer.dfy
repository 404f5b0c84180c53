/**
 * The organizer as the program runs it: an object that owns the disk and the
 * event log and changes them step by step.  Each method is proved to do
 * exactly what the reference definitions of `Resolution` and `Walking` say.
 */
module Organizing {
  import opened Wrappers
  import opened Paths
  import opened SiblingOrder
  import opened Naming
  import opened Disks
  import opened Classify
  import opened Events
  import opened Resolution
  import opened Walking

  /** A length no path in `s` exceeds. */
  ghost function Longest(s: set<Path>): (n: nat)
    ensures forall p :: p in s ==> |p| <= n
  {
    if s == {} then 0
    else
      var p :| p in s;
      var rest := Longest(s - {p});
      if |p| < rest then rest else |p|
  }

  class Organizer {
    const config: Config
    const hash: Hasher
    /** A bound on the length of every path the organizer can meet, fixed at the start. */
    ghost const bound: nat
    var disk: Disk
    var events: seq<Event>

    ghost function Env(): Env {
      Walking.Env(config, hash, bound)
    }

    ghost predicate Valid()
      reads this
    {
      Ready(disk, Env())
    }

    constructor (config: Config, hash: Hasher, disk: Disk)
      requires WellFormed(disk)
      ensures this.config == config && this.hash == hash && this.disk == disk && events == []
      ensures Valid() && |config.unorganized| <= bound
    {
      this.config := config;
      this.hash := hash;
      this.disk := disk;
      events := [];
      bound := Longest(Occupied(disk)) + Reach(config) + |config.unorganized|;
    }

    /** `move_file`: create the destination's directory, then rename the file into it. */
    method MoveFile(from: Path, to: Path) returns (r: Result<(), Error>)
      requires WellFormed(disk) && |to| > 0
      modifies this
      ensures WellFormed(disk) && events == old(events)
      ensures match Disks.MoveFile(old(disk), from, to)
        case Ok(moved) => r == Ok(()) && disk == moved
        case Err(e) => r == Err(e)
      ensures r.Err? && from in old(disk).files && !Exists(old(disk), to) ==> disk == old(disk)
    {
      var made := CreateDirAll(disk, Parent(to));
      if made.Err? {
        return Err(made.error);
      }
      disk := made.value;
      var renamed := Rename(disk, from, to);
      if renamed.Err? {
        return Err(renamed.error);
      }
      disk := renamed.value;
      r := Ok(());
    }

    /** `move_file` into `to`, then, when it succeeded, the event `moved` is logged. */
    method MoveAndLog(file: Path, to: Path, moved: Event) returns (r: Result<(), Error>)
      requires WellFormed(disk) && |to| > 0 && file in disk.files && !Exists(disk, to)
      modifies this
      ensures WellFormed(disk)
      ensures var u := MoveStep(old(disk), file, to, moved);
        r == u.result && disk == u.disk && events == old(events) + u.trace
    {
      r := MoveFile(file, to);
      if r.Ok? {
        events := events + [moved];
      }
    }

    /**
     * `move_to_duplicates`: probe the duplicates candidates for `file` under
     * `digest` from conflict number 0 on, stepping past every occupied one,
     * and either report that the file is already there or move it to the
     * first free one.
     */
    method MoveToDuplicates(file: Path, t: DateTime, digest: string) returns (r: Result<(), Error>)
      requires WellFormed(disk) && IsPhotoFile(disk, file)
      modifies this
      ensures WellFormed(disk)
      ensures var o := DuplicatesOutcome(old(disk), config, file, t, digest);
        r == o.result && disk == o.disk && events == old(events) + o.trace
    {
      var s := DuplicatesSchemeOf(config, disk, file, t, digest);
      var conflict := 0;
      var dest := SlotPath(s, conflict);
      while dest != file && Exists(disk, dest)
        invariant dest == SlotPath(s, conflict)
        invariant SearchDuplicates(disk, file, s, conflict) == SearchDuplicates(disk, file, s, 0)
        decreases SearchDuplicates(disk, file, s, 0).conflict - conflict
      {
        conflict := conflict + 1;
        dest := SlotPath(s, conflict);
      }
      if dest == file {
        assert DuplicatesOutcome(old(disk), config, file, t, digest) == FileOutcome(Ok(()), disk, [NoOp(file)]);
        events := events + [NoOp(file)];
        return Ok(());
      }
      assert SearchDuplicates(disk, file, s, 0) == Vacant(conflict);
      assert DuplicatesOutcome(disk, config, file, t, digest) == MoveStep(disk, file, dest, DuplicateMoved(file, dest));
      r := MoveAndLog(file, dest, DuplicateMoved(file, dest));
    }

    /**
     * `organize_file`: log FileStarted; skip a file that is not a photo or
     * whose stem holds '!'; fail on a photo without a capture time; otherwise
     * run the conflict loop and log FileFinished unless it failed.
     */
    method OrganizeFile(file: Path) returns (r: Result<(), Error>)
      requires Valid() && file in disk.files
      modifies this
      ensures Valid()
      ensures var o := FileEffect(old(disk), hash, config, file);
        r == o.result && disk == o.disk && events == old(events) + o.trace
    {
      FileEffectReady(disk, Env(), file);
      events := events + [FileStarted(file)];
      if !IsPhotoFile(disk, file) {
        SkippedFileUntouched(disk, hash, config, file);
        events := events + [Skipped(file, NotAPhoto)];
        AppendPair(old(events), FileStarted(file), Skipped(file, NotAPhoto));
        return Ok(());
      }
      if IsExempt(Last(file)) {
        SkippedFileUntouched(disk, hash, config, file);
        events := events + [Skipped(file, NameHasBang)];
        AppendPair(old(events), FileStarted(file), Skipped(file, NameHasBang));
        return Ok(());
      }
      var taken := disk.files[file].taken;
      if taken.None? {
        UndatedPhotoFails(disk, hash, config, file);
        return Err(NoDateTime(file));
      }
      DatedPhotoEffect(disk, hash, config, file, taken.value);
      r := PlacePhoto(file, taken.value);
      ghost var u := OrganizedStep(old(disk), hash, config, file, taken.value);
      if r.Err? {
        AppendAround(old(events), FileStarted(file), u.trace, []);
        return;
      }
      events := events + [FileFinished(file)];
      AppendAround(old(events), FileStarted(file), u.trace, [FileFinished(file)]);
    }

    /**
     * The conflict loop of `organize_file`: probe the organized candidates
     * from conflict number 0 on, stepping past those holding other content,
     * until the file is found in place (NoOp), a candidate is free (move
     * there, Moved) or a candidate has the same content (hand over to
     * `move_to_duplicates` under its digest); an unreadable candidate fails.
     */
    method PlacePhoto(file: Path, t: DateTime) returns (r: Result<(), Error>)
      requires WellFormed(disk) && IsPhotoFile(disk, file)
      modifies this
      ensures WellFormed(disk)
      ensures var u := OrganizedStep(old(disk), hash, config, file, t);
        r == u.result && disk == u.disk && events == old(events) + u.trace
    {
      var s := OrganizedSchemeOf(config, disk, file, t);
      var p := FindPlace(file, s);
      match p
      case InPlace(_) =>
        InPlaceStep(disk, hash, config, file, t);
        events := events + [NoOp(file)];
        r := Ok(());
      case Unreadable(_, e) =>
        UnreadableStep(disk, hash, config, file, t);
        r := Err(e);
      case SameContent(_, digest) =>
        SameContentStep(disk, hash, config, file, t);
        r := MoveToDuplicates(file, t, digest);
      case Vacant(conflict) =>
        VacantStep(disk, hash, config, file, t);
        var dest := SlotPath(s, conflict);
        r := MoveAndLog(file, dest, Moved(file, dest));
    }

    /**
     * The `conflict` loop of `organize_file`, up to the candidate where it
     * stops: the file itself, a free place, an unreadable occupant or one
     * with the same content.  Every other occupant is stepped past.
     */
    method FindPlace(file: Path, s: Scheme) returns (p: Probe)
      requires s.OrganizedScheme?
      ensures p == SearchOrganized(disk, hash, file, s, 0)
    {
      var conflict := 0;
      while true
        invariant SearchOrganized(disk, hash, file, s, conflict) == SearchOrganized(disk, hash, file, s, 0)
        decreases SearchOrganized(disk, hash, file, s, 0).conflict - conflict
      {
        var dest := SlotPath(s, conflict);
        if dest == file {
          return InPlace(conflict);
        }
        if !Exists(disk, dest) {
          return Vacant(conflict);
        }
        match AreSameFileContents(disk, hash, file, dest)
        case Err(e) =>
          return Unreadable(conflict, e);
        case Ok(Some(digest)) =>
          return SameContent(conflict, digest);
        case Ok(None) =>
          conflict := conflict + 1;
      }
    }

    /**
     * `fs::read_dir(dir)` collected and sorted: the entry names of `dir` in
     * byte order, or the error `read_dir` reports when `dir` is no directory.
     */
    method ReadDir(dir: Path) returns (r: Result<seq<Name>, Error>)
      ensures IsDir(disk, dir) ==> r == Ok(Entries(disk, dir))
      ensures !IsDir(disk, dir) ==> r == Err(ReadDirError(disk, dir))
    {
      if !IsDir(disk, dir) {
        return Err(ReadDirError(disk, dir));
      }
      var rest := ChildNames(disk, dir);
      var listed: seq<Name> := [];
      while rest != {}
        invariant multiset(listed) + multiset(rest) == multiset(ChildNames(disk, dir))
        decreases rest
      {
        var n :| n in rest;
        listed := listed + [n];
        rest := rest - {n};
      }
      var names := Sort(listed);
      SortedUnique(names, Sort(Enumerate(ChildNames(disk, dir))));
      return Ok(names);
    }

    /**
     * The files loop of `organize_directory`: organize, in the listed order,
     * each entry that is a regular file when its turn comes, and stop at the
     * first failure.
     */
    method OrganizeFiles(dir: Path, names: seq<Name>) returns (r: Result<(), Error>)
      requires Valid()
      modifies this
      ensures Valid()
      ensures var w := WalkFiles(old(disk), Env(), dir, names, 0);
        r == w.result && disk == w.disk && events == old(events) + w.trace
    {
      ghost var done: seq<Event> := [];
      var i := 0;
      while i < |names|
        invariant i <= |names| && Valid()
        invariant events == old(events) + done
        invariant var w := WalkFiles(disk, Env(), dir, names, i);
          WalkFiles(old(disk), Env(), dir, names, 0) == Walked(w.result, w.disk, done + w.trace)
      {
        var p := dir + [names[i]];
        if p in disk.files {
          ghost var t;
          r, t := OrganizeListedFile(p, dir, names, i);
          if r.Err? {
            Regroup(old(events), done, t);
            return;
          }
          Regroup(old(events), done, t);
          Regroup(done, t, WalkFiles(disk, Env(), dir, names, i + 1).trace);
          done := done + t;
        }
        i := i + 1;
      }
      assert done + [] == done;
      return Ok(());
    }

    /**
     * The directories loop of `organize_directory`: walk, in the listed order,
     * each entry that is a directory when its turn comes, and stop at the
     * first failure.
     */
    method OrganizeSubdirectories(dir: Path, names: seq<Name>) returns (r: Result<(), Error>)
      requires Valid() && |dir| <= bound
      modifies this
      ensures Valid()
      ensures var w := WalkDirs(old(disk), Env(), dir, names, 0);
        r == w.result && disk == w.disk && events == old(events) + w.trace
      decreases bound - |dir|, 0
    {
      ghost var done: seq<Event> := [];
      var i := 0;
      while i < |names|
        invariant i <= |names| && Valid()
        invariant events == old(events) + done
        invariant var w := WalkDirs(disk, Env(), dir, names, i);
          WalkDirs(old(disk), Env(), dir, names, 0) == Walked(w.result, w.disk, done + w.trace)
      {
        var c := dir + [names[i]];
        if c in disk.dirs {
          ghost var t;
          r, t := OrganizeListedDirectory(c, dir, names, i);
          if r.Err? {
            Regroup(old(events), done, t);
            return;
          }
          Regroup(old(events), done, t);
          Regroup(done, t, WalkDirs(disk, Env(), dir, names, i + 1).trace);
          done := done + t;
        }
        i := i + 1;
      }
      assert done + [] == done;
      return Ok(());
    }

    /** One turn of the files loop: entry `i` of `dir` is a file, so organize it. */
    method OrganizeListedFile(p: Path, ghost dir: Path, ghost names: seq<Name>, ghost i: nat)
      returns (r: Result<(), Error>, ghost t: seq<Event>)
      requires Valid() && i < |names| && p == dir + [names[i]] && p in disk.files
      modifies this
      ensures Valid() && events == old(events) + t
      ensures r.Err? ==> WalkFiles(old(disk), Env(), dir, names, i) == Walked(r, disk, t)
      ensures r.Ok? ==> var rest := WalkFiles(disk, Env(), dir, names, i + 1);
        WalkFiles(old(disk), Env(), dir, names, i) == Walked(rest.result, rest.disk, t + rest.trace)
    {
      r := OrganizeFile(p);
      t := FileEffect(old(disk), hash, config, p).trace;
    }

    /** One turn of the directories loop: entry `i` of `dir` is a directory, so walk it. */
    method OrganizeListedDirectory(c: Path, ghost dir: Path, ghost names: seq<Name>, ghost i: nat)
      returns (r: Result<(), Error>, ghost t: seq<Event>)
      requires Valid() && |dir| <= bound && i < |names| && c == dir + [names[i]] && c in disk.dirs
      modifies this
      ensures Valid() && events == old(events) + t
      ensures r.Err? ==> WalkDirs(old(disk), Env(), dir, names, i) == Walked(r, disk, t)
      ensures r.Ok? ==> var rest := WalkDirs(disk, Env(), dir, names, i + 1);
        WalkDirs(old(disk), Env(), dir, names, i) == Walked(rest.result, rest.disk, t + rest.trace)
      decreases bound - |c|, 3
    {
      DirFits(disk, Env(), c);
      r := OrganizeDirectory(c);
      t := Walk(old(disk), Env(), c).trace;
    }

    /**
     * `organize_directory`: skip the duplicates directory; otherwise log
     * DirStarted, read and sort the entries and go through them, stopping at
     * the first failure.
     */
    method OrganizeDirectory(dir: Path) returns (r: Result<(), Error>)
      requires Valid()
      modifies this
      ensures Valid()
      ensures var w := Walk(old(disk), Env(), dir);
        r == w.result && disk == w.disk && events == old(events) + w.trace
      decreases bound - |dir|, 2
    {
      if dir == config.duplicates {
        return Ok(());
      }
      events := events + [DirStarted(dir)];
      var listing := ReadDir(dir);
      if listing.Err? {
        WalkUnreadable(disk, Env(), dir);
        return Err(listing.error);
      }
      WalkListed(disk, Env(), dir);
      r := OrganizeEntries(dir, listing.value);
      Regroup(old(events), [DirStarted(dir)], Listed(old(disk), Env(), dir, listing.value).trace);
    }

    /**
     * The body of `organize_directory` after `read_dir`: the files loop, then
     * the directories loop, then DirFinished.
     */
    method OrganizeEntries(dir: Path, names: seq<Name>) returns (r: Result<(), Error>)
      requires Valid() && |dir| <= bound
      modifies this
      ensures Valid()
      ensures var l := Listed(old(disk), Env(), dir, names);
        r == l.result && disk == l.disk && events == old(events) + l.trace
      decreases bound - |dir|, 1
    {
      r := OrganizeFiles(dir, names);
      if r.Err? {
        return;
      }
      ghost var f := WalkFiles(old(disk), Env(), dir, names, 0);
      r := OrganizeSubdirectories(dir, names);
      ghost var g := WalkDirs(f.disk, Env(), dir, names, 0);
      Regroup(old(events), f.trace, g.trace);
      if r.Err? {
        assert f.trace + g.trace + [] == f.trace + g.trace;
        return;
      }
      events := events + [DirFinished(dir)];
      Regroup(old(events), f.trace + g.trace, [DirFinished(dir)]);
    }

    /**
     * The run `main` starts once the configuration is loaded: organize the
     * unorganized tree.  Whatever happens, no file is lost or copied.
     */
    method Run() returns (r: Result<(), Error>)
      requires Valid()
      modifies this
      ensures Valid()
      ensures var w := Walk(old(disk), Env(), config.unorganized);
        r == w.result && disk == w.disk && events == old(events) + w.trace
      ensures Conserves(old(disk), disk)
    {
      WalkConserves(disk, Env(), config.unorganized);
      r := OrganizeDirectory(config.unorganized);
    }
  }
}
