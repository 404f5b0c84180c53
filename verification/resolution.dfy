/**
 * What `organize_file` does to one file, as reference definitions: the
 * conflict loop of the organized tree, the loop of `move_to_duplicates`, the
 * resulting plan, and its effect on the disk and the event log.
 */
module Resolution {
  import opened Wrappers
  import opened Paths
  import opened Naming
  import opened Disks
  import opened Classify
  import opened Events

  /** The three roots from the configuration file. */
  datatype Config = Config(unorganized: Path, organized: Path, duplicates: Path)

  /** The digest of a file's bytes (`get_file_hash`). */
  type Hasher = seq<Byte> -> string

  /** How a conflict loop ends, and at which conflict number. */
  datatype Probe =
    | InPlace(conflict: nat)
    | Vacant(conflict: nat)
    | SameContent(conflict: nat, digest: string)
    | Unreadable(conflict: nat, error: Error)

  /** A candidate the organized loop steps past: something else is there, with other content. */
  predicate Collision(d: Disk, hash: Hasher, file: Path, dest: Path) {
    dest != file && Exists(d, dest) && AreSameFileContents(d, hash, file, dest) == Ok(None)
  }

  /** What the organized loop's last candidate `dest` means for the outcome `r`. */
  predicate OrganizedStop(d: Disk, hash: Hasher, file: Path, dest: Path, r: Probe) {
    match r
    case InPlace(_) => dest == file
    case Vacant(_) => dest != file && !Exists(d, dest)
    case SameContent(_, h) => dest != file && Exists(d, dest) && AreSameFileContents(d, hash, file, dest) == Ok(Some(h))
    case Unreadable(_, e) => dest != file && Exists(d, dest) && AreSameFileContents(d, hash, file, dest) == Err(e)
  }

  /**
   * The `conflict` loop of `organize_file` from conflict number `c` on: the
   * first candidate that is not a collision, and what is there.
   */
  function SearchOrganized(d: Disk, hash: Hasher, file: Path, s: Scheme, c: nat): (r: Probe)
    requires s.OrganizedScheme?
    ensures r.conflict >= c
    ensures forall j :: c <= j < r.conflict ==> Collision(d, hash, file, SlotPath(s, j))
    ensures OrganizedStop(d, hash, file, SlotPath(s, r.conflict), r)
    decreases Occupied(d) - SlotsBelow(s, c)
  {
    var dest := SlotPath(s, c);
    if dest == file then InPlace(c)
    else if !Exists(d, dest) then Vacant(c)
    else match AreSameFileContents(d, hash, file, dest)
      case Err(e) => Unreadable(c, e)
      case Ok(Some(h)) => SameContent(c, h)
      case Ok(None) =>
        SlotsBelowStep(s, c);
        SearchOrganized(d, hash, file, s, c + 1)
  }

  /**
   * The loop of `move_to_duplicates` from conflict number `c` on: the first
   * candidate that is the file itself or is free; any occupant is stepped
   * past, whatever its content.
   */
  function SearchDuplicates(d: Disk, file: Path, s: Scheme, c: nat): (r: Probe)
    requires s.DuplicatesScheme?
    ensures r.InPlace? || r.Vacant?
    ensures r.conflict >= c
    ensures forall j :: c <= j < r.conflict ==> SlotPath(s, j) != file && Exists(d, SlotPath(s, j))
    ensures r.InPlace? ==> SlotPath(s, r.conflict) == file
    ensures r.Vacant? ==> SlotPath(s, r.conflict) != file && !Exists(d, SlotPath(s, r.conflict))
    decreases Occupied(d) - SlotsBelow(s, c)
  {
    var dest := SlotPath(s, c);
    if dest == file then InPlace(c)
    else if !Exists(d, dest) then Vacant(c)
    else
      SlotsBelowStep(s, c);
      SearchDuplicates(d, file, s, c + 1)
  }

  /** What `organize_file` decides for a file. */
  datatype Action =
    | Skip(reason: string)
    | Stay
    | Move(to: Path)
    | StayDuplicate
    | MoveDuplicate(to: Path)

  /** The extension of a photo file (`file_path.extension().unwrap()`). */
  function PhotoExtension(d: Disk, file: Path): string
    requires IsPhotoFile(d, file)
  {
    Extension(Last(file)).value
  }

  function OrganizedSchemeOf(cfg: Config, d: Disk, file: Path, t: DateTime): (s: Scheme)
    requires IsPhotoFile(d, file)
    ensures s.OrganizedScheme?
  {
    OrganizedScheme(cfg.organized, PhotoExtension(d, file), t)
  }

  function DuplicatesSchemeOf(cfg: Config, d: Disk, file: Path, t: DateTime, digest: string): (s: Scheme)
    requires IsPhotoFile(d, file)
    ensures s.DuplicatesScheme?
  {
    DuplicatesScheme(cfg.duplicates, PhotoExtension(d, file), t, digest)
  }

  /** The decision `organize_file` reaches for `file`, or the error that aborts it. */
  function PlanFile(d: Disk, hash: Hasher, cfg: Config, file: Path): (r: Result<Action, Error>)
    requires file in d.files
    ensures r == Ok(Skip(NotAPhoto)) <==> !IsPhotoFile(d, file)
    ensures r == Ok(Skip(NameHasBang)) <==> IsPhotoFile(d, file) && IsExempt(Last(file))
    ensures !(r.Ok? && r.value.Skip?) ==> IsPhotoFile(d, file) && !IsExempt(Last(file))
    ensures IsPhotoFile(d, file) && !IsExempt(Last(file)) && d.files[file].taken.None? ==> r == Err(NoDateTime(file))
    ensures r.Ok? && r.value.Stay? ==> InTree(cfg.organized, file)
    ensures r.Ok? && r.value.StayDuplicate? ==> InTree(cfg.duplicates, file)
  {
    if !IsPhotoFile(d, file) then Ok(Skip(NotAPhoto))
    else if IsExempt(Last(file)) then Ok(Skip(NameHasBang))
    else match d.files[file].taken
      case None => Err(NoDateTime(file))
      case Some(t) => DatedPlan(d, hash, cfg, file, t)
  }

  /** The plan for a photo taken at `t`, decided by the organized loop. */
  function DatedPlan(d: Disk, hash: Hasher, cfg: Config, file: Path, t: DateTime): (r: Result<Action, Error>)
    requires IsPhotoFile(d, file)
    ensures r.Ok? ==> !r.value.Skip?
    ensures r.Ok? && r.value.Stay? ==> InTree(cfg.organized, file)
    ensures r.Ok? && r.value.StayDuplicate? ==> InTree(cfg.duplicates, file)
  {
    var s := OrganizedSchemeOf(cfg, d, file, t);
    match SearchOrganized(d, hash, file, s, 0)
    case InPlace(_) => Ok(Stay)
    case Vacant(c) => Ok(Move(SlotPath(s, c)))
    case Unreadable(_, e) => Err(e)
    case SameContent(_, h) => DuplicatePlan(d, cfg, file, t, h)
  }

  /** The result of one `organize_file` call, or of a step of it: its result, the new disk, the events it appends. */
  datatype FileOutcome = FileOutcome(result: Result<(), Error>, disk: Disk, trace: seq<Event>)

  /**
   * A step of `organize_file` between FileStarted and FileFinished; a failing
   * step ends the call through `?`, so FileFinished is logged only after a
   * step that succeeds.
   */
  function Bracket(file: Path, u: FileOutcome): FileOutcome {
    FileOutcome(u.result, u.disk, [FileStarted(file)] + u.trace + (if u.result.Ok? then [FileFinished(file)] else []))
  }

  /** A bracketed step's log starts the file, is about it alone and starts nothing else. */
  lemma BracketEvents(file: Path, u: FileOutcome)
    requires StepEvents(u.trace, file)
    ensures var t := Bracket(file, u).trace;
      && |t| > 0 && t[0] == FileStarted(file)
      && (forall k :: 0 <= k < |t| ==> Subject(t[k]) == file && IsFileEvent(t[k]))
      && (forall k :: 0 < k < |t| ==> !t[k].FileStarted?)
  {
    var t := Bracket(file, u).trace;
    forall k | 0 < k < |t|
      ensures Subject(t[k]) == file && IsFileEvent(t[k]) && !t[k].FileStarted?
    {
      if k <= |u.trace| {
        assert t[k] == u.trace[k - 1];
      }
    }
  }

  /**
   * `move_file` as a step: on success the disk after the move and the event
   * `moved`; on failure the error, the disk as it was and no event.
   */
  function MoveStep(d: Disk, file: Path, to: Path, moved: Event): (u: FileOutcome)
    requires WellFormed(d) && |to| > 0
    ensures u.result.Err? ==> u.disk == d && u.trace == []
    ensures u.result.Ok? ==>
      && u.trace == [moved] && WellFormed(u.disk)
      && file in d.files && to in u.disk.files && u.disk.files[to] == d.files[file]
      && (file != to ==> file !in u.disk.files)
  {
    match MoveFile(d, file, to)
    case Err(e) => FileOutcome(Err(e), d, [])
    case Ok(d2) => FileOutcome(Ok(()), d2, [moved])
  }

  /** A destination `organize_file` builds under `root`: year, month and file name below it. */
  predicate InTree(root: Path, p: Path) {
    |p| == |root| + 3 && p[..|root|] == root
  }

  /** `file` moved into the free place `to` under `root`, keeping its content. */
  predicate MovedInto(d: Disk, file: Path, root: Path, d2: Disk, to: Path) {
    && file in d.files && !Exists(d, to) && InTree(root, to)
    && to in d2.files && d2.files[to] == d.files[file] && file !in d2.files
  }

  /** The longest path a move can create: a root plus year, month and file name. */
  function Reach(cfg: Config): nat {
    if |cfg.organized| < |cfg.duplicates| then |cfg.duplicates| + 3 else |cfg.organized| + 3
  }

  /**
   * `move_to_duplicates`: its result, the disk it leaves and the events it
   * logs, given the duplicates candidate its loop stops at.
   */
  function DuplicatesOutcome(d: Disk, cfg: Config, file: Path, t: DateTime, digest: string): (u: FileOutcome)
    requires WellFormed(d) && IsPhotoFile(d, file)
    ensures u.result.Err? ==> u.disk == d && u.trace == []
    ensures u.result.Ok? ==> |u.trace| == 1 && (u.trace[0].NoOp? || u.trace[0].DuplicateMoved?)
    ensures u.result.Ok? && u.trace[0].NoOp? ==> u.trace[0].file == file && u.disk == d && InTree(cfg.duplicates, file)
    ensures u.result.Ok? && u.trace[0].DuplicateMoved? ==>
      u.trace[0].from == file && MovedInto(d, file, cfg.duplicates, u.disk, u.trace[0].to)
  {
    var s := DuplicatesSchemeOf(cfg, d, file, t, digest);
    var p := SearchDuplicates(d, file, s, 0);
    var to := SlotPath(s, p.conflict);
    if p.InPlace? then FileOutcome(Ok(()), d, [NoOp(file)])
    else MoveStep(d, file, to, DuplicateMoved(file, to))
  }

  /** The plan `organize_file` makes once the organized loop has found a digest. */
  function DuplicatePlan(d: Disk, cfg: Config, file: Path, t: DateTime, digest: string): (r: Result<Action, Error>)
    requires IsPhotoFile(d, file)
    ensures r.Ok? && (r.value.MoveDuplicate? || r.value.StayDuplicate?)
    ensures r.value.StayDuplicate? ==> InTree(cfg.duplicates, file)
  {
    var ds := DuplicatesSchemeOf(cfg, d, file, t, digest);
    var p := SearchDuplicates(d, file, ds, 0);
    if p.Vacant? then Ok(MoveDuplicate(SlotPath(ds, p.conflict))) else Ok(StayDuplicate)
  }

  /**
   * When the organized loop finds a candidate with the same content,
   * `organize_file` is `move_to_duplicates` under that candidate's digest,
   * between FileStarted and, unless it fails, FileFinished.
   */
  lemma DuplicateBranch(d: Disk, hash: Hasher, cfg: Config, file: Path, t: DateTime, c: nat, digest: string)
    requires WellFormed(d) && file in d.files
    requires IsPhotoFile(d, file) && !IsExempt(Last(file)) && d.files[file].taken == Some(t)
    requires SearchOrganized(d, hash, file, OrganizedSchemeOf(cfg, d, file, t), 0) == SameContent(c, digest)
    ensures FileEffect(d, hash, cfg, file) == Bracket(file, DuplicatesOutcome(d, cfg, file, t, digest))
  {
    assert PlanFile(d, hash, cfg, file) == DatedPlan(d, hash, cfg, file, t);
    assert DatedPlan(d, hash, cfg, file, t) == DuplicatePlan(d, cfg, file, t, digest);
    MovedToVacant(d, hash, cfg, file);
    DuplicatePlanEffect(d, cfg, file, t, digest);
  }

  /** Carrying out the duplicates plan is `move_to_duplicates`, bracketed. */
  lemma DuplicatePlanEffect(d: Disk, cfg: Config, file: Path, t: DateTime, digest: string)
    requires WellFormed(d) && file in d.files && IsPhotoFile(d, file)
    requires SafePlan(d, cfg, DuplicatePlan(d, cfg, file, t, digest))
    ensures PlanEffect(d, cfg, file, DuplicatePlan(d, cfg, file, t, digest)) == Bracket(file, DuplicatesOutcome(d, cfg, file, t, digest))
  {
    if SearchDuplicates(d, file, DuplicatesSchemeOf(cfg, d, file, t, digest), 0).Vacant? {
      DuplicateMoveEffect(d, cfg, file, t, digest);
    } else {
      DuplicateStayEffect(d, cfg, file, t, digest);
    }
  }

  lemma DuplicateMoveEffect(d: Disk, cfg: Config, file: Path, t: DateTime, digest: string)
    requires WellFormed(d) && file in d.files && IsPhotoFile(d, file)
    requires SearchDuplicates(d, file, DuplicatesSchemeOf(cfg, d, file, t, digest), 0).Vacant?
    requires SafePlan(d, cfg, DuplicatePlan(d, cfg, file, t, digest))
    ensures PlanEffect(d, cfg, file, DuplicatePlan(d, cfg, file, t, digest)) == Bracket(file, DuplicatesOutcome(d, cfg, file, t, digest))
  {
    var ds := DuplicatesSchemeOf(cfg, d, file, t, digest);
    var to := SlotPath(ds, SearchDuplicates(d, file, ds, 0).conflict);
    assert DuplicatePlan(d, cfg, file, t, digest) == Ok(MoveDuplicate(to));
    assert DuplicatesOutcome(d, cfg, file, t, digest) == MoveStep(d, file, to, DuplicateMoved(file, to));
    MoveDuplicateEffect(d, cfg, file, to);
  }

  lemma MoveDuplicateEffect(d: Disk, cfg: Config, file: Path, to: Path)
    requires WellFormed(d) && file in d.files && SafePlan(d, cfg, Ok(MoveDuplicate(to)))
    ensures PlanEffect(d, cfg, file, Ok(MoveDuplicate(to))) == Bracket(file, MoveStep(d, file, to, DuplicateMoved(file, to)))
  {
  }

  lemma DuplicateStayEffect(d: Disk, cfg: Config, file: Path, t: DateTime, digest: string)
    requires WellFormed(d) && file in d.files && IsPhotoFile(d, file)
    requires !SearchDuplicates(d, file, DuplicatesSchemeOf(cfg, d, file, t, digest), 0).Vacant?
    ensures PlanEffect(d, cfg, file, DuplicatePlan(d, cfg, file, t, digest)) == Bracket(file, DuplicatesOutcome(d, cfg, file, t, digest))
  {
    assert DuplicatePlan(d, cfg, file, t, digest) == Ok(StayDuplicate);
    assert DuplicatesOutcome(d, cfg, file, t, digest) == FileOutcome(Ok(()), d, [NoOp(file)]);
    StayDuplicateEffect(d, cfg, file);
  }

  lemma StayDuplicateEffect(d: Disk, cfg: Config, file: Path)
    requires WellFormed(d) && file in d.files
    ensures PlanEffect(d, cfg, file, Ok(StayDuplicate)) == Bracket(file, FileOutcome(Ok(()), d, [NoOp(file)]))
  {
  }

  /**
   * The conflict loop of `organize_file` carried out: nothing but NoOp when
   * the file is in place, a move to a free candidate, `move_to_duplicates`
   * under the digest of a candidate with the same content, and the error of
   * an unreadable candidate.
   */
  function OrganizedStep(d: Disk, hash: Hasher, cfg: Config, file: Path, t: DateTime): (u: FileOutcome)
    requires WellFormed(d) && IsPhotoFile(d, file)
    ensures u.result.Err? ==> u.disk == d && u.trace == []
    ensures u.result.Ok? ==> |u.trace| == 1 && (u.trace[0].NoOp? || u.trace[0].Moved? || u.trace[0].DuplicateMoved?)
    ensures u.result.Ok? && u.trace[0].NoOp? ==>
      u.trace[0].file == file && u.disk == d && (InTree(cfg.organized, file) || InTree(cfg.duplicates, file))
    ensures u.result.Ok? && u.trace[0].Moved? ==>
      u.trace[0].from == file && MovedInto(d, file, cfg.organized, u.disk, u.trace[0].to)
    ensures u.result.Ok? && u.trace[0].DuplicateMoved? ==>
      u.trace[0].from == file && MovedInto(d, file, cfg.duplicates, u.disk, u.trace[0].to)
  {
    var s := OrganizedSchemeOf(cfg, d, file, t);
    match SearchOrganized(d, hash, file, s, 0)
    case InPlace(_) => FileOutcome(Ok(()), d, [NoOp(file)])
    case Vacant(c) => MoveStep(d, file, SlotPath(s, c), Moved(file, SlotPath(s, c)))
    case Unreadable(_, e) => FileOutcome(Err(e), d, [])
    case SameContent(_, h) => DuplicatesOutcome(d, cfg, file, t, h)
  }

  /**
   * `organize_file` on a dated photo without '!' is its conflict loop between
   * FileStarted and, unless the loop fails, FileFinished.
   */
  lemma DatedPhotoEffect(d: Disk, hash: Hasher, cfg: Config, file: Path, t: DateTime)
    requires WellFormed(d) && file in d.files
    requires IsPhotoFile(d, file) && !IsExempt(Last(file)) && d.files[file].taken == Some(t)
    ensures FileEffect(d, hash, cfg, file) == Bracket(file, OrganizedStep(d, hash, cfg, file, t))
  {
    var s := OrganizedSchemeOf(cfg, d, file, t);
    var p := SearchOrganized(d, hash, file, s, 0);
    if p.InPlace? {
      InPlaceBranch(d, hash, cfg, file, t);
    } else if p.Vacant? {
      VacantBranch(d, hash, cfg, file, t);
    } else if p.Unreadable? {
      UnreadableBranch(d, hash, cfg, file, t);
    } else {
      DuplicateBranch(d, hash, cfg, file, t, p.conflict, p.digest);
      SameContentStep(d, hash, cfg, file, t);
    }
  }

  lemma InPlaceBranch(d: Disk, hash: Hasher, cfg: Config, file: Path, t: DateTime)
    requires WellFormed(d) && file in d.files
    requires IsPhotoFile(d, file) && !IsExempt(Last(file)) && d.files[file].taken == Some(t)
    requires SearchOrganized(d, hash, file, OrganizedSchemeOf(cfg, d, file, t), 0).InPlace?
    ensures FileEffect(d, hash, cfg, file) == Bracket(file, OrganizedStep(d, hash, cfg, file, t))
  {
    assert PlanFile(d, hash, cfg, file) == DatedPlan(d, hash, cfg, file, t);
    assert DatedPlan(d, hash, cfg, file, t) == Ok(Stay);
    EffectOfPlan(d, hash, cfg, file, Ok(Stay));
    InPlaceStep(d, hash, cfg, file, t);
  }

  lemma VacantBranch(d: Disk, hash: Hasher, cfg: Config, file: Path, t: DateTime)
    requires WellFormed(d) && file in d.files
    requires IsPhotoFile(d, file) && !IsExempt(Last(file)) && d.files[file].taken == Some(t)
    requires SearchOrganized(d, hash, file, OrganizedSchemeOf(cfg, d, file, t), 0).Vacant?
    ensures FileEffect(d, hash, cfg, file) == Bracket(file, OrganizedStep(d, hash, cfg, file, t))
  {
    var s := OrganizedSchemeOf(cfg, d, file, t);
    var to := SlotPath(s, SearchOrganized(d, hash, file, s, 0).conflict);
    assert PlanFile(d, hash, cfg, file) == DatedPlan(d, hash, cfg, file, t);
    assert DatedPlan(d, hash, cfg, file, t) == Ok(Move(to));
    EffectOfPlan(d, hash, cfg, file, Ok(Move(to)));
    MoveOrganizedEffect(d, cfg, file, to);
    VacantStep(d, hash, cfg, file, t);
  }

  lemma MoveOrganizedEffect(d: Disk, cfg: Config, file: Path, to: Path)
    requires WellFormed(d) && file in d.files && SafePlan(d, cfg, Ok(Move(to)))
    ensures PlanEffect(d, cfg, file, Ok(Move(to))) == Bracket(file, MoveStep(d, file, to, Moved(file, to)))
  {
  }

  lemma InPlaceStep(d: Disk, hash: Hasher, cfg: Config, file: Path, t: DateTime)
    requires WellFormed(d) && IsPhotoFile(d, file)
    requires SearchOrganized(d, hash, file, OrganizedSchemeOf(cfg, d, file, t), 0).InPlace?
    ensures OrganizedStep(d, hash, cfg, file, t) == FileOutcome(Ok(()), d, [NoOp(file)])
  {
  }

  lemma UnreadableStep(d: Disk, hash: Hasher, cfg: Config, file: Path, t: DateTime)
    requires WellFormed(d) && IsPhotoFile(d, file)
    requires SearchOrganized(d, hash, file, OrganizedSchemeOf(cfg, d, file, t), 0).Unreadable?
    ensures OrganizedStep(d, hash, cfg, file, t) ==
      FileOutcome(Err(SearchOrganized(d, hash, file, OrganizedSchemeOf(cfg, d, file, t), 0).error), d, [])
  {
  }

  lemma SameContentStep(d: Disk, hash: Hasher, cfg: Config, file: Path, t: DateTime)
    requires WellFormed(d) && IsPhotoFile(d, file)
    requires SearchOrganized(d, hash, file, OrganizedSchemeOf(cfg, d, file, t), 0).SameContent?
    ensures OrganizedStep(d, hash, cfg, file, t) ==
      DuplicatesOutcome(d, cfg, file, t, SearchOrganized(d, hash, file, OrganizedSchemeOf(cfg, d, file, t), 0).digest)
  {
  }

  lemma VacantStep(d: Disk, hash: Hasher, cfg: Config, file: Path, t: DateTime)
    requires WellFormed(d) && IsPhotoFile(d, file)
    requires SearchOrganized(d, hash, file, OrganizedSchemeOf(cfg, d, file, t), 0).Vacant?
    ensures var s := OrganizedSchemeOf(cfg, d, file, t);
      var to := SlotPath(s, SearchOrganized(d, hash, file, s, 0).conflict);
      OrganizedStep(d, hash, cfg, file, t) == MoveStep(d, file, to, Moved(file, to))
  {
  }

  lemma UnreadableBranch(d: Disk, hash: Hasher, cfg: Config, file: Path, t: DateTime)
    requires WellFormed(d) && file in d.files
    requires IsPhotoFile(d, file) && !IsExempt(Last(file)) && d.files[file].taken == Some(t)
    requires SearchOrganized(d, hash, file, OrganizedSchemeOf(cfg, d, file, t), 0).Unreadable?
    ensures FileEffect(d, hash, cfg, file) == Bracket(file, OrganizedStep(d, hash, cfg, file, t))
  {
    var s := OrganizedSchemeOf(cfg, d, file, t);
    var e := SearchOrganized(d, hash, file, s, 0).error;
    assert PlanFile(d, hash, cfg, file) == DatedPlan(d, hash, cfg, file, t);
    assert DatedPlan(d, hash, cfg, file, t) == Err(e);
    EffectOfPlan(d, hash, cfg, file, Err(e));
    FailedPlanEffect(d, cfg, file, e);
    UnreadableStep(d, hash, cfg, file, t);
  }

  lemma FailedPlanEffect(d: Disk, cfg: Config, file: Path, e: Error)
    requires WellFormed(d) && file in d.files
    ensures PlanEffect(d, cfg, file, Err(e)) == Bracket(file, FileOutcome(Err(e), d, []))
  {
    assert [FileStarted(file)] + [] + [] == [FileStarted(file)];
  }

  lemma EffectOfPlan(d: Disk, hash: Hasher, cfg: Config, file: Path, plan: Result<Action, Error>)
    requires WellFormed(d) && file in d.files && PlanFile(d, hash, cfg, file) == plan
    ensures SafePlan(d, cfg, plan) && FileEffect(d, hash, cfg, file) == PlanEffect(d, cfg, file, plan)
  {
    MovedToVacant(d, hash, cfg, file);
  }

  /** A move, between FileStarted and FileFinished. */
  function MoveOutcome(d: Disk, file: Path, to: Path, moved: Event): FileOutcome
    requires WellFormed(d) && |to| > 0
  {
    Bracket(file, MoveStep(d, file, to, moved))
  }

  /**
   * A move keeps the disk a tree, removes no directory, leaves every other
   * file alone and creates nothing longer than its destination, and only
   * where nothing was; its log is about the file alone, and a failed move
   * logs FileStarted and changes nothing.
   */
  lemma MoveOutcomeKeeps(d: Disk, file: Path, to: Path, moved: Event)
    requires WellFormed(d) && |to| > 0 && file in d.files && !Exists(d, to)
    requires moved == Moved(file, to) || moved == DuplicateMoved(file, to)
    ensures Keeps(d, file, |to|, MoveOutcome(d, file, to, moved))
  {
    MoveFileEffect(d, file, to);
    var u := MoveStep(d, file, to, moved);
    BracketEvents(file, u);
    if u.result.Err? {
      assert [FileStarted(file)] + u.trace + [] == [FileStarted(file)];
    }
  }

  /**
   * What one file's step leaves behind, for paths no longer than `reach`:
   * the disk stays a tree, no directory disappears, every other file keeps
   * its place and content, and anything new is no longer than `reach` and
   * was free before; the log starts the file, is about it alone and starts
   * nothing else, and a failure logs FileStarted alone and changes nothing.
   */
  ghost predicate Keeps(d: Disk, file: Path, reach: nat, o: FileOutcome) {
    && WellFormed(o.disk) && d.dirs <= o.disk.dirs && o.disk.directorySize == d.directorySize
    && (forall q :: q in d.files && q != file ==> q in o.disk.files && o.disk.files[q] == d.files[q])
    && (forall q :: q in Occupied(o.disk) && q !in Occupied(d) ==> |q| <= reach)
    && (forall q :: q in o.disk.files && q !in d.files ==> !Exists(d, q))
    && |o.trace| > 0 && o.trace[0] == FileStarted(file)
    && (forall k :: 0 <= k < |o.trace| ==> Subject(o.trace[k]) == file && IsFileEvent(o.trace[k]))
    && (forall k :: 0 < k < |o.trace| ==> !o.trace[k].FileStarted?)
    && (o.result.Err? ==> o.trace == [FileStarted(file)] && o.disk == d)
  }

  /** A larger bound on new paths keeps what a smaller one does. */
  lemma KeepsWithin(d: Disk, file: Path, reach: nat, wider: nat, o: FileOutcome)
    requires Keeps(d, file, reach, o) && reach <= wider
    ensures Keeps(d, file, wider, o)
  {
  }

  /** A step that leaves the disk alone and logs `step` inside FileStarted and FileFinished keeps everything. */
  lemma StayKeeps(d: Disk, file: Path, step: seq<Event>)
    requires WellFormed(d) && StepEvents(step, file)
    ensures Keeps(d, file, 0, Bracket(file, FileOutcome(Ok(()), d, step)))
  {
    BracketEvents(file, FileOutcome(Ok(()), d, step));
  }

  /**
   * A plan `organize_file` can carry out without clobbering: a destination is
   * free and lies three components below the organized or duplicates root.
   */
  predicate SafePlan(d: Disk, cfg: Config, plan: Result<Action, Error>) {
    && (plan.Ok? && plan.value.Move? ==>
          && !Exists(d, plan.value.to)
          && |plan.value.to| == |cfg.organized| + 3 && plan.value.to[..|cfg.organized|] == cfg.organized)
    && (plan.Ok? && plan.value.MoveDuplicate? ==>
          && !Exists(d, plan.value.to)
          && |plan.value.to| == |cfg.duplicates| + 3 && plan.value.to[..|cfg.duplicates|] == cfg.duplicates)
  }

  /** No clobbering: every plan `organize_file` makes is safe. */
  lemma MovedToVacant(d: Disk, hash: Hasher, cfg: Config, file: Path)
    requires file in d.files
    ensures SafePlan(d, cfg, PlanFile(d, hash, cfg, file))
  {
    if IsPhotoFile(d, file) && !IsExempt(Last(file)) && d.files[file].taken.Some? {
      var t := d.files[file].taken.value;
      assert PlanFile(d, hash, cfg, file) == DatedPlan(d, hash, cfg, file, t);
      DatedPlanSafe(d, hash, cfg, file, t);
    }
  }

  lemma DatedPlanSafe(d: Disk, hash: Hasher, cfg: Config, file: Path, t: DateTime)
    requires IsPhotoFile(d, file)
    ensures SafePlan(d, cfg, DatedPlan(d, hash, cfg, file, t))
  {
    var s := OrganizedSchemeOf(cfg, d, file, t);
    var r := SearchOrganized(d, hash, file, s, 0);
    if r.SameContent? {
      DuplicatePlanSafe(d, cfg, file, t, r.digest);
    }
  }

  lemma DuplicatePlanSafe(d: Disk, cfg: Config, file: Path, t: DateTime, digest: string)
    requires IsPhotoFile(d, file)
    ensures SafePlan(d, cfg, DuplicatePlan(d, cfg, file, t, digest))
  {
    var ds := DuplicatesSchemeOf(cfg, d, file, t, digest);
    var p := SearchDuplicates(d, file, ds, 0);
    if p.Vacant? {
      var to := SlotPath(ds, p.conflict);
      assert DuplicatePlan(d, cfg, file, t, digest) == Ok(MoveDuplicate(to));
    }
  }

  /** Carrying out a plan: the result, the new disk and the events logged. */
  function PlanEffect(d: Disk, cfg: Config, file: Path, plan: Result<Action, Error>): FileOutcome
    requires WellFormed(d) && file in d.files && SafePlan(d, cfg, plan)
  {
    match plan
    case Err(e) => FileOutcome(Err(e), d, [FileStarted(file)])
    case Ok(Skip(reason)) => FileOutcome(Ok(()), d, [FileStarted(file), Skipped(file, reason)])
    case Ok(Stay) => Bracket(file, FileOutcome(Ok(()), d, [NoOp(file)]))
    case Ok(StayDuplicate) => Bracket(file, FileOutcome(Ok(()), d, [NoOp(file)]))
    case Ok(Move(to)) => MoveOutcome(d, file, to, Moved(file, to))
    case Ok(MoveDuplicate(to)) => MoveOutcome(d, file, to, DuplicateMoved(file, to))
  }

  /** Whatever a safe plan does keeps what `Keeps` says, for new paths up to the reach of the configuration. */
  lemma PlanEffectKeeps(d: Disk, cfg: Config, file: Path, plan: Result<Action, Error>)
    requires WellFormed(d) && file in d.files && SafePlan(d, cfg, plan)
    ensures Keeps(d, file, Reach(cfg), PlanEffect(d, cfg, file, plan))
  {
    var o := PlanEffect(d, cfg, file, plan);
    match plan
    case Ok(Move(to)) =>
      MoveOutcomeKeeps(d, file, to, Moved(file, to));
      KeepsWithin(d, file, |to|, Reach(cfg), o);
    case Ok(MoveDuplicate(to)) =>
      MoveOutcomeKeeps(d, file, to, DuplicateMoved(file, to));
      KeepsWithin(d, file, |to|, Reach(cfg), o);
    case Ok(Stay) =>
      StayKeeps(d, file, [NoOp(file)]);
      KeepsWithin(d, file, 0, Reach(cfg), o);
    case Ok(StayDuplicate) =>
      StayKeeps(d, file, [NoOp(file)]);
      KeepsWithin(d, file, 0, Reach(cfg), o);
    case _ =>
  }

  /**
   * `organize_file`: its plan, carried out.  Whatever happens, the disk stays
   * a tree, no directory disappears, every other file keeps its place and
   * content, and anything new is no longer than a root plus three components
   * and was free before; the log starts the file, is about it alone and
   * starts nothing else, and a failure logs FileStarted alone and changes
   * nothing.
   */
  function FileEffect(d: Disk, hash: Hasher, cfg: Config, file: Path): (o: FileOutcome)
    requires WellFormed(d) && file in d.files
    ensures WellFormed(o.disk) && d.dirs <= o.disk.dirs && o.disk.directorySize == d.directorySize
    ensures forall q :: q in d.files && q != file ==> q in o.disk.files && o.disk.files[q] == d.files[q]
    ensures forall q :: q in Occupied(o.disk) && q !in Occupied(d) ==> |q| <= Reach(cfg)
    ensures forall q :: q in o.disk.files && q !in d.files ==> !Exists(d, q)
    ensures |o.trace| > 0 && o.trace[0] == FileStarted(file)
    ensures forall k :: 0 <= k < |o.trace| ==> Subject(o.trace[k]) == file && IsFileEvent(o.trace[k])
    ensures forall k :: 0 < k < |o.trace| ==> !o.trace[k].FileStarted?
    ensures o.result.Err? ==> o.trace == [FileStarted(file)] && o.disk == d
  {
    MovedToVacant(d, hash, cfg, file);
    PlanEffectKeeps(d, cfg, file, PlanFile(d, hash, cfg, file));
    PlanEffect(d, cfg, file, PlanFile(d, hash, cfg, file))
  }

  /** `organize_file` neither deletes nor copies a file: it at most moves `file` somewhere free. */
  lemma FileEffectConserves(d: Disk, hash: Hasher, cfg: Config, file: Path)
    requires WellFormed(d) && file in d.files
    ensures Conserves(d, FileEffect(d, hash, cfg, file).disk)
  {
    var plan := PlanFile(d, hash, cfg, file);
    EffectOfPlan(d, hash, cfg, file, plan);
    match plan
    case Ok(Move(to)) =>
      MoveConserves(d, file, to);
    case Ok(MoveDuplicate(to)) =>
      MoveConserves(d, file, to);
    case _ =>
  }

  /**
   * A file that is not a photo, or a photo whose stem holds '!', is left where
   * it is: the log gets FileStarted then Skipped with the reason, and no
   * FileFinished.
   */
  lemma SkippedFileUntouched(d: Disk, hash: Hasher, cfg: Config, file: Path)
    requires WellFormed(d) && file in d.files
    requires !IsPhotoFile(d, file) || IsExempt(Last(file))
    ensures var o := FileEffect(d, hash, cfg, file);
      && o.result == Ok(())
      && o.disk == d
      && o.trace == [FileStarted(file), Skipped(file, if IsPhotoFile(d, file) then NameHasBang else NotAPhoto)]
  {
  }

  /**
   * A photo without '!' whose capture time cannot be loaded ends
   * `organize_file` with NoDateTime after FileStarted, and stays where it is.
   */
  lemma UndatedPhotoFails(d: Disk, hash: Hasher, cfg: Config, file: Path)
    requires WellFormed(d) && file in d.files
    requires IsPhotoFile(d, file) && !IsExempt(Last(file)) && d.files[file].taken.None?
    ensures FileEffect(d, hash, cfg, file) == FileOutcome(Err(NoDateTime(file)), d, [FileStarted(file)])
  {
    EffectOfPlan(d, hash, cfg, file, Err(NoDateTime(file)));
  }

  /**
   * What a Moved or DuplicateMoved event `e` in outcome `o` guarantees: the
   * destination was free; afterwards it holds the source's entry, the source
   * is gone, and no other file appears or disappears.
   */
  ghost predicate MoveRecorded(d: Disk, file: Path, o: FileOutcome, e: Event)
    requires file in d.files
  {
    (e.Moved? || e.DuplicateMoved?) ==>
      && e.from == file
      && !Exists(d, e.to)
      && e.to in o.disk.files && o.disk.files[e.to] == d.files[file]
      && file !in o.disk.files
      && (forall q :: q != file && q != e.to ==> (q in o.disk.files <==> q in d.files))
  }

  lemma PlanNoClobber(d: Disk, cfg: Config, file: Path, plan: Result<Action, Error>)
    requires WellFormed(d) && file in d.files && SafePlan(d, cfg, plan)
    ensures var o := PlanEffect(d, cfg, file, plan);
      forall k :: 0 <= k < |o.trace| ==> MoveRecorded(d, file, o, o.trace[k])
  {
    if plan.Ok? && plan.value.Move? {
      var to := plan.value.to;
      assert PlanEffect(d, cfg, file, plan) == MoveOutcome(d, file, to, Moved(file, to));
      MoveOutcomeRecorded(d, file, to, Moved(file, to));
    } else if plan.Ok? && plan.value.MoveDuplicate? {
      var to := plan.value.to;
      assert PlanEffect(d, cfg, file, plan) == MoveOutcome(d, file, to, DuplicateMoved(file, to));
      MoveOutcomeRecorded(d, file, to, DuplicateMoved(file, to));
    }
  }

  lemma PlanWithoutMoveKeepsDisk(d: Disk, cfg: Config, file: Path, plan: Result<Action, Error>)
    requires WellFormed(d) && file in d.files && SafePlan(d, cfg, plan)
    ensures var o := PlanEffect(d, cfg, file, plan);
      (forall k :: 0 <= k < |o.trace| ==> !o.trace[k].Moved? && !o.trace[k].DuplicateMoved?) ==> o.disk == d
  {
    if plan.Ok? && plan.value.Move? {
      var to := plan.value.to;
      assert PlanEffect(d, cfg, file, plan) == MoveOutcome(d, file, to, Moved(file, to));
      MoveOutcomeMarked(d, file, to, Moved(file, to));
    } else if plan.Ok? && plan.value.MoveDuplicate? {
      var to := plan.value.to;
      assert PlanEffect(d, cfg, file, plan) == MoveOutcome(d, file, to, DuplicateMoved(file, to));
      MoveOutcomeMarked(d, file, to, DuplicateMoved(file, to));
    }
  }

  lemma MoveOutcomeMarked(d: Disk, file: Path, to: Path, moved: Event)
    requires WellFormed(d) && |to| > 0 && file in d.files && !Exists(d, to)
    requires moved == Moved(file, to) || moved == DuplicateMoved(file, to)
    ensures var o := MoveOutcome(d, file, to, moved);
      o.disk == d || (|o.trace| > 1 && o.trace[1] == moved)
  {
  }

  lemma MoveOutcomeRecorded(d: Disk, file: Path, to: Path, moved: Event)
    requires WellFormed(d) && |to| > 0 && file in d.files && !Exists(d, to)
    requires moved == Moved(file, to) || moved == DuplicateMoved(file, to)
    ensures var o := MoveOutcome(d, file, to, moved);
      forall k :: 0 <= k < |o.trace| ==> MoveRecorded(d, file, o, o.trace[k])
  {
    MoveFileEffect(d, file, to);
  }

  /**
   * No clobbering: every Moved or DuplicateMoved event of `organize_file`
   * keeps the promise of `MoveRecorded`; without such an event the disk is as
   * before.
   */
  lemma NoClobber(d: Disk, hash: Hasher, cfg: Config, file: Path)
    requires WellFormed(d) && file in d.files
    ensures var o := FileEffect(d, hash, cfg, file);
      forall k :: 0 <= k < |o.trace| ==> MoveRecorded(d, file, o, o.trace[k])
    ensures var o := FileEffect(d, hash, cfg, file);
      (forall k :: 0 <= k < |o.trace| ==> !o.trace[k].Moved? && !o.trace[k].DuplicateMoved?) ==> o.disk == d
  {
    MovedToVacant(d, hash, cfg, file);
    PlanNoClobber(d, cfg, file, PlanFile(d, hash, cfg, file));
    PlanWithoutMoveKeepsDisk(d, cfg, file, PlanFile(d, hash, cfg, file));
  }

  /** The candidate a loop stops at is never one it would step past. */
  lemma StopIsNotCollision(d: Disk, hash: Hasher, file: Path, dest: Path, r: Probe)
    requires OrganizedStop(d, hash, file, dest, r)
    ensures !Collision(d, hash, file, dest)
  {
  }

  /**
   * The organized loop ends exactly at the first candidate that is not a
   * collision; in particular it ends in place at conflict `c` when the
   * candidates below `c` collide and candidate `c` is the file itself.
   */
  lemma SearchOrganizedStopsAt(d: Disk, hash: Hasher, file: Path, s: Scheme, c: nat)
    requires s.OrganizedScheme?
    requires forall j :: 0 <= j < c ==> Collision(d, hash, file, SlotPath(s, j))
    requires !Collision(d, hash, file, SlotPath(s, c))
    ensures SearchOrganized(d, hash, file, s, 0).conflict == c
    ensures SlotPath(s, c) == file ==> SearchOrganized(d, hash, file, s, 0) == InPlace(c)
  {
    var r := SearchOrganized(d, hash, file, s, 0);
    StopIsNotCollision(d, hash, file, SlotPath(s, r.conflict), r);
  }

  lemma PlanStay(d: Disk, hash: Hasher, cfg: Config, file: Path)
    requires file in d.files
    requires IsPhotoFile(d, file) && !IsExempt(Last(file)) && d.files[file].taken.Some?
    ensures PlanFile(d, hash, cfg, file) == Ok(Stay) <==>
      SearchOrganized(d, hash, file, OrganizedSchemeOf(cfg, d, file, d.files[file].taken.value), 0).InPlace?
  {
  }

  /**
   * NoOp: `organize_file` leaves a photo where it is exactly when some
   * organized candidate is the file itself and every candidate before it is
   * occupied by different content.
   */
  lemma StayMeansInPlace(d: Disk, hash: Hasher, cfg: Config, file: Path)
    requires file in d.files
    ensures PlanFile(d, hash, cfg, file) == Ok(Stay) <==>
      && IsPhotoFile(d, file) && !IsExempt(Last(file)) && d.files[file].taken.Some?
      && var s := OrganizedSchemeOf(cfg, d, file, d.files[file].taken.value);
         exists c: nat :: SlotPath(s, c) == file && forall j :: 0 <= j < c ==> Collision(d, hash, file, SlotPath(s, j))
  {
    if IsPhotoFile(d, file) && !IsExempt(Last(file)) && d.files[file].taken.Some? {
      var s := OrganizedSchemeOf(cfg, d, file, d.files[file].taken.value);
      var r := SearchOrganized(d, hash, file, s, 0);
      PlanStay(d, hash, cfg, file);
      if r.InPlace? {
        assert SlotPath(s, r.conflict) == file;
      }
      if exists c: nat :: SlotPath(s, c) == file && forall j :: 0 <= j < c ==> Collision(d, hash, file, SlotPath(s, j)) {
        var c: nat :| SlotPath(s, c) == file && forall j :: 0 <= j < c ==> Collision(d, hash, file, SlotPath(s, j));
        SearchOrganizedStopsAt(d, hash, file, s, c);
      }
    }
  }

  /**
   * A photo goes to the duplicates tree only when some organized candidate
   * already holds a file of the same length and digest; it goes under that
   * digest, to a free candidate.
   */
  lemma DuplicateRouting(d: Disk, hash: Hasher, cfg: Config, file: Path)
    requires file in d.files
    ensures PlanFile(d, hash, cfg, file).Ok? && PlanFile(d, hash, cfg, file).value.MoveDuplicate? ==>
      && IsPhotoFile(d, file) && d.files[file].taken.Some?
      && var t := d.files[file].taken.value;
         var ext := PhotoExtension(d, file);
         var content := d.files[file].content;
         && (exists c: nat ::
               var dest := OrganizedPath(cfg.organized, ext, t, c);
               && dest != file && dest in d.files
               && |d.files[dest].content| == |content| && hash(d.files[dest].content) == hash(content))
         && (exists k: nat ::
               && PlanFile(d, hash, cfg, file).value.to == DuplicatesPath(cfg.duplicates, ext, t, hash(content), k)
               && !Exists(d, PlanFile(d, hash, cfg, file).value.to))
  {
    var plan := PlanFile(d, hash, cfg, file);
    if plan.Ok? && plan.value.MoveDuplicate? {
      var t := d.files[file].taken.value;
      var s := OrganizedSchemeOf(cfg, d, file, t);
      var r := SearchOrganized(d, hash, file, s, 0);
      assert SlotPath(s, r.conflict) == OrganizedPath(cfg.organized, PhotoExtension(d, file), t, r.conflict);
      var ds := DuplicatesSchemeOf(cfg, d, file, t, r.digest);
      var p := SearchDuplicates(d, file, ds, 0);
      assert plan.value.to == DuplicatesPath(cfg.duplicates, PhotoExtension(d, file), t, hash(d.files[file].content), p.conflict);
    }
  }

  /**
   * Each loop ends at a conflict number no larger than the number of existing
   * paths: every candidate it steps past is a distinct existing path.
   */
  lemma ConflictBound(d: Disk, hash: Hasher, file: Path, s: Scheme)
    requires WellFormed(d)
    ensures s.OrganizedScheme? ==> SearchOrganized(d, hash, file, s, 0).conflict <= |Occupied(d)|
    ensures s.DuplicatesScheme? ==> SearchDuplicates(d, file, s, 0).conflict <= |Occupied(d)|
  {
    var n := if s.OrganizedScheme? then SearchOrganized(d, hash, file, s, 0).conflict
             else SearchDuplicates(d, file, s, 0).conflict;
    forall j: nat | j < n ensures SlotPath(s, j) in Occupied(d) {
      assert Exists(d, SlotPath(s, j));
    }
    SlotsBelowWithin(s, n, Occupied(d));
    SlotsBelowSize(s, n);
    SubsetSize(SlotsBelow(s, n), Occupied(d));
  }

  lemma {:induction false} SubsetSize<T>(a: set<T>, b: set<T>)
    requires a <= b
    ensures |a| <= |b|
    decreases |a|
  {
    if a != {} {
      var x :| x in a;
      SubsetSize(a - {x}, b - {x});
    }
  }

  /** A planned organized move names the first free candidate of a photo that is not exempt. */
  lemma MovePlanned(d: Disk, hash: Hasher, cfg: Config, file: Path, to: Path)
    requires file in d.files
    requires PlanFile(d, hash, cfg, file) == Ok(Move(to))
    ensures IsPhotoFile(d, file) && !IsExempt(Last(file)) && d.files[file].taken.Some?
    ensures var s := OrganizedSchemeOf(cfg, d, file, d.files[file].taken.value);
      var r := SearchOrganized(d, hash, file, s, 0);
      r.Vacant? && to == SlotPath(s, r.conflict)
  {
  }

  /**
   * An organized file name is itself a photo name: its extension is the
   * lower-cased photo extension and its stem holds no '!'.
   */
  lemma OrganizedNameIsPhotoName(ext: string, t: DateTime, conflict: nat)
    requires '.' !in ext && Lower(ext) in PhotoExtensions
    ensures Extension(OrganizedFileName(ext, t, conflict)) == Some(Lower(ext))
    ensures !IsExempt(OrganizedFileName(ext, t, conflict))
  {
    assert Lower(ext) != "";
    OrganizedFileNameParts(ext, t, conflict);
    OrganizedStemLacks(t, conflict, '!');
  }

  /**
   * A comparison with a third path gives the same answer after a file's entry
   * moved from `file` to `to`, as long as that third path's entry is unchanged.
   */
  lemma SameComparisonAfterMove(d: Disk, d2: Disk, hash: Hasher, file: Path, to: Path, q: Path)
    requires file in d.files && to in d2.files && d2.files[to] == d.files[file]
    requires q in d.files <==> q in d2.files
    requires q in d.files ==> d2.files[q] == d.files[q]
    requires IsDir(d, q) <==> IsDir(d2, q)
    requires d.directorySize == d2.directorySize
    ensures AreSameFileContents(d2, hash, to, q) == AreSameFileContents(d, hash, file, q)
  {
    assert Length(d2, q) == Length(d, q) && FileHash(d2, hash, q) == FileHash(d, hash, q);
    assert Length(d2, to) == Length(d, file) && FileHash(d2, hash, to) == FileHash(d, hash, file);
  }

  /**
   * Organizing is idempotent: once a photo has been moved to its organized
   * name, organizing that name again leaves it there.  The candidates below
   * its conflict number still hold the same other content, and the candidate
   * at its number is now the file itself.
   */
  lemma MovedFileStays(d: Disk, hash: Hasher, cfg: Config, file: Path, to: Path)
    requires WellFormed(d) && file in d.files
    requires PlanFile(d, hash, cfg, file) == Ok(Move(to))
    requires |to| > 0 && MoveFile(d, file, to).Ok?
    ensures to in MoveFile(d, file, to).value.files
    ensures PlanFile(MoveFile(d, file, to).value, hash, cfg, to) == Ok(Stay)
  {
    MovePlanned(d, hash, cfg, file, to);
    MovedToVacant(d, hash, cfg, file);
    var t := d.files[file].taken.value;
    var ext := PhotoExtension(d, file);
    var s := OrganizedSchemeOf(cfg, d, file, t);
    var c := SearchOrganized(d, hash, file, s, 0).conflict;
    MoveFileEffect(d, file, to);
    var d2 := MoveFile(d, file, to).value;

    LowerIdempotent(ext);
    OrganizedNameIsPhotoName(ext, t, c);
    assert Last(to) == OrganizedFileName(ext, t, c);
    assert IsPhotoFile(d2, to) && !IsExempt(Last(to));

    var s2 := OrganizedSchemeOf(cfg, d2, to, t);
    assert s2 == OrganizedScheme(cfg.organized, Lower(ext), t);
    forall j | 0 <= j < c ensures Collision(d2, hash, to, SlotPath(s2, j)) {
      var q := SlotPath(s, j);
      SlotPathLowered(s, j);
      assert Collision(d, hash, file, q);
      SlotPathsDistinct(s, j, c);
      SameComparisonAfterMove(d, d2, hash, file, to, q);
    }
    SlotPathLowered(s, c);
    SearchOrganizedStopsAt(d2, hash, to, s2, c);
    PlanStay(d2, hash, cfg, to);
  }
}
