/** The progress events the organizer reports, kept as a log instead of printed. */
module Events {
  import opened Paths
  import opened Disks

  /** `PhotisoEvent`. */
  datatype Event =
    | DirStarted(dir: Path)
    | DirFinished(dir: Path)
    | FileStarted(file: Path)
    | FileFinished(file: Path)
    | FileError(file: Path, error: Error)
    | Moved(from: Path, to: Path)
    | NoOp(file: Path)
    | DuplicateMoved(from: Path, to: Path)
    | Skipped(file: Path, reason: string)

  const NotAPhoto: string := "Not a photo."
  const NameHasBang: string := "Photo file name contains '!'."

  /** The directory or file an event is about (the source of a move). */
  function Subject(e: Event): Path {
    match e
    case DirStarted(dir) => dir
    case DirFinished(dir) => dir
    case Moved(from, _) => from
    case DuplicateMoved(from, _) => from
    case FileStarted(file) => file
    case FileFinished(file) => file
    case FileError(file, _) => file
    case NoOp(file) => file
    case Skipped(file, _) => file
  }

  /**
   * An event about one file: neither a directory bracket nor `FileError`,
   * which the organizer declares but never reports.
   */
  predicate IsFileEvent(e: Event) {
    !e.DirStarted? && !e.DirFinished? && !e.FileError?
  }

  /** Events of one step inside `organize_file`: about `file` alone, and none starts a file. */
  predicate StepEvents(t: seq<Event>, file: Path) {
    forall k :: 0 <= k < |t| ==> Subject(t[k]) == file && IsFileEvent(t[k]) && !t[k].FileStarted?
  }

  /** Concatenation regrouped. */
  lemma Regroup(a: seq<Event>, b: seq<Event>, c: seq<Event>)
    ensures a + b + c == a + (b + c)
  {
  }

  /** Two events appended one by one are the pair appended at once. */
  lemma AppendPair(log: seq<Event>, first: Event, second: Event)
    ensures log + [first] + [second] == log + [first, second]
  {
  }

  /** A step logged between a first event and a closing part, regrouped. */
  lemma AppendAround(log: seq<Event>, first: Event, step: seq<Event>, last: seq<Event>)
    ensures log + [first] + step + last == log + ([first] + step + last)
  {
  }

  /** `p` lies strictly below `dir`. */
  predicate StrictlyUnder(dir: Path, p: Path) {
    Under(dir, p) && |p| > |dir|
  }

  /** `e` starts processing an entry directly inside `dir`: a file, or a directory when `asDir`. */
  predicate StartsChild(e: Event, dir: Path, asDir: bool) {
    if asDir then e.DirStarted? && IsChild(dir, e.dir) else e.FileStarted? && IsChild(dir, e.file)
  }

  /** The names of the entries of `dir` a log starts, in log order. */
  function ChildrenStarted(t: seq<Event>, dir: Path, asDir: bool): seq<Name> {
    if t == [] then []
    else (if StartsChild(t[0], dir, asDir) then [Last(Subject(t[0]))] else []) + ChildrenStarted(t[1..], dir, asDir)
  }

  lemma {:induction false} ChildrenStartedAppend(a: seq<Event>, b: seq<Event>, dir: Path, asDir: bool)
    ensures ChildrenStarted(a + b, dir, asDir) == ChildrenStarted(a, dir, asDir) + ChildrenStarted(b, dir, asDir)
  {
    if a != [] {
      assert (a + b)[0] == a[0] && (a + b)[1..] == a[1..] + b;
      ChildrenStartedAppend(a[1..], b, dir, asDir);
    } else {
      assert a + b == b;
    }
  }

  lemma {:induction false} ChildrenStartedNone(t: seq<Event>, dir: Path, asDir: bool)
    requires forall k :: 0 <= k < |t| ==> !StartsChild(t[k], dir, asDir)
    ensures ChildrenStarted(t, dir, asDir) == []
  {
    if t != [] {
      ChildrenStartedNone(t[1..], dir, asDir);
    }
  }
}
