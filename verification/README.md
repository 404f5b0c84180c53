# Photiso organize pipeline, modelled in Dafny

Photiso sorts a tree of photos by the time they were taken. It walks the
*unorganized* directory and handles the files of each directory before its
subdirectories, both in sorted order. It moves every photo to
`organized/YYYY/MM/YYYY-MM-DD HH-MM-SS-fffffffff[ NNN].ext`. When that slot
already holds a file with the same length and digest, the photo goes to
`duplicates/YYYY/MM/<digest>[.NNN].ext` instead. The *duplicates* tree is
never walked. Progress is reported as a stream of events.

The model has these parts:

- **The filesystem** (`Disks`) is a value. It holds regular files, each with
  its bytes and the capture time that loading its date-time finds, plus an
  explicit set of directories.
- **`Paths`** gives Rust's `Path::extension`, `file_stem`, `set_extension`
  and ASCII lower-casing over paths kept as sequences of components.
- **`Classify`** is `is_photo_file` and the `'!'` exemption.
- **`Naming`** holds the two destination-name builders, including chrono's
  rendering of the timestamp.
- **`Resolution`** gives reference definitions of the two conflict loops,
  of `are_same_file_contents`, `move_file` and the whole of `organize_file`.
- **`Walking`** and **`WalkOrder`** give `organize_directory` as a
  reference walk, with its event-order properties.
- **`SiblingOrder`** is the byte order of entry names and the sort of
  `read_dir`'s listing.
- **`Organizing.Organizer`** is the program as it runs. It is a class that
  owns the disk and the event log. Its methods have the source's loops and
  recursion, and each is proved equal to the reference definitions.

Two oracles are parameters:

- The digest of a file (`get_file_hash`) is a function from contents to a
  string.
- The capture time (`PhotoDateTimeInfo::load`) is stored with each file as
  an optional date-time. It travels with the file when the file is renamed.

Printing is replaced by appending `Event`s to a log.

## Model

| member | source | states |
|---|---|---|
| Paths.LastDot | v3/src/main.rs:208 | the index found is a '.' of the name, or -1 |
| Paths.LastDotIsLast | v3/src/main.rs:208 | no '.' follows the index `LastDot` returns |
| Paths.Extension | v3/src/main.rs:208 | no extension exactly when no '.' follows the first character; otherwise the extension is the dot-free text after the last '.', with at least one character before that '.' |
| Paths.Stem | v3/src/main.rs:111-113 | without an extension the stem is the whole name; with one, the name is stem + "." + extension and the stem is not empty |
| Paths.SetExtensionReadsBack | v3/src/main.rs:280 | on a non-empty name, `set_extension` with a non-empty dot-free extension gives a name whose extension is the new one and whose stem is the old stem |
| Paths.Lower | v3/src/main.rs:210 | the same length; each ASCII capital becomes its lower-case letter, every other character is kept, and no capital remains |
| Paths.ExtensionOfDotted | v3/src/main.rs:208 | `base.ext` with a non-empty base and a dot-free ext has extension `ext` and stem `base` |
| Paths.SetExtensionReplaces | v3/src/main.rs:280 | `set_extension` on `base.prior` keeps `base` and puts the new extension in place of `prior` |
| Paths.SetExtensionLeadingDot | v3/src/main.rs:304 | a name whose only '.' leads it has no extension, so `set_extension` appends the new one |
| Paths.LowerIdempotent | v3/src/main.rs:210 | lower-casing twice equals lower-casing once |
| Paths.LowerKeepsDots | v3/src/main.rs:277 | lower-casing neither adds nor removes a '.' |
| SiblingOrder.BeforeIsFirstDifference | v3/src/main.rs:78 | the name order is byte-wise lexicographic: `a` comes first exactly when it is a proper prefix of `b`, or has the smaller character at the first position where they differ |
| SiblingOrder.BeforeTotal | v3/src/main.rs:78 | any two distinct names are ordered one way or the other |
| SiblingOrder.BeforeTransitive | v3/src/main.rs:78 | the name order is transitive |
| SiblingOrder.BeforeIrreflexive | v3/src/main.rs:78 | no name comes before itself |
| SiblingOrder.Sort | v3/src/main.rs:78 | the result is sorted and is a permutation of the input |
| SiblingOrder.SortedUnique | v3/src/main.rs:78 | two sorted permutations of the same names are equal, so the sorted listing does not depend on the order `read_dir` yields |
| SiblingOrder.SortedDistinctIsStrict | v3/src/main.rs:75-78 | a sorted listing without repeats is strictly increasing |
| Naming.ValueOfPadded | v3/src/main.rs:263 | a zero-padded rendering reads back as the number it renders |
| Naming.PaddedInjective | v3/src/main.rs:263 | distinct numbers render as distinct padded strings |
| Naming.PaddedWidth | v3/src/main.rs:263 | a number below 10^w rendered at width w has exactly w digits |
| Naming.YearTextReadsBack | v3/src/main.rs:255 | a year in 0..9999 is four digits that read back as the year; any other year is '-' or '+' and digits that read back as its magnitude |
| Naming.MonthTextReadsBack | v3/src/main.rs:256 | two digits that read back as the month |
| Naming.DateTextLayout | v3/src/main.rs:259 | for a four-digit year, ten characters: year, '-', month, '-', day, each field reading back as its value |
| Naming.TimeTextLayout | v3/src/main.rs:259 | eighteen characters: hour, minute, second and nine-digit nanoseconds separated by '-', each field reading back as its value |
| Naming.StampLayout | v3/src/main.rs:259 | for a four-digit year, 29 characters, date and time separated by ' ', from which every field of the date-time reads back |
| Naming.StampInjective | v3/src/main.rs:259 | two date-times with four-digit years share a stamp only when they are equal |
| Naming.StampLacks | v3/src/main.rs:259 | a rendered timestamp is not empty and holds only digits, '-', '+' and ' ' |
| Naming.FileNameIsSetExtension | v3/src/main.rs:261-280 | the name both builders produce equals `set_extension(base + suffix + ".jpg", lower(ext))`, also when base and suffix are empty |
| Naming.DuplicateFileNameParts | v3/src/main.rs:297-318 | a duplicates name with a digest or a conflict number has the lower-cased source extension, and its stem is the digest plus ".NNN" (only when conflict > 0) |
| Naming.OrganizedPath | v3/src/main.rs:254-268 | the organized path is the organized root plus three components |
| Naming.OrganizedFileNameLayout | v3/src/main.rs:259-280 | the organized name is the stamp, " NNN" only when conflict > 0, then '.' and the lower-cased extension |
| Naming.OrganizedFileNameParts | v3/src/main.rs:259-280 | the organized name's extension is the lower-cased source extension and its stem is the stamp plus the suffix |
| Naming.OrganizedPathInjective | v3/src/main.rs:247-283 | distinct conflict numbers give distinct organized paths |
| Naming.DuplicatesPath | v3/src/main.rs:293-307 | the duplicates path is the duplicates root plus three components |
| Naming.DuplicateFileNameInjective | v3/src/main.rs:298-318 | distinct conflict numbers give distinct duplicates names |
| Naming.DuplicatesPathInjective | v3/src/main.rs:285-321 | distinct conflict numbers give distinct duplicates paths |
| Naming.SlotPathLowered | v3/src/main.rs:271-280 | the candidate path depends on the extension only through its lower-cased form |
| Naming.SlotPathsDistinct | v3/src/main.rs:131-166 | two conflict numbers never name the same candidate |
| Naming.SlotsBelowSize | v3/src/main.rs:131-166 | the first n candidates are n distinct paths |
| Disks.ChildNamesMembership | v3/src/main.rs:75-77 | a name is listed in `dir` exactly when `dir/name` exists |
| Disks.Length | v3/src/main.rs:230-231 | `fs::metadata(p)?.len()` succeeds exactly when the path exists; a file's length is the number of its bytes; the failure is NotFound |
| Disks.FileHash | v3/src/main.rs:237-238 | the digest succeeds exactly for a regular file and is the digest of its bytes; a directory fails with IsADirectory |
| Disks.AreSameFileContents | v3/src/main.rs:229-245 | None when the lengths differ, or when the digests differ; Some of the first file's digest whenever both are files with equal lengths and equal digests, and only then; an error exactly when a path is missing, or when the lengths agree and one path is a directory |
| Disks.CreateDirAll | v3/src/main.rs:325 | success leaves a tree in which the directory exists, files unchanged and only ancestors of the directory added; failure exactly when an ancestor is a file |
| Disks.AncestorsAreDirs | v3/src/main.rs:325 | every proper ancestor of an existing path is a directory |
| Disks.Rename | v3/src/main.rs:326 | succeeds exactly when the source is a file, the target is not a directory and the target's directory exists; then the target holds the source's entry, the source is gone (unless it is the target), every other path is unchanged, the directories are the same, and the result is a tree |
| Disks.MoveFile | v3/src/main.rs:323-329 | a successful move leaves a tree in which the target holds the source's entry and the source is gone |
| Disks.MoveFileEffect | v3/src/main.rs:323-329 | into an absent target, a move succeeds exactly when no ancestor of the target is a file; then the target holds the source's entry, the source is gone, no other file changes, and only ancestors of the target are added as directories |
| Disks.MoveConserves | v3/src/main.rs:323-329 | a move into a free target neither deletes nor copies a file: as many files remain, every content is still present, no directory disappears and the only new file is where nothing was |
| Classify.IsPhotoFile | v3/src/main.rs:206-226 | a photo is an existing regular file with a name and an extension |
| Classify.IsPhotoFileCharacterized | v3/src/main.rs:206-226 | a path is a photo exactly when it is a regular file whose name has a '.' after its first character, no '.' after that, and a lower-cased tail in {bmp, gif, jpg, jpeg, png, tif, tiff, wmp} |
| Classify.NotPhotoHasNoDot | v3/src/main.rs:206-226 | a regular file that is not a photo has no final '.' followed by a photo extension |
| Classify.PhotoHasLastDot | v3/src/main.rs:206-226 | a photo's last '.' is after its first character and is followed by a photo extension |
| Classify.LastDotIsOnlyDotAfter | v3/src/main.rs:208 | a '.' with no '.' after it is the last '.' |
| Classify.NoExtensionNoPhoto | v3/src/main.rs:208 | a file without an extension is not a photo |
| Classify.IsExempt | v3/src/main.rs:110-117 | exempt exactly when the file stem holds '!': anywhere in a name without an extension, before the last '.' otherwise; an exempt name holds '!' |
| Resolution.SearchOrganized | v3/src/main.rs:131-166 | the organized loop stops at the first candidate that is not a collision; every candidate before it is occupied by different content; the stop is in place, free, same content (with the digest) or unreadable (with the error) |
| Resolution.SearchDuplicates | v3/src/main.rs:178-201 | the duplicates loop steps past every occupied candidate, whatever its content; it stops at the file itself or at the first free candidate |
| Resolution.PlanFile | v3/src/main.rs:95-204 | Skip with "Not a photo." exactly for a non-photo; Skip with the '!' reason exactly for a photo whose stem holds '!'; any other result belongs to a photo without '!'; an undated photo fails with NoDateTime; Stay only for a file already three levels below the organized root, StayDuplicate only below the duplicates root |
| Resolution.DatedPlan | v3/src/main.rs:131-166 | the plan of a dated photo never skips; it stays only for a file already in the organized tree, or in the duplicates tree through the duplicates loop |
| Resolution.DuplicatePlan | v3/src/main.rs:178-201 | the duplicates loop always ends in a duplicates move or a stay, and it stays only for a file already in the duplicates tree |
| Resolution.MoveStep | v3/src/main.rs:156-163 | a failed move changes nothing and logs nothing; a successful one logs the move event, and the target holds the source's entry, with the source gone |
| Resolution.DuplicatesOutcome | v3/src/main.rs:172-204 | failure changes nothing and logs nothing; success logs one event: NoOp with the disk unchanged and the file already in the duplicates tree, or DuplicateMoved of the file to a free path in the duplicates tree that now holds its content, with the source gone |
| Resolution.OrganizedStep | v3/src/main.rs:131-166 | failure changes nothing and logs nothing; success logs one event about the file: NoOp with the disk unchanged and the file already in the organized or duplicates tree, Moved to a free path in the organized tree, or DuplicateMoved to a free path in the duplicates tree; a moved file's content is at the target and the source is gone |
| Resolution.SearchOrganizedStopsAt | v3/src/main.rs:131-166 | the loop stops exactly at the first non-collision; if that is the file itself the result is in place |
| Resolution.StopIsNotCollision | v3/src/main.rs:142-152 | where a loop stops is never a candidate it would step past |
| Resolution.ConflictBound | v3/src/main.rs:131-201 | both loops end at a conflict number no larger than the number of existing paths, so they terminate |
| Resolution.BracketEvents | v3/src/main.rs:96-168 | a bracketed step logs FileStarted first, is about the file alone and starts nothing else |
| Resolution.DuplicateBranch | v3/src/main.rs:143-146 | a same-content candidate makes `organize_file` `move_to_duplicates` under that candidate's digest, bracketed |
| Resolution.DatedPhotoEffect | v3/src/main.rs:128-168 | on a dated photo without '!', `organize_file` is its conflict loop between FileStarted and, unless the loop fails, FileFinished |
| Resolution.EffectOfPlan | v3/src/main.rs:95-170 | every plan `organize_file` makes is safe, and carrying it out is `organize_file` |
| Resolution.MovedToVacant | v3/src/main.rs:141-165 | every move `organize_file` plans targets a free path three components below the organized or the duplicates root |
| Resolution.DuplicatePlanSafe | v3/src/main.rs:187-192 | the duplicates plan only moves to a free candidate |
| Resolution.MoveOutcomeKeeps | v3/src/main.rs:323-329 | a move keeps the tree and the other files, and creates nothing longer than its target and only where nothing was; a failed move logs FileStarted alone and changes nothing |
| Resolution.PlanEffectKeeps | v3/src/main.rs:95-204 | whatever a safe plan does keeps the tree and every other file, adds only short paths that were free, and logs only events about the file |
| Resolution.FileEffect | v3/src/main.rs:95-170 | `organize_file` keeps the tree, keeps every directory and every other file, adds only paths that were free and fit the configuration's reach, logs FileStarted first and then only events about the file, and on failure logs FileStarted alone with the disk unchanged |
| Resolution.FileEffectConserves | v3/src/main.rs:95-170 | `organize_file` neither deletes nor copies a file: as many files remain, every content is still present, no directory disappears and a file appears only where nothing was |
| Resolution.SkippedFileUntouched | v3/src/main.rs:96-126 | a non-photo, or a photo whose stem holds '!', leaves the disk as it was and logs exactly FileStarted then Skipped with the reason, and no FileFinished |
| Resolution.UndatedPhotoFails | v3/src/main.rs:128 | a photo whose capture time cannot be loaded fails with NoDateTime after FileStarted alone, and the disk is unchanged |
| Resolution.PlanNoClobber | v3/src/main.rs:141-200 | every Moved or DuplicateMoved event of a safe plan has a target that was free and now holds the source's entry; the source is gone and no other path appears or disappears |
| Resolution.PlanWithoutMoveKeepsDisk | v3/src/main.rs:136-200 | a plan that logs no move leaves the disk unchanged |
| Resolution.MoveOutcomeRecorded | v3/src/main.rs:156-163 | a logged move keeps the no-clobber promise |
| Resolution.NoClobber | v3/src/main.rs:141-200 | no clobbering: every Moved or DuplicateMoved of `organize_file` went to a path that was free; the target holds the source's entry, the source is gone and no other file appears or disappears; without a move the disk is unchanged |
| Resolution.PlanStay | v3/src/main.rs:136-138 | a dated photo stays exactly when the organized loop finds it in place |
| Resolution.StayMeansInPlace | v3/src/main.rs:131-166 | NoOp: a file stays exactly when it is a dated, non-exempt photo, some organized candidate is the file itself and every candidate before it holds different content |
| Resolution.DuplicateRouting | v3/src/main.rs:142-146 | a photo goes to the duplicates tree only when some organized candidate already holds a file of the same length and digest; it goes under that digest, to a free candidate |
| Resolution.MovePlanned | v3/src/main.rs:154-156 | a planned organized move targets the first free candidate of a dated, non-exempt photo |
| Resolution.OrganizedNameIsPhotoName | v3/src/main.rs:259-280 | an organized name is itself a photo name without '!' |
| Resolution.SameComparisonAfterMove | v3/src/main.rs:229-245 | comparing against an unchanged third path gives the same answer after the file has moved |
| Resolution.MovedFileStays | v3/src/main.rs:131-166 | idempotence: once a photo has moved to its organized name, organizing that name again leaves it in place |
| Walking.Entries | v3/src/main.rs:75-78 | the listing is strictly sorted and names exactly the entries of the directory |
| Walking.Walk | v3/src/main.rs:67-93 | the duplicates root gives no events and no change; otherwise DirStarted comes first and DirFinished is last on success; a failure ends the log at the start of what failed; events stay inside the directory; the duplicates tree is never entered |
| Walking.WalkFiles | v3/src/main.rs:81-83 | the files loop logs only file events of direct children, and a failure ends its log at a FileStarted |
| Walking.WalkDirs | v3/src/main.rs:86-88 | the directories loop logs only events strictly below the directory; a failure ends its log open |
| Walking.WalkConserves | v3/src/main.rs:67-93 | a walk neither deletes nor copies a file: it leaves as many files as it found, every content still present, no directory removed, and new files only where nothing was |
| Walking.WalkFilesConserves | v3/src/main.rs:81-83 | the files loop conserves the files in the same sense |
| Walking.WalkDirsConserves | v3/src/main.rs:86-88 | the directories loop conserves the files in the same sense |
| Walking.WalkUnreadable | v3/src/main.rs:73-77 | a directory that cannot be read logs DirStarted alone and fails with `read_dir`'s error |
| Walking.WalkListed | v3/src/main.rs:73-92 | a readable directory logs DirStarted, then the files loop, the directories loop and DirFinished over the sorted listing |
| Walking.FileEffectReady | v3/src/main.rs:82 | organizing a file keeps every path within the bound |
| Walking.FileEffectEvents | v3/src/main.rs:81-83 | a file of the listing logs only its own file events; a failure logs FileStarted alone and changes nothing |
| WalkOrder.FilesLoopOrder | v3/src/main.rs:81-83 | the files loop starts children in listing order, and on success starts every entry that was a file |
| WalkOrder.DirsLoopOrder | v3/src/main.rs:86-88 | the directories loop starts no files directly inside the directory; it starts subdirectories in listing order, and on success every one but the duplicates root |
| WalkOrder.WalkShape | v3/src/main.rs:73-92 | the log of a readable walk is DirStarted, the files loop, then on success the directories loop and DirFinished |
| WalkOrder.WalkStartsFilesInOrder | v3/src/main.rs:75-83 | a walk starts the files directly inside the directory in strictly increasing byte order, each an existing entry; on success it starts every one of them |
| WalkOrder.WalkStartsDirectoriesInOrder | v3/src/main.rs:75-88 | a walk starts the subdirectories in strictly increasing byte order; on success it starts every one but the duplicates root |
| WalkOrder.FilesBeforeSubdirectories | v3/src/main.rs:80-88 | every file directly inside the directory is started before any subdirectory |
| WalkOrder.WalkWithoutEntries | v3/src/main.rs:69-77 | the duplicates root and an unreadable directory start no children |
| Organizing.Organizer.constructor | v3/src/main.rs:45-60 | the organizer starts with the given roots, digest and disk, an empty log and a disk ready for the walk |
| Organizing.Organizer.MoveFile | v3/src/main.rs:323-329 | the disk and result are those of `move_file`; a failed move into a free target changes nothing |
| Organizing.Organizer.MoveToDuplicates | v3/src/main.rs:172-204 | the loop's result, disk and appended events are those `move_to_duplicates` defines |
| Organizing.Organizer.PlacePhoto | v3/src/main.rs:131-166 | the conflict loop's result, disk and appended events are those of the organized step |
| Organizing.Organizer.FindPlace | v3/src/main.rs:131-154 | the candidate where the conflict loop stops, and what is there, is the one `SearchOrganized` defines; the disk is only read |
| Organizing.Organizer.MoveAndLog | v3/src/main.rs:156-163 | the result, disk and appended events of a move followed by its event are those of `MoveStep` |
| Organizing.Organizer.OrganizeFile | v3/src/main.rs:95-170 | result, disk and appended events are those of `FileEffect`, and the disk stays ready |
| Organizing.Organizer.ReadDir | v3/src/main.rs:75-78 | the sorted listing of a directory; the `read_dir` error for anything else |
| Organizing.Organizer.OrganizeFiles | v3/src/main.rs:81-83 | the files loop does what `WalkFiles` defines |
| Organizing.Organizer.OrganizeSubdirectories | v3/src/main.rs:86-88 | the directories loop does what `WalkDirs` defines |
| Organizing.Organizer.OrganizeListedFile | v3/src/main.rs:82 | one turn of the files loop advances `WalkFiles` by one entry |
| Organizing.Organizer.OrganizeListedDirectory | v3/src/main.rs:87 | one turn of the directories loop advances `WalkDirs` by one entry |
| Organizing.Organizer.OrganizeEntries | v3/src/main.rs:80-92 | the two loops and DirFinished do what `Listed` defines |
| Organizing.Organizer.OrganizeDirectory | v3/src/main.rs:67-93 | result, disk and appended events are those of `Walk` |
| Organizing.Organizer.Run | v3/src/main.rs:60 | the run is the walk of the unorganized root, and it neither deletes nor copies a file |

## Left out

- `main` and `load_config` are left out. They read a configuration file and print banners. The three roots are the fields of `Config`.
- `on_photiso_event`, `try_trim_prefix` and `try_trim_unc_prefix` only render to the console. Events are appended to a log instead.
- `PhotoDateTimeInfo::load` and `best` are not part of this model. Their result is an optional date-time stored with each file; `None` stands for a failed load.
- `get_file_hash` is not part of this model. The digest is a function from contents to a string.
- chrono's time zones and leap seconds are left out. A date-time is its calendar fields in range, and `%Y %m %d %H %M %S %f` are zero-padded decimals. A year outside 0..9999 carries a sign.
- `to_lowercase` is ASCII-only here. Unicode case mapping is not modelled.
- Names that are not valid UTF-8 are left out. The source would panic at its `to_str().unwrap()` calls.
- Paths are compared as sequences of components. The source compares with `==` in one place and with `to_str()` in another.
- Per-entry errors inside `read_dir`'s iterator are left out. Reading a directory fails only when the path is not a directory.
- I/O failures are modelled only where the disk model gives them:
  - missing paths;
  - a directory where a file is expected;
  - a file where a directory is expected.
  Permissions, full disks and cross-device renames are left out.
- Concurrent changes by other processes are left out.
- `FileError` is declared in the event type, but the source never reports it. Every failure propagates and ends the walk.
- Resolution.SearchOrganized: the conflict number is an unbounded natural. The source's `u32` wrap is not modelled, because ConflictBound shows the number never exceeds the count of existing paths.
- Resolution.SearchDuplicates: the same unbounded conflict number, for the same reason.
- Organizing.Organizer.OrganizeDirectory: termination uses a ghost bound on path length fixed when the organizer is built. The bound covers every existing path plus the longest destination a move can create.
- Organizing.Organizer.PlacePhoto: the conflict loop of `organize_file` is a method of its own, so that `organize_file`'s early returns read as in the source.
- Organizing.Organizer.FindPlace: the conflict loop changes nothing until it stops, so its probing is a method of its own and PlacePhoto acts on the candidate it returns. The move, the hand-over to `move_to_duplicates`, the event or the error happen after the probing, as in the source.
- Organizing.Organizer.MoveAndLog: `move_file` followed by its event is one method, shared by the two loops' moves.
- Organizing.Organizer.OrganizeListedFile: the bodies of the two loops of `organize_directory` are methods of their own, so their proofs stay small.
- Organizing.Organizer.OrganizeListedDirectory: split out for the same reason.
- One `directorySize` is the length `fs::metadata` reports for every directory. The source reads each directory's own metadata, so when a candidate is a directory, whether `are_same_file_contents` answers None (lengths differ) or fails (lengths agree, then hashing a directory fails) depends on that directory alone.
- Symbolic links and special files (devices, pipes, sockets) are not modelled: a path is a regular file, a directory or absent.
- Directories are explicit in the disk, so a directory emptied by a move still exists. `create_dir_all` creates the missing ancestors of a target.
