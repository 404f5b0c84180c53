/**
 * Destination names: the organized tree `YYYY/MM/YYYY-MM-DD HH-MM-SS-fffffffff[ NNN].ext`
 * and the duplicates tree `YYYY/MM/<digest>[.NNN].ext`, with chrono's zero-padded
 * rendering of a timestamp and Rust's `{:03}` rendering of a conflict number.
 */
module Naming {
  import opened Wrappers
  import opened Paths

  predicate IsDigit(c: char) {
    '0' <= c <= '9'
  }

  predicate AllDigits(s: string) {
    forall k :: 0 <= k < |s| ==> IsDigit(s[k])
  }

  function DigitChar(d: nat): (c: char)
    requires d < 10
    ensures IsDigit(c)
  {
    ('0' as int + d) as char
  }

  /** Decimal rendering without leading zeros ("0" for zero). */
  function Digits(n: nat): (s: string)
    ensures |s| >= 1
  {
    if n < 10 then [DigitChar(n)] else Digits(n / 10) + [DigitChar(n % 10)]
  }

  lemma {:induction false} DigitsAreDigits(n: nat)
    ensures AllDigits(Digits(n))
  {
    if n >= 10 {
      DigitsAreDigits(n / 10);
    }
  }

  function Zeros(k: nat): (s: string)
    ensures |s| == k
  {
    if k == 0 then "" else "0" + Zeros(k - 1)
  }

  lemma {:induction false} ZerosAreZeros(k: nat)
    ensures forall i :: 0 <= i < k ==> Zeros(k)[i] == '0'
  {
    if k > 0 {
      ZerosAreZeros(k - 1);
    }
  }

  /** Decimal rendering zero-padded to at least `width` digits (`{:0width$}`). */
  function Padded(n: nat, width: nat): (s: string)
    ensures |s| >= width && |s| >= 1
  {
    var ds := Digits(n);
    if |ds| >= width then ds else Zeros(width - |ds|) + ds
  }

  /** A zero-padded rendering holds nothing but decimal digits. */
  lemma PaddedAreDigits(n: nat, width: nat)
    ensures AllDigits(Padded(n, width))
  {
    var ds := Digits(n);
    DigitsAreDigits(n);
    if |ds| < width {
      ZerosAreZeros(width - |ds|);
    }
  }

  /** A character that is not a digit is absent from a zero-padded rendering. */
  lemma PaddedLacks(n: nat, width: nat, c: char)
    requires !IsDigit(c)
    ensures c !in Padded(n, width)
  {
    PaddedAreDigits(n, width);
  }

  /** The number a string of decimal digits denotes. */
  function Value(s: string): int {
    if s == [] then 0 else 10 * Value(s[..|s| - 1]) + (s[|s| - 1] as int - '0' as int)
  }

  lemma {:induction false} ValueOfDigits(n: nat)
    ensures Value(Digits(n)) == n
  {
    if n >= 10 {
      var s := Digits(n);
      assert s[..|s| - 1] == Digits(n / 10);
      ValueOfDigits(n / 10);
    }
  }

  lemma {:induction false} ValueOfZeros(k: nat)
    ensures Value(Zeros(k)) == 0
  {
    if k > 0 {
      ZerosAreZeros(k);
      ZerosAreZeros(k - 1);
      assert Zeros(k)[..k - 1] == Zeros(k - 1);
      ValueOfZeros(k - 1);
    }
  }

  lemma {:induction false} ValueIgnoresLeadingZeros(k: nat, s: string)
    ensures Value(Zeros(k) + s) == Value(s)
  {
    if s == [] {
      assert Zeros(k) + s == Zeros(k);
      ValueOfZeros(k);
    } else {
      var t := Zeros(k) + s;
      assert t[..|t| - 1] == Zeros(k) + s[..|s| - 1];
      ValueIgnoresLeadingZeros(k, s[..|s| - 1]);
    }
  }

  /** Reading a zero-padded rendering back gives the number: padding loses nothing. */
  lemma ValueOfPadded(n: nat, width: nat)
    ensures Value(Padded(n, width)) == n
  {
    var ds := Digits(n);
    var p := Padded(n, width);
    ValueOfDigits(n);
    if |ds| < width {
      assert p == Zeros(width - |ds|) + ds;
      ValueIgnoresLeadingZeros(width - |ds|, ds);
    }
  }

  /** Distinct numbers never share a zero-padded rendering. */
  lemma PaddedInjective(m: nat, n: nat, width: nat)
    requires Padded(m, width) == Padded(n, width)
    ensures m == n
  {
    ValueOfPadded(m, width);
    ValueOfPadded(n, width);
  }

  function Pow10(w: nat): nat {
    if w == 0 then 1 else 10 * Pow10(w - 1)
  }

  lemma {:induction false} DigitsLength(n: nat, w: nat)
    requires 1 <= w && n < Pow10(w)
    ensures |Digits(n)| <= w
  {
    if n >= 10 {
      assert Pow10(w) == 10 * Pow10(w - 1);
      assert n / 10 < Pow10(w - 1);
      DigitsLength(n / 10, w - 1);
    }
  }

  /** A number below 10^width renders in exactly `width` digits. */
  lemma PaddedWidth(n: nat, width: nat)
    requires 1 <= width && n < Pow10(width)
    ensures |Padded(n, width)| == width
  {
    DigitsLength(n, width);
  }

  /** A chrono date-time as its calendar fields. */
  datatype Timestamp = Timestamp(
    year: int, month: nat, day: nat,
    hour: nat, minute: nat, second: nat, nanosecond: nat)

  predicate LeapYear(y: int) {
    (y % 4 == 0 && y % 100 != 0) || y % 400 == 0
  }

  function DaysInMonth(y: int, m: nat): nat {
    if m == 2 then (if LeapYear(y) then 29 else 28)
    else if m == 4 || m == 6 || m == 9 || m == 11 then 30
    else 31
  }

  /** The fields of a date-time chrono can hold (leap seconds aside). */
  predicate ValidTimestamp(t: Timestamp) {
    && 1 <= t.month <= 12
    && 1 <= t.day <= DaysInMonth(t.year, t.month)
    && t.hour < 24 && t.minute < 60 && t.second < 60
    && t.nanosecond < 1_000_000_000
  }

  type DateTime = t: Timestamp | ValidTimestamp(t) witness Timestamp(1970, 1, 1, 0, 0, 0, 0)

  /** `{:02}`-style rendering of a number below 100: exactly two digits that read back as it. */
  lemma TwoDigits(n: nat)
    requires n < 100
    ensures |Padded(n, 2)| == 2 && AllDigits(Padded(n, 2)) && Value(Padded(n, 2)) == n
  {
    assert Pow10(2) == 100;
    PaddedWidth(n, 2);
    PaddedAreDigits(n, 2);
    ValueOfPadded(n, 2);
  }

  /** chrono's `%Y`: at least four digits; a year outside 0..9999 carries its sign. */
  function YearText(y: int): string {
    if 0 <= y <= 9999 then Padded(y, 4)
    else (if y < 0 then "-" else "+") + Padded(if y < 0 then -y else y, 4)
  }

  /** A four-digit year reads back from its `%Y` digits; any other year from the digits after its sign. */
  lemma YearTextReadsBack(y: int)
    ensures 0 <= y <= 9999 ==> |YearText(y)| == 4 && AllDigits(YearText(y)) && Value(YearText(y)) == y
    ensures y < 0 ==>
      && |YearText(y)| >= 5 && YearText(y)[0] == '-'
      && AllDigits(YearText(y)[1..]) && Value(YearText(y)[1..]) == -y
    ensures y > 9999 ==>
      && |YearText(y)| >= 5 && YearText(y)[0] == '+'
      && AllDigits(YearText(y)[1..]) && Value(YearText(y)[1..]) == y
  {
    var n := if y < 0 then -y else y;
    PaddedAreDigits(n, 4);
    ValueOfPadded(n, 4);
    if 0 <= y <= 9999 {
      assert Pow10(4) == 10000;
      PaddedWidth(n, 4);
    } else {
      assert YearText(y)[1..] == Padded(n, 4);
    }
  }

  /** chrono's `%m`. */
  function MonthText(t: DateTime): string {
    Padded(t.month, 2)
  }

  /** A month is written as two digits that read back as it. */
  lemma MonthTextReadsBack(t: DateTime)
    ensures |MonthText(t)| == 2 && AllDigits(MonthText(t)) && Value(MonthText(t)) == t.month
  {
    TwoDigits(t.month);
  }

  /** chrono's `%Y-%m-%d`. */
  function DateText(t: DateTime): string {
    YearText(t.year) + "-" + MonthText(t) + "-" + Padded(t.day, 2)
  }

  /** For a four-digit year, a date is ten characters whose fields read back as year, month and day. */
  lemma DateTextLayout(t: DateTime)
    requires 0 <= t.year <= 9999
    ensures var r := DateText(t);
      && |r| == 10 && r[4] == '-' && r[7] == '-'
      && AllDigits(r[..4]) && AllDigits(r[5..7]) && AllDigits(r[8..])
      && Value(r[..4]) == t.year && Value(r[5..7]) == t.month && Value(r[8..]) == t.day
  {
    YearTextReadsBack(t.year);
    MonthTextReadsBack(t);
    TwoDigits(t.day);
    var r := DateText(t);
    assert r[..4] == YearText(t.year) && r[5..7] == MonthText(t) && r[8..] == Padded(t.day, 2);
  }

  /** chrono's `%H-%M-%S-%f` (`%f`: nanoseconds in nine digits). */
  function TimeText(t: DateTime): string {
    Padded(t.hour, 2) + "-" + Padded(t.minute, 2) + "-" + Padded(t.second, 2) + "-" + Padded(t.nanosecond, 9)
  }

  /** A time is eighteen characters whose fields read back as hour, minute, second and nanosecond. */
  lemma TimeTextLayout(t: DateTime)
    ensures var r := TimeText(t);
      && |r| == 18 && r[2] == '-' && r[5] == '-' && r[8] == '-'
      && AllDigits(r[..2]) && AllDigits(r[3..5]) && AllDigits(r[6..8]) && AllDigits(r[9..])
      && Value(r[..2]) == t.hour && Value(r[3..5]) == t.minute && Value(r[6..8]) == t.second
      && Value(r[9..]) == t.nanosecond
  {
    TwoDigits(t.hour);
    TwoDigits(t.minute);
    TwoDigits(t.second);
    assert Pow10(9) == 1_000_000_000;
    PaddedWidth(t.nanosecond, 9);
    PaddedAreDigits(t.nanosecond, 9);
    ValueOfPadded(t.nanosecond, 9);
    var r := TimeText(t);
    assert r[..2] == Padded(t.hour, 2) && r[3..5] == Padded(t.minute, 2)
      && r[6..8] == Padded(t.second, 2) && r[9..] == Padded(t.nanosecond, 9);
  }

  /** chrono's `%Y-%m-%d %H-%M-%S-%f`: the date, a space and the time. */
  function Stamp(t: DateTime): string {
    DateText(t) + " " + TimeText(t)
  }

  /** For a four-digit year, a stamp is 29 characters from which every field reads back. */
  lemma StampLayout(t: DateTime)
    requires 0 <= t.year <= 9999
    ensures var r := Stamp(t);
      && |r| == 29 && r[4] == '-' && r[7] == '-' && r[10] == ' ' && r[13] == '-' && r[16] == '-' && r[19] == '-'
      && Value(r[..4]) == t.year && Value(r[5..7]) == t.month && Value(r[8..10]) == t.day
      && Value(r[11..13]) == t.hour && Value(r[14..16]) == t.minute && Value(r[17..19]) == t.second
      && Value(r[20..]) == t.nanosecond
  {
    DateTextLayout(t);
    TimeTextLayout(t);
    StampSlices(DateText(t), TimeText(t));
  }

  /** Where the fields of a date and a time sit once they are joined by a space. */
  lemma StampSlices(dt: string, tt: string)
    requires |dt| == 10 && |tt| == 18
    ensures var r := dt + " " + tt;
      && r[..4] == dt[..4] && r[5..7] == dt[5..7] && r[8..10] == dt[8..] && r[10] == ' '
      && r[11..13] == tt[..2] && r[14..16] == tt[3..5] && r[17..19] == tt[6..8] && r[20..] == tt[9..]
      && r[4] == dt[4] && r[7] == dt[7] && r[13] == tt[2] && r[16] == tt[5] && r[19] == tt[8]
  {
  }

  /** Two instants with four-digit years share a stamp only when they are the same instant. */
  lemma StampInjective(t1: DateTime, t2: DateTime)
    requires 0 <= t1.year <= 9999 && 0 <= t2.year <= 9999
    requires Stamp(t1) == Stamp(t2)
    ensures t1 == t2
  {
    StampLayout(t1);
    StampLayout(t2);
  }

  lemma YearLacks(y: int, c: char)
    requires !IsDigit(c) && c != '+' && c != '-'
    ensures c !in YearText(y)
  {
    PaddedLacks(if y < 0 then -y else y, 4, c);
  }

  lemma DateLacks(t: DateTime, c: char)
    requires !IsDigit(c) && c != '-' && c != '+'
    ensures c !in DateText(t)
  {
    YearLacks(t.year, c);
    PaddedLacks(t.month, 2, c);
    PaddedLacks(t.day, 2, c);
  }

  lemma TimeLacks(t: DateTime, c: char)
    requires !IsDigit(c) && c != '-'
    ensures c !in TimeText(t)
  {
    PaddedLacks(t.hour, 2, c);
    PaddedLacks(t.minute, 2, c);
    PaddedLacks(t.second, 2, c);
    PaddedLacks(t.nanosecond, 9, c);
  }

  /** A stamp is digits, '-', ' ' and a sign, and is never empty. */
  lemma StampLacks(t: DateTime, c: char)
    requires !IsDigit(c) && c != '-' && c != '+' && c != ' '
    ensures c !in Stamp(t) && Stamp(t) != ""
  {
    DateLacks(t, c);
    TimeLacks(t, c);
  }

  /** An organized file name's stem (stamp and conflict suffix) holds no '.' and no '!'. */
  lemma OrganizedStemLacks(t: DateTime, conflict: nat, c: char)
    requires !IsDigit(c) && c != '-' && c != '+' && c != ' '
    ensures c !in Stamp(t) + OrganizedSuffix(conflict) && Stamp(t) != ""
  {
    StampLacks(t, c);
    if conflict > 0 {
      PaddedLacks(conflict, 3, c);
    }
  }

  /** The placeholder extension the builders write before `set_extension` replaces it. */
  const Placeholder: string := "jpg"

  function OrganizedSuffix(conflict: nat): string {
    if conflict > 0 then " " + Padded(conflict, 3) else ""
  }

  function DuplicateSuffix(conflict: nat): string {
    if conflict > 0 then "." + Padded(conflict, 3) else ""
  }

  /**
   * The file name the builders produce: `base` and the conflict suffix, then
   * '.' and `ext` lower-cased.  When `base` and the suffix are both empty the
   * placeholder name ".jpg" has no extension to replace and is kept.
   */
  function FileName(base: string, suffix: string, ext: string): Name {
    if base + suffix == "" then "." + Placeholder + Dotted(Lower(ext))
    else base + suffix + Dotted(Lower(ext))
  }

  /** Either way the name is `base`, the suffix and ".jpg", with `set_extension` to `ext` lower-cased. */
  lemma FileNameIsSetExtension(base: string, suffix: string, ext: string)
    ensures FileName(base, suffix, ext) == SetExtension(base + suffix + "." + Placeholder, Lower(ext))
  {
    if base + suffix == "" {
      assert base + suffix + "." + Placeholder == "." + Placeholder;
      SetExtensionLeadingDot(Placeholder, Lower(ext));
    } else {
      PlaceholderReplaced(base + suffix, Lower(ext));
    }
  }

  /** `get_photo_destination_path`'s file name: the stamp, the conflict suffix and ".jpg", given the lower-cased extension. */
  function OrganizedFileName(ext: string, t: DateTime, conflict: nat): Name {
    FileName(Stamp(t), OrganizedSuffix(conflict), ext)
  }

  /** `get_photo_duplicates_path`'s file name: the digest, the conflict suffix and ".jpg", given the lower-cased extension. */
  function DuplicateFileName(ext: string, digest: string, conflict: nat): Name {
    FileName(digest, DuplicateSuffix(conflict), ext)
  }

  /** `get_photo_destination_path`: `organized/YYYY/MM/<stamp>[ NNN].<ext lower-cased>`. */
  function OrganizedPath(organized: Path, ext: string, t: DateTime, conflict: nat): (p: Path)
    ensures |p| == |organized| + 3 && p[..|organized|] == organized
  {
    organized + [YearText(t.year), MonthText(t), OrganizedFileName(ext, t, conflict)]
  }

  /** `get_photo_duplicates_path`: `duplicates/YYYY/MM/<digest>[.NNN].<ext lower-cased>`. */
  function DuplicatesPath(duplicates: Path, ext: string, t: DateTime, digest: string, conflict: nat): (p: Path)
    ensures |p| == |duplicates| + 3 && p[..|duplicates|] == duplicates
  {
    duplicates + [YearText(t.year), MonthText(t), DuplicateFileName(ext, digest, conflict)]
  }

  /**
   * The organized file name is the stamp, then " NNN" only for a non-zero
   * conflict number, then '.' and the lower-cased extension (nothing for an
   * empty extension): the ".jpg" placeholder is replaced, never kept.
   */
  lemma OrganizedFileNameLayout(ext: string, t: DateTime, conflict: nat)
    ensures OrganizedFileName(ext, t, conflict) == Stamp(t) + OrganizedSuffix(conflict) + Dotted(Lower(ext))
  {
    StampLacks(t, '.');
  }

  lemma PlaceholderReplaced(base: string, ext: string)
    requires base != ""
    ensures SetExtension(base + "." + Placeholder, ext) == base + Dotted(ext)
  {
    SetExtensionReplaces(base, Placeholder, ext);
  }

  lemma NameParts(base: string, e: string)
    requires base != "" && e != "" && '.' !in e
    ensures Extension(base + Dotted(e)) == Some(e) && Stem(base + Dotted(e)) == base
  {
    assert base + Dotted(e) == base + "." + e;
    ExtensionOfDotted(base, e);
  }

  /**
   * An organized file name splits back into the stamp with its conflict
   * suffix, and the lower-cased extension it was given.
   */
  lemma OrganizedFileNameParts(ext: string, t: DateTime, conflict: nat)
    requires ext != "" && '.' !in ext
    ensures Extension(OrganizedFileName(ext, t, conflict)) == Some(Lower(ext))
    ensures Stem(OrganizedFileName(ext, t, conflict)) == Stamp(t) + OrganizedSuffix(conflict)
  {
    LowerKeepsDots(ext);
    OrganizedFileNameLayout(ext, t, conflict);
    StampLacks(t, '.');
    NameParts(Stamp(t) + OrganizedSuffix(conflict), Lower(ext));
  }

  /**
   * The duplicate file name is the digest, then ".NNN" only for a non-zero
   * conflict number, then '.' and the lower-cased extension.
   */
  lemma DuplicateFileNameLayout(ext: string, digest: string, conflict: nat)
    requires digest != "" || conflict > 0
    ensures DuplicateFileName(ext, digest, conflict) == digest + DuplicateSuffix(conflict) + Dotted(Lower(ext))
  {
  }

  /**
   * A duplicate file name with a digest or a conflict number splits back into
   * the digest with its conflict suffix, and the lower-cased extension.
   */
  lemma DuplicateFileNameParts(ext: string, digest: string, conflict: nat)
    requires ext != "" && '.' !in ext
    requires digest != "" || conflict > 0
    ensures Extension(DuplicateFileName(ext, digest, conflict)) == Some(Lower(ext))
    ensures Stem(DuplicateFileName(ext, digest, conflict)) == digest + DuplicateSuffix(conflict)
  {
    LowerKeepsDots(ext);
    DuplicateFileNameLayout(ext, digest, conflict);
    NameParts(digest + DuplicateSuffix(conflict), Lower(ext));
  }

  /** With an empty digest and no conflict the name is ".jpg" alone, which has no extension to replace. */
  lemma DuplicateFileNameEmptyDigest(ext: string)
    ensures DuplicateFileName(ext, "", 0) == "." + Placeholder + Dotted(Lower(ext))
  {
  }

  lemma CancelAround(a: string, x: string, y: string, d: string)
    requires a + x + d == a + y + d
    ensures x == y
  {
    assert |x| == |y|;
    assert (a + x + d)[|a|..|a| + |x|] == x;
    assert (a + y + d)[|a|..|a| + |y|] == y;
  }

  lemma SuffixInjective(conflict1: nat, conflict2: nat, sep: string)
    requires |sep| == 1
    requires (if conflict1 > 0 then sep + Padded(conflict1, 3) else "") == (if conflict2 > 0 then sep + Padded(conflict2, 3) else "")
    ensures conflict1 == conflict2
  {
    if conflict1 > 0 && conflict2 > 0 {
      assert Padded(conflict1, 3) == (sep + Padded(conflict1, 3))[1..];
      PaddedInjective(conflict1, conflict2, 3);
    }
  }

  /** Distinct conflict numbers give distinct organized paths. */
  lemma OrganizedPathInjective(organized: Path, ext: string, t: DateTime, conflict1: nat, conflict2: nat)
    requires OrganizedPath(organized, ext, t, conflict1) == OrganizedPath(organized, ext, t, conflict2)
    ensures conflict1 == conflict2
  {
    var k := |organized| + 2;
    assert OrganizedFileName(ext, t, conflict1) == OrganizedPath(organized, ext, t, conflict1)[k];
    assert OrganizedFileName(ext, t, conflict2) == OrganizedPath(organized, ext, t, conflict2)[k];
    OrganizedFileNameLayout(ext, t, conflict1);
    OrganizedFileNameLayout(ext, t, conflict2);
    CancelAround(Stamp(t), OrganizedSuffix(conflict1), OrganizedSuffix(conflict2), Dotted(Lower(ext)));
    SuffixInjective(conflict1, conflict2, " ");
  }

  /** Distinct conflict numbers give distinct duplicate file names, whatever the digest. */
  lemma DuplicateFileNameInjective(ext: string, digest: string, conflict1: nat, conflict2: nat)
    requires DuplicateFileName(ext, digest, conflict1) == DuplicateFileName(ext, digest, conflict2)
    ensures conflict1 == conflict2
  {
    var d := Dotted(Lower(ext));
    if digest != "" || (conflict1 > 0 && conflict2 > 0) {
      DuplicateFileNameLayout(ext, digest, conflict1);
      DuplicateFileNameLayout(ext, digest, conflict2);
      CancelAround(digest, DuplicateSuffix(conflict1), DuplicateSuffix(conflict2), d);
      SuffixInjective(conflict1, conflict2, ".");
    } else if conflict1 > 0 {
      NumberedDiffersFromBare(ext, conflict1);
    } else if conflict2 > 0 {
      NumberedDiffersFromBare(ext, conflict2);
    }
  }

  /** With an empty digest, ".NNN.ext" never coincides with the bare ".jpg.ext". */
  lemma NumberedDiffersFromBare(ext: string, conflict: nat)
    requires conflict > 0
    ensures DuplicateFileName(ext, "", conflict) != DuplicateFileName(ext, "", 0)
  {
    var d := Dotted(Lower(ext));
    var p := Padded(conflict, 3);
    DuplicateFileNameLayout(ext, "", conflict);
    DuplicateFileNameEmptyDigest(ext);
    assert "" + DuplicateSuffix(conflict) == "." + p;
    PaddedAreDigits(conflict, 3);
    assert IsDigit(p[0]) && p[0] != Placeholder[0];
    DistinctMiddle(".", p, Placeholder, d);
  }

  lemma DistinctMiddle(a: string, x: string, y: string, d: string)
    requires x != y
    ensures a + x + d != a + y + d
  {
    if |x| == |y| {
      var k :| 0 <= k < |x| && x[k] != y[k];
      assert (a + x + d)[|a| + k] == x[k];
      assert (a + y + d)[|a| + k] == y[k];
    }
  }

  /** Distinct conflict numbers give distinct duplicate paths, whatever the digest. */
  lemma DuplicatesPathInjective(duplicates: Path, ext: string, t: DateTime, digest: string, conflict1: nat, conflict2: nat)
    requires DuplicatesPath(duplicates, ext, t, digest, conflict1) == DuplicatesPath(duplicates, ext, t, digest, conflict2)
    ensures conflict1 == conflict2
  {
    var k := |duplicates| + 2;
    assert DuplicateFileName(ext, digest, conflict1) == DuplicatesPath(duplicates, ext, t, digest, conflict1)[k];
    assert DuplicateFileName(ext, digest, conflict2) == DuplicatesPath(duplicates, ext, t, digest, conflict2)[k];
    DuplicateFileNameInjective(ext, digest, conflict1, conflict2);
  }

  /** The naming scheme one conflict loop walks through: organized or duplicates. */
  datatype Scheme =
    | OrganizedScheme(root: Path, ext: string, taken: DateTime)
    | DuplicatesScheme(root: Path, ext: string, taken: DateTime, digest: string)

  /** The destination the loop probes for a conflict number. */
  function SlotPath(s: Scheme, conflict: nat): (p: Path)
    ensures |p| == |s.root| + 3 && p[..|s.root|] == s.root
  {
    var base := if s.OrganizedScheme? then Stamp(s.taken) else s.digest;
    var suffix := if s.OrganizedScheme? then OrganizedSuffix(conflict) else DuplicateSuffix(conflict);
    s.root + [YearText(s.taken.year), MonthText(s.taken), FileName(base, suffix, s.ext)]
  }

  /** Lower-casing a scheme's extension again changes none of its destinations. */
  lemma SlotPathLowered(s: Scheme, conflict: nat)
    ensures SlotPath(s.(ext := Lower(s.ext)), conflict) == SlotPath(s, conflict)
  {
    LowerIdempotent(s.ext);
  }

  lemma SlotPathInjective(s: Scheme, conflict1: nat, conflict2: nat)
    requires SlotPath(s, conflict1) == SlotPath(s, conflict2)
    ensures conflict1 == conflict2
  {
    match s
    case OrganizedScheme(root, ext, t) =>
      OrganizedPathInjective(root, ext, t, conflict1, conflict2);
    case DuplicatesScheme(root, ext, t, digest) =>
      DuplicatesPathInjective(root, ext, t, digest, conflict1, conflict2);
  }

  lemma SlotPathsDistinct(s: Scheme, conflict1: nat, conflict2: nat)
    requires conflict1 != conflict2
    ensures SlotPath(s, conflict1) != SlotPath(s, conflict2)
  {
    if SlotPath(s, conflict1) == SlotPath(s, conflict2) {
      SlotPathInjective(s, conflict1, conflict2);
    }
  }

  /** The values `f` takes below `n`. */
  function Firsts<T>(f: nat -> T, n: nat): set<T> {
    if n == 0 then {} else Firsts(f, n - 1) + {f(n - 1)}
  }

  ghost predicate Injective<T>(f: nat -> T) {
    forall i: nat, j: nat :: i != j ==> f(i) != f(j)
  }

  /** An injective `f` takes at `n` a value it does not take below `m <= n`. */
  lemma {:induction false} FreshBeyond<T>(f: nat -> T, n: nat, m: nat)
    requires Injective(f) && m <= n
    ensures f(n) !in Firsts(f, m)
  {
    if m > 0 {
      FreshBeyond(f, n, m - 1);
      assert f(m - 1) != f(n);
    }
  }

  /** An injective `f` takes `n` distinct values below `n`. */
  lemma {:induction false} FirstsSize<T>(f: nat -> T, n: nat)
    requires Injective(f)
    ensures |Firsts(f, n)| == n
  {
    if n > 0 {
      FirstsSize(f, n - 1);
      FreshBeyond(f, n - 1, n - 1);
      AddFresh(Firsts(f, n - 1), f(n - 1), n - 1);
    }
  }

  lemma AddFresh<T>(a: set<T>, x: T, k: nat)
    requires x !in a && |a| == k
    ensures |a + {x}| == k + 1
  {
    assert a * {x} == {};
  }

  /** The values below `n` lie in any set that holds each of them. */
  lemma {:induction false} FirstsWithin<T>(f: nat -> T, n: nat, within: set<T>)
    requires forall j: nat :: j < n ==> f(j) in within
    ensures Firsts(f, n) <= within
  {
    if n > 0 {
      FirstsWithin(f, n - 1, within);
    }
  }

  /** The destinations of a scheme by conflict number. */
  function Slots(s: Scheme): nat -> Path {
    (c: nat) => SlotPath(s, c)
  }

  /** The destinations probed before conflict number `n`. */
  function SlotsBelow(s: Scheme, n: nat): set<Path> {
    Firsts(Slots(s), n)
  }

  lemma SlotsInjective(s: Scheme)
    ensures Injective(Slots(s))
  {
    forall i: nat, j: nat | i != j
      ensures Slots(s)(i) != Slots(s)(j)
    {
      SlotPathsDistinct(s, i, j);
    }
  }

  /** Each conflict number names a destination not probed before it. */
  lemma SlotsBelowStep(s: Scheme, n: nat)
    ensures SlotPath(s, n) !in SlotsBelow(s, n)
    ensures SlotsBelow(s, n + 1) == SlotsBelow(s, n) + {SlotPath(s, n)}
  {
    SlotsInjective(s);
    FreshBeyond(Slots(s), n, n);
  }

  /** The first `n` conflict numbers name `n` distinct destinations. */
  lemma SlotsBelowSize(s: Scheme, n: nat)
    ensures |SlotsBelow(s, n)| == n
  {
    SlotsInjective(s);
    FirstsSize(Slots(s), n);
  }

  /** The destinations probed before `n` lie in any set that holds each of them. */
  lemma SlotsBelowWithin(s: Scheme, n: nat, within: set<Path>)
    requires forall j: nat :: j < n ==> SlotPath(s, j) in within
    ensures SlotsBelow(s, n) <= within
  {
    FirstsWithin(Slots(s), n, within);
  }
}
