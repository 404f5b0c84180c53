/**
 * Paths as sequences of components, and the file-name operations of Rust's
 * `std::path::Path` that the organizer relies on: `extension`, `file_stem`
 * and `set_extension`, plus ASCII lower-casing.
 */
module Paths {
  import opened Wrappers

  type Name = string

  /** A path is the sequence of its components; `[]` is the filesystem root. */
  type Path = seq<Name>

  function Last(p: Path): Name
    requires |p| > 0
  {
    p[|p| - 1]
  }

  function Parent(p: Path): Path
    requires |p| > 0
  {
    p[..|p| - 1]
  }

  /** `p` is an entry directly inside `dir`. */
  predicate IsChild(dir: Path, p: Path) {
    |p| == |dir| + 1 && p[..|dir|] == dir
  }

  /** Appending a name to `dir` gives an entry directly inside it, named by that name. */
  lemma ChildOf(dir: Path, n: Name)
    ensures IsChild(dir, dir + [n]) && Last(dir + [n]) == n
  {
    assert (dir + [n])[..|dir|] == dir;
  }

  /** `p` is `dir` itself or lies somewhere below it. */
  predicate Under(dir: Path, p: Path) {
    |dir| <= |p| && p[..|dir|] == dir
  }

  lemma UnderTransitive(a: Path, b: Path, c: Path)
    requires Under(a, b) && Under(b, c)
    ensures Under(a, c)
  {
    assert c[..|a|] == c[..|b|][..|a|];
  }

  /** Index of the last '.' of a file name, or -1 when the name has none. */
  function LastDot(name: Name): (i: int)
    ensures -1 <= i < |name|
    ensures 0 <= i ==> name[i] == '.'
  {
    if name == [] then -1
    else if name[|name| - 1] == '.' then |name| - 1
    else LastDot(name[..|name| - 1])
  }

  /** No '.' follows the last one. */
  lemma {:induction false} LastDotIsLast(name: Name)
    ensures forall k :: LastDot(name) < k < |name| ==> name[k] != '.'
  {
    if name != [] && name[|name| - 1] != '.' {
      var prefix := name[..|name| - 1];
      LastDotIsLast(prefix);
      assert forall k :: LastDot(name) < k < |prefix| ==> name[k] == prefix[k];
    }
  }

  /**
   * `Path::extension` of a file name: what follows the last '.', or nothing
   * when the name has no '.' or its only '.' is the leading one (".profile").
   */
  function Extension(name: Name): (r: Option<string>)
    ensures r.None? <==> name == [] || '.' !in name[1..]
    ensures r.Some? ==>
      && |r.value| + 1 < |name| && name[|name| - |r.value| - 1] == '.'
      && name[|name| - |r.value|..] == r.value && '.' !in r.value
  {
    var i := LastDot(name);
    LastDotIsLast(name);
    if i <= 0 then
      assert name != [] ==> forall k :: 0 <= k < |name| - 1 ==> name[1..][k] == name[k + 1];
      None
    else
      assert name[1..][i - 1] == '.';
      var e := name[i + 1..];
      assert forall k :: 0 <= k < |e| ==> e[k] == name[i + 1 + k];
      Some(e)
  }

  /**
   * `Path::file_stem`: the name without its extension.  A name with an
   * extension is its non-empty stem, '.', and the extension.
   */
  function Stem(name: Name): (r: Name)
    ensures Extension(name).None? ==> r == name
    ensures Extension(name).Some? ==> r != "" && name == r + "." + Extension(name).value
  {
    var i := LastDot(name);
    if i <= 0 then name
    else
      assert name == name[..i] + "." + name[i + 1..];
      name[..i]
  }

  /** ".e" for a non-empty extension e, nothing for an empty one. */
  function Dotted(ext: string): string {
    if ext == "" then "" else "." + ext
  }

  /**
   * `PathBuf::set_extension` on a file name: keep the stem, then append '.'
   * and the new extension unless that extension is empty.
   */
  function SetExtension(name: Name, ext: string): Name {
    Stem(name) + Dotted(ext)
  }

  /** Reading a renamed file name back gives the new extension and the old stem. */
  lemma SetExtensionReadsBack(name: Name, ext: string)
    requires name != "" && ext != "" && '.' !in ext
    ensures Extension(SetExtension(name, ext)) == Some(ext)
    ensures Stem(SetExtension(name, ext)) == Stem(name)
  {
    var stem := Stem(name);
    assert stem != "";
    assert SetExtension(name, ext) == stem + "." + ext;
    ExtensionOfDotted(stem, ext);
  }

  /** The last '.' of `base + "." + ext` is the one in front of a dot-free `ext`. */
  lemma LastDotOfDotted(base: string, ext: string)
    requires '.' !in ext
    ensures LastDot(base + "." + ext) == |base|
  {
    LastDotSkips(base + ".", ext);
    assert (base + ".")[|base|] == '.';
  }

  /** A dot-free tail leaves the last '.' where it was. */
  lemma {:induction false} LastDotSkips(prefix: string, tail: string)
    requires '.' !in tail
    ensures LastDot(prefix + tail) == LastDot(prefix)
    decreases |tail|
  {
    if tail == [] {
      assert prefix + tail == prefix;
    } else {
      var name := prefix + tail;
      assert name[|name| - 1] == tail[|tail| - 1];
      assert name[..|name| - 1] == prefix + tail[..|tail| - 1];
      LastDotSkips(prefix, tail[..|tail| - 1]);
    }
  }

  /** Splitting a name built as `base.ext` gives back `base` and `ext`. */
  lemma ExtensionOfDotted(base: string, ext: string)
    requires base != "" && '.' !in ext
    ensures Extension(base + "." + ext) == Some(ext)
    ensures Stem(base + "." + ext) == base
  {
    LastDotOfDotted(base, ext);
    assert (base + "." + ext)[|base| + 1..] == ext;
    assert (base + "." + ext)[..|base|] == base;
  }

  /** `set_extension` replaces the extension of `base.prior` and leaves `base` alone. */
  lemma SetExtensionReplaces(base: string, prior: string, ext: string)
    requires base != "" && '.' !in prior
    ensures SetExtension(base + "." + prior, ext) == base + Dotted(ext)
  {
    ExtensionOfDotted(base, prior);
  }

  /** A name whose only '.' leads it has no extension, so `set_extension` appends. */
  lemma SetExtensionLeadingDot(prior: string, ext: string)
    requires '.' !in prior
    ensures SetExtension("." + prior, ext) == "." + prior + Dotted(ext)
  {
    LastDotOfDotted("", prior);
    assert "" + "." + prior == "." + prior;
  }

  function LowerChar(c: char): (r: char)
    ensures 'A' <= c <= 'Z' ==> r as int == c as int + 32
    ensures !('A' <= c <= 'Z') ==> r == c
    ensures !('A' <= r <= 'Z')
  {
    if 'A' <= c <= 'Z' then (c as int + 32) as char else c
  }

  /**
   * ASCII lower-casing, character by character: every upper-case letter
   * becomes its lower-case letter and every other character is kept.
   */
  function Lower(s: string): (r: string)
    ensures |r| == |s|
    ensures forall k :: 0 <= k < |s| ==> r[k] == LowerChar(s[k])
  {
    if s == [] then [] else [LowerChar(s[0])] + Lower(s[1..])
  }

  /** Lower-casing twice is lower-casing once. */
  lemma LowerIdempotent(s: string)
    ensures Lower(Lower(s)) == Lower(s)
  {
  }

  /** Lower-casing neither creates nor removes a '.'. */
  lemma LowerKeepsDots(s: string)
    ensures '.' in Lower(s) <==> '.' in s
  {
    if '.' in s {
      var k :| 0 <= k < |s| && s[k] == '.';
      assert Lower(s)[k] == '.';
    }
    if '.' in Lower(s) {
      var k :| 0 <= k < |s| && Lower(s)[k] == '.';
      assert s[k] == '.';
    }
  }
}
