/** Which files the organizer touches: `is_photo_file` and the '!' exemption. */
module Classify {
  import opened Wrappers
  import opened Paths
  import opened Disks

  /** The extensions `is_photo_file` accepts, lower-cased. */
  const PhotoExtensions: set<string> := {"bmp", "gif", "jpg", "jpeg", "png", "tif", "tiff", "wmp"}

  /**
   * `is_photo_file`: `p` exists as a regular file, has an extension, and that
   * extension lower-cased is one of the photo extensions.
   */
  function IsPhotoFile(d: Disk, p: Path): (b: bool)
    ensures b ==> p in d.files && |p| > 0 && Extension(Last(p)).Some?
  {
    && Exists(d, p) && p in d.files && |p| > 0
    && match Extension(Last(p))
       case None => false
       case Some(ext) => Lower(ext) in PhotoExtensions
  }

  /**
   * A photo is a regular file whose name has a '.' after its first character,
   * no '.' after that one, and a lower-cased tail that is a photo extension.
   */
  lemma IsPhotoFileCharacterized(d: Disk, p: Path)
    ensures IsPhotoFile(d, p) <==>
      && p in d.files && |p| > 0
      && exists k :: 0 < k < |Last(p)| && Last(p)[k] == '.' && '.' !in Last(p)[k + 1..]
           && Lower(Last(p)[k + 1..]) in PhotoExtensions
  {
    if IsPhotoFile(d, p) {
      PhotoHasLastDot(d, p);
    } else if p in d.files && |p| > 0 {
      NotPhotoHasNoDot(d, p);
    }
  }

  /** A file that is not a photo has no '.' with a photo extension after it. */
  lemma NotPhotoHasNoDot(d: Disk, p: Path)
    requires p in d.files && |p| > 0 && !IsPhotoFile(d, p)
    ensures forall k :: 0 < k < |Last(p)| && Last(p)[k] == '.' && '.' !in Last(p)[k + 1..] ==>
      Lower(Last(p)[k + 1..]) !in PhotoExtensions
  {
    var name := Last(p);
    forall k | 0 < k < |name| && name[k] == '.' && '.' !in name[k + 1..]
      ensures Lower(name[k + 1..]) !in PhotoExtensions
    {
      LastDotIsOnlyDotAfter(name, k);
      assert Extension(name) == Some(name[k + 1..]);
    }
  }

  lemma PhotoHasLastDot(d: Disk, p: Path)
    requires IsPhotoFile(d, p)
    ensures var name := Last(p); var k := LastDot(name);
      0 < k < |name| && name[k] == '.' && '.' !in name[k + 1..] && Lower(name[k + 1..]) in PhotoExtensions
  {
  }

  lemma LastDotIsOnlyDotAfter(name: Name, k: nat)
    requires k < |name| && name[k] == '.' && '.' !in name[k + 1..]
    ensures LastDot(name) == k
  {
    assert name == name[..k + 1] + name[k + 1..];
    LastDotSkips(name[..k + 1], name[k + 1..]);
  }

  /** A name without an extension is never a photo. */
  lemma NoExtensionNoPhoto(d: Disk, p: Path)
    requires |p| > 0 && Extension(Last(p)).None?
    ensures !IsPhotoFile(d, p)
  {
  }

  /** The '!' exemption: a photo whose stem contains '!' is never moved. */
  predicate IsExempt(name: Name)
    ensures IsExempt(name) ==> '!' in name
    ensures Extension(name).None? ==> (IsExempt(name) <==> '!' in name)
    ensures Extension(name).Some? ==> (IsExempt(name) <==> '!' in name[..|name| - |Extension(name).value| - 1])
  {
    '!' in Stem(name)
  }
}
