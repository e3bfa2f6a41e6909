/**
 * Names of stored images.  An uploaded file is always stored under its
 * original name with the extension replaced by ".jpg": everything from the
 * last '.' on is dropped (nothing is dropped when the name has no '.'), and
 * ".jpg" is appended.  The gallery shows only directory entries whose name
 * ends in ".jpg", compared case-sensitively.
 */
module FileNames {
  import opened Wrappers

  const JpegSuffix: string := ".jpg"

  /** `s` ends with `suffix` (a case-sensitive, exact comparison). */
  predicate EndsWith(s: string, suffix: string)
    ensures EndsWith(s, suffix) <==>
      |suffix| <= |s| && forall i :: 0 <= i < |suffix| ==> s[|s| - |suffix| + i] == suffix[i]
  {
    |suffix| <= |s| && s[|s| - |suffix|..] == suffix
  }

  /** The name of a stored image file: its last four characters are ".jpg". */
  predicate IsJpegName(name: string) {
    EndsWith(name, JpegSuffix)
  }

  /** A stored image name is one whose last four characters are '.', 'j', 'p', 'g'. */
  lemma IsJpegNameByCharacters(name: string)
    ensures IsJpegName(name) <==>
      var n := |name|;
      n >= 4 && name[n - 4] == '.' && name[n - 3] == 'j' && name[n - 2] == 'p' && name[n - 1] == 'g'
  {
    if |name| >= 4 {
      var n := |name|;
      assert name[n - 4..] == [name[n - 4], name[n - 3], name[n - 2], name[n - 1]];
    }
  }

  /** The position of the last '.' in `s`, if there is one. */
  function LastDot(s: string): (r: Option<nat>)
    ensures r.Some? ==> r.value < |s| && s[r.value] == '.'
    ensures r.Some? ==> forall j :: r.value < j < |s| ==> s[j] != '.'
    ensures r.None? <==> '.' !in s
  {
    if s == [] then None
    else if s[|s| - 1] == '.' then Some(|s| - 1)
    else
      var r := LastDot(s[..|s| - 1]);
      assert s == s[..|s| - 1] + [s[|s| - 1]];
      r
  }

  /**
   * The part of `name` before its last '.', or all of `name` when it has
   * no '.': the first piece of a right split at most once on '.'.
   */
  function Stem(name: string): (r: string)
    ensures r <= name
    ensures '.' !in name ==> r == name
    ensures '.' in name ==> |r| < |name| && name[|r|] == '.' && '.' !in name[|r| + 1..]
  {
    match LastDot(name)
    case None => name
    case Some(i) => name[..i]
  }

  /** The name an upload called `name` is stored under. */
  function Normalize(name: string): (r: string)
    ensures IsJpegName(r)
    ensures r[..|r| - |JpegSuffix|] <= name
    ensures '.' !in name ==> r == name + JpegSuffix
    ensures '.' in name ==>
      var k := |r| - |JpegSuffix|;
      k < |name| && name[k] == '.' && '.' !in name[k + 1..] && r == name[..k] + JpegSuffix
  {
    var stem := Stem(name);
    var r := stem + JpegSuffix;
    assert r[..|r| - |JpegSuffix|] == stem;
    r
  }

  /** A name that already ends in ".jpg" is stored under that same name. */
  lemma NormalizeKeepsJpegName(name: string)
    requires IsJpegName(name)
    ensures Normalize(name) == name
  {
    var k := |name| - |JpegSuffix|;
    assert name[k] == '.';
    assert name[k + 1..] == "jpg";
    assert LastDot(name) == Some(k);
    assert name[..k] + JpegSuffix == name;
  }

  /** Normalising a stored name again changes nothing. */
  lemma NormalizeIdempotent(name: string)
    ensures Normalize(Normalize(name)) == Normalize(name)
  {
    NormalizeKeepsJpegName(Normalize(name));
  }

  /** Two uploads whose names differ only after their last '.' share a stored name. */
  lemma NormalizeIgnoresExtension(stem: string, ext1: string, ext2: string)
    requires '.' !in ext1 && '.' !in ext2
    ensures Normalize(stem + "." + ext1) == Normalize(stem + "." + ext2) == stem + JpegSuffix
  {
    NormalizeOfExtension(stem, ext1);
    NormalizeOfExtension(stem, ext2);
  }

  lemma NormalizeOfExtension(stem: string, ext: string)
    requires '.' !in ext
    ensures Normalize(stem + "." + ext) == stem + JpegSuffix
  {
    var name := stem + "." + ext;
    var k := |stem|;
    assert name[k] == '.';
    assert name[k + 1..] == ext;
    assert LastDot(name) == Some(k);
    assert name[..k] == stem;
  }

  /** "shirt.png" is stored as "shirt.jpg". */
  lemma NormalizeShirt()
    ensures Normalize("shirt.png") == "shirt.jpg"
  {
    NormalizeOfExtension("shirt", "png");
    assert "shirt" + "." + "png" == "shirt.png";
    assert "shirt" + JpegSuffix == "shirt.jpg";
  }

  /** A name without a '.' keeps all of it: "README" is stored as "README.jpg". */
  lemma NormalizeReadme()
    ensures Normalize("README") == "README.jpg"
  {
    assert '.' !in "README";
  }
}
