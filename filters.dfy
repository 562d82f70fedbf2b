/**
 * The two file-name filters of the gallery builder: one picks the old Gallery's caption
 * files (`photos.dat`, `photos.dat.0`, ...), the other picks image files by extension.
 */
module Filters {
  import opened JavaLang

  const PHOTOS_DOT_DAT := "photos.dat"

  /** PhotosDotDatFilter.accept: the name starts with `photos.dat`. */
  predicate AcceptPhotosDotDat(name: string)
  {
    StartsWith(name, PHOTOS_DOT_DAT)
  }

  /** Accepted names are exactly `photos.dat` followed by anything. */
  lemma PhotosDotDatNames(name: string, rest: string)
    ensures AcceptPhotosDotDat(name) <==> |name| >= |PHOTOS_DOT_DAT| && name == PHOTOS_DOT_DAT + name[|PHOTOS_DOT_DAT|..]
    ensures AcceptPhotosDotDat(PHOTOS_DOT_DAT + rest)
  {
    assert (PHOTOS_DOT_DAT + rest)[..|PHOTOS_DOT_DAT|] == PHOTOS_DOT_DAT;
    if |name| >= |PHOTOS_DOT_DAT| {
      assert name == name[..|PHOTOS_DOT_DAT|] + name[|PHOTOS_DOT_DAT|..];
    }
  }

  /** The filter is case-sensitive: a name starting with `Photos.dat` is refused. */
  lemma PhotosDotDatCaseSensitive(rest: string)
    ensures !AcceptPhotosDotDat("Photos.dat" + rest)
  {
    assert ("Photos.dat" + rest)[0] == 'P';
  }

  /** ImgFilter.accept: the lower-cased name ends with `.jpg`, `jpeg` or `png` (the last two need no dot). */
  predicate AcceptImg(name: string)
  {
    var lower := ToLowerCase(name);
    EndsWith(lower, ".jpg") || EndsWith(lower, "jpeg") || EndsWith(lower, "png")
  }

  /** Two names that differ only in the case of ASCII letters are both accepted or both refused. */
  lemma AcceptImgIgnoresCase(a: string, b: string)
    requires ToLowerCase(a) == ToLowerCase(b)
    ensures AcceptImg(a) <==> AcceptImg(b)
  {
  }

  /** The filter decides on the last characters alone. */
  lemma {:induction false} AcceptImgBySuffix(root: string, ext: string)
    requires |ext| >= 4
    ensures AcceptImg(root + ext) <==> AcceptImg(ext)
  {
    ToLowerCaseAppend(root, ext);
    var lower := ToLowerCase(root + ext);
    var tail := ToLowerCase(ext);
    assert lower[|lower| - 4..] == tail[|tail| - 4..];
    assert lower[|lower| - 3..] == tail[|tail| - 3..];
  }
}
