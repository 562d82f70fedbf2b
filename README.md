# GalleryBuilder in Dafny

This project models the core of `GalleryBuilder`, a tool that migrates an album of the old
PHP Gallery into HTML fragments for a JavaScript gallery viewer. The model covers three parts:

- **Caption recovery.** The old Gallery keeps its captions in `photos.dat*` files, which hold
  records in the layout of PHP's `serialize()`. The builder splits each file's text at the
  `AlbumItem` marker. In each section it reads the `"name"` and `"type"` values to rebuild the
  image file name, then reads the `"caption"` value by its length prefix. The results go into a
  caption map (`getSectionValue`, `getImageFileName`, `getCaption`, `stringSplit`,
  `getCaptionData`, `getCaptions`).
- **Image pairing.** The builder lists the image files with the `ImgFilter`, sorts them, and
  drops every `sized` and `highlight` variant. It then walks the rest two names at a time and
  keeps the pairs whose second name is a thumbnail (`getImageList`).
- **Paging.** One `<img>` line is written per pair. Every `photosPerPage` lines go to a page
  named `gallery_NN` (`buildGalleryHTML`, `getNewFile`'s file name).

Files:

- `wrappers.dfy`: `Option`, `Result` and the two Java exceptions the core can raise.
- `java_lang.dfy`: the `java.lang.String` and `Integer` operations the core relies on, with
  Java's own edge cases:
  - `indexOf` clamps its start index.
  - `substring` throws on bad bounds.
  - `split(":")` drops trailing empty strings.
  - `parseInt` throws `NumberFormatException`.
  - `compareTo` orders strings.
  - `%02d` formats page numbers.
  - 32-bit `int` addition wraps.
- `captions.dfy`: `getSectionValue`, `getImageFileName`, `getCaption` and `stringSplit`.
- `filters.dfy`: the two `FilenameFilter`s.
- `caption_index.dfy`: `getCaptionData` and `getCaptions`, with the `HashMap` as a class.
- `images.dfy`: `getImageList`.
- `html.dfy`: the paging loop of `buildGalleryHTML`.

An exception the core does not catch is not an I/O failure. It is a
`StringIndexOutOfBoundsException` from `substring` or a `NumberFormatException` from
`parseInt`. Such an exception ends the whole run. The model returns it as a value:

- `Result.Throw` from the string functions.
- The `thrown` part of `Merged` from the caption loops. `Merged` also keeps the entries put
  into the map before the throw.

The file system is an input:

- A directory listing is a sequence of names, or of `DirEntry` values that carry each file's
  text, or `None` when the file cannot be read.
- A written page is a `Page(number, name, lines)` value.

## Model

| member | source | states |
|---|---|---|
| Filters.AcceptPhotosDotDat | src/gallery/builder/GalleryBuilder.java:55-57 | `PhotosDotDatFilter.accept`: the name starts with `photos.dat`; PhotosDotDatNames and PhotosDotDatCaseSensitive state what that admits |
| Filters.PhotosDotDatNames | src/gallery/builder/GalleryBuilder.java:52-60 | a name is accepted exactly when it is `photos.dat` followed by anything, so `photos.dat`, `photos.dat.0`, … are all accepted |
| Filters.PhotosDotDatCaseSensitive | src/gallery/builder/GalleryBuilder.java:56 | the caption-file filter is case-sensitive: `Photos.dat…` is refused |
| Filters.AcceptImg | src/gallery/builder/GalleryBuilder.java:66-71 | `ImgFilter.accept`: the lower-cased name ends with `.jpg`, `jpeg` or `png`; AcceptImgIgnoresCase and AcceptImgBySuffix state what that admits |
| JavaLang.ToLowerCase | src/gallery/builder/GalleryBuilder.java:67 | `toLowerCase` (also at lines 276 and 288): the length is kept and each character is lowered on its own; ToLowerCaseAppend states that it distributes over concatenation |
| Filters.AcceptImgIgnoresCase | src/gallery/builder/GalleryBuilder.java:63-74 | two names that differ only in ASCII letter case are both accepted or both refused |
| Filters.AcceptImgBySuffix | src/gallery/builder/GalleryBuilder.java:66-71 | the image filter decides on the last four characters alone (`.jpg`, `jpeg`, `png`) |
| JavaLang.IndexOfFrom | src/gallery/builder/GalleryBuilder.java:85-87 | `indexOf(pat, from)` returns the first occurrence at or after the clamped start index, or -1 when there is none |
| JavaLang.CharNotFound | src/gallery/builder/GalleryBuilder.java:86-87 | searching for a character fails exactly when the string does not hold it; on success the prefix before the hit is free of it |
| JavaLang.Substring | src/gallery/builder/GalleryBuilder.java:88-90 | `substring(b, e)` succeeds exactly when `0 <= b <= e <= length`, returns `s[b..e]`, and otherwise throws `StringIndexOutOfBoundsException` |
| Captions.GetSectionValue | src/gallery/builder/GalleryBuilder.java:83-93 | getSectionValue as written: the quote search from just past the first `"sectionName"`, then the two substrings; SectionValueBetween, GetSectionValueThrows, GetSectionValueQuoted and SectionValueRoundTrip state its result |
| Captions.SectionValueBetween | src/gallery/builder/GalleryBuilder.java:83-93 | the value is the text strictly between the first two quotes after `"name"`; when either quote is missing, `substring` throws |
| Captions.GetSectionValueThrows | src/gallery/builder/GalleryBuilder.java:86-88 | getSectionValue succeeds exactly when two quotes follow the search start, and every failure is `StringIndexOutOfBoundsException` |
| Captions.GetSectionValueQuoted | src/gallery/builder/GalleryBuilder.java:86-91 | a returned value is a quoted value after the section name, with no quote before it and none inside it |
| Captions.SectionValueOfLayout | src/gallery/builder/GalleryBuilder.java:83-93 | the first quoted value after the search start is the one returned (the converse of GetSectionValueQuoted) |
| Captions.QuotedValueUnique | src/gallery/builder/GalleryBuilder.java:86-87 | at most one quoted value is the first one after a given start |
| Captions.SectionValueRoundTrip | src/gallery/builder/GalleryBuilder.java:83-93 | reading back a quote-free string `v` serialized as `s:N:"v"` (`N` counted in characters) written after the first `"name"` gives `v`; a quote inside `v` would end the value there, as the closing-quote search of line 87 finds it first |
| Captions.GetImageFileName | src/gallery/builder/GalleryBuilder.java:108-113 | the file name is the `name` value, a dot and the `type` value; it throws exactly when either lookup throws |
| Captions.GetCaption | src/gallery/builder/GalleryBuilder.java:123-127 | without a `"caption"` tag after index 0 the caption is empty |
| Captions.GetCaptionCases | src/gallery/builder/GalleryBuilder.java:123-141 | every path of getCaption: fewer than three parts gives the empty caption; a length that does not parse throws `NumberFormatException`; a third part no longer than the length gives the empty caption; a length `n` below it gives the `n` characters after the opening quote; a negative length throws `StringIndexOutOfBoundsException` |
| Captions.CaptionFromLayout | src/gallery/builder/GalleryBuilder.java:128-136 | a tag followed by `a:len:"v…` with colon-free `a` and `v` and `len` parsing to `|v|` gives caption `v` |
| Captions.CaptionTooShort | src/gallery/builder/GalleryBuilder.java:134 | a third part not longer than the declared length gives the empty caption |
| Captions.CaptionRoundTrip | src/gallery/builder/GalleryBuilder.java:123-141 | reading back a colon-free caption serialized as `"caption";s:N:"v"` (`N` counted in characters) gives `v` |
| Captions.CaptionWithColonIsDropped | src/gallery/builder/GalleryBuilder.java:129-135 | a serialized caption that holds a colon is cut at the colon by `split(":")` and is lost: the result is the empty caption |
| JavaLang.Split | src/gallery/builder/GalleryBuilder.java:129 | `split(":")`: the colon-separated fields with trailing empty strings dropped, or the whole string when it holds no colon; SplitFree, SplitKeeps and SplitThree state its result |
| JavaLang.SplitFree | src/gallery/builder/GalleryBuilder.java:129 | no part that `split(":")` returns holds a colon |
| JavaLang.SplitKeeps | src/gallery/builder/GalleryBuilder.java:129 | `split` keeps every field up to the last non-empty one unchanged (only trailing empty strings are dropped) |
| JavaLang.SplitThree | src/gallery/builder/GalleryBuilder.java:129-130 | `a:b:tail` with colon-free `a`, `b` splits into at least three parts `a`, `b` and the first field of `tail` |
| JavaLang.FieldsJoin | src/gallery/builder/GalleryBuilder.java:129 | joining the colon-separated fields again with colons gives back the string, and no field holds a colon |
| JavaLang.ParseInt | src/gallery/builder/GalleryBuilder.java:133 | a parsed value lies in the 32-bit `int` range; every failure is `NumberFormatException` |
| JavaLang.ParseIntDecimalString | src/gallery/builder/GalleryBuilder.java:133 | parsing the decimal text of any `n <= Integer.MAX_VALUE` gives `n` back |
| JavaLang.AddInt32 | src/gallery/builder/GalleryBuilder.java:135 | `capLen+1` is 32-bit addition: exact inside the `int` range, wrapping past `Integer.MAX_VALUE` |
| Captions.StringSplit | src/gallery/builder/GalleryBuilder.java:155-171 | the loop produces exactly the segments the specification function `SplitSpec` describes, with `toArray(new String[1])` giving a one-element array holding null when the list is empty |
| Captions.SplitSpecShape | src/gallery/builder/GalleryBuilder.java:155-171 | with the separator absent or only at index 0 the result is `[null]`; otherwise every segment is non-empty, starts with the separator, holds no occurrence of it starting at offset `|sep|` or later, and the segments concatenate to the text from the first separator on |
| Captions.SegmentsShape | src/gallery/builder/GalleryBuilder.java:160-168 | the segments produced from a separator position concatenate to the rest of the string; each starts with the separator, and no occurrence of it starts at offset `|sep|` or later within the segment |
| Captions.SegmentsStep | src/gallery/builder/GalleryBuilder.java:161-167 | one round of the loop takes `str[startIx..endIx]`, where `endIx` is the next separator or the end of the string, and strictly advances |
| JavaLang.ReplaceAll | src/gallery/builder/GalleryBuilder.java:188 | `replaceAll` with a literal target: every leftmost, non-overlapping occurrence replaced; ReplaceAllReplaces states that each occurrence is replaced, ReplaceAllKeepsOutside that every other character is kept |
| JavaLang.ReplaceAllReplaces | src/gallery/builder/GalleryBuilder.java:188 | with a replacement as long as the target and a target whose first character appears nowhere else in it, every occurrence of the target, wherever it stands, holds the replacement afterwards |
| CaptionIndex.ReplaceAllReplacesMarker | src/gallery/builder/GalleryBuilder.java:186-188 | every `AlbumItem` in a `photos.dat` text, the second and later ones included, reads `albumitem` after the normalization, at the same index |
| JavaLang.ReplaceAllChangesCaseOnly | src/gallery/builder/GalleryBuilder.java:186-188 | replacing `AlbumItem` by `albumitem` keeps the length and the lower-cased text |
| JavaLang.ReplaceAllLength | src/gallery/builder/GalleryBuilder.java:188 | a replacement as long as the target keeps the length of the text |
| JavaLang.ReplaceAllKeepsOutside | src/gallery/builder/GalleryBuilder.java:186-188 | with a replacement as long as the target, every character no occurrence of the target covers is unchanged at its own index, so the captions between markers are untouched |
| JavaLang.ReplaceAllAbsent | src/gallery/builder/GalleryBuilder.java:188 | text without the target is returned unchanged |
| JavaLang.ReplaceAllKeepsPrefix | src/gallery/builder/GalleryBuilder.java:188 | the text before the first occurrence of the target is unchanged |
| CaptionIndex.MergeSections | src/gallery/builder/GalleryBuilder.java:190-198 | the section loop as a fold: each section's entry is put in turn and the first exception ends it; MergeLastWins, MergeKeepsUnnamed, MergeKeepsKeys and MergeStopsAtThrow state its result |
| CaptionIndex.CaptionData | src/gallery/builder/GalleryBuilder.java:185-199 | getCaptionData on a file's text: nothing for empty text, otherwise normalize the marker, split and run the section loop; CaptionDataRoundTrip and CaptionDataMarkerAtStart state its result |
| CaptionIndex.SectionEntry | src/gallery/builder/GalleryBuilder.java:191-196 | one section puts an entry only when its caption is non-empty |
| CaptionIndex.SectionEntryRoundTrip | src/gallery/builder/GalleryBuilder.java:191-196 | a section holding serialized `"name"`, `"type"` and `"caption"` fields, each after the first occurrence of its tag, with quote-free name and type and a non-empty colon-free caption, yields the entry `name.type` ↦ caption |
| CaptionIndex.NormalizeOneMarker | src/gallery/builder/GalleryBuilder.java:188 | text with one `AlbumItem` and no `albumitem` comes out of the normalization with the marker lower-cased and nothing else changed |
| CaptionIndex.SplitOneMarker | src/gallery/builder/GalleryBuilder.java:189 | stringSplit of such text after a non-empty preamble yields exactly one section, from the marker to the end |
| CaptionIndex.CaptionDataOneItem | src/gallery/builder/GalleryBuilder.java:185-198 | a file with a non-empty preamble and one item puts that item's entry into the map and throws nothing |
| CaptionIndex.CaptionDataRoundTrip | src/gallery/builder/GalleryBuilder.java:178-199 | a file holding a preamble, `AlbumItem` and one well-formed item maps `name.type` to the caption, keeps every other key, and throws nothing |
| CaptionIndex.CaptionMap.Put | src/gallery/builder/GalleryBuilder.java:195 | `HashMap.put` maps the key to the value and leaves every other key alone |
| CaptionIndex.GetCaptionData | src/gallery/builder/GalleryBuilder.java:178-210 | the map after the method, and the exception that escapes it if any, are those of the section-loop specification `CaptionData` applied to the map before |
| CaptionIndex.MergeLastWins | src/gallery/builder/GalleryBuilder.java:190-198 | the last section that names a file decides its caption |
| CaptionIndex.MergeKeepsUnnamed | src/gallery/builder/GalleryBuilder.java:190-198 | a key no section names keeps its presence and value |
| CaptionIndex.MergeKeepsKeys | src/gallery/builder/GalleryBuilder.java:190-198 | the loop only puts, so no key is ever removed |
| CaptionIndex.MergeStopsAtThrow | src/gallery/builder/GalleryBuilder.java:190-198 | the first section that throws ends the loop; the sections before it have been merged and the exception escapes |
| CaptionIndex.CaptionDataMarkerAtStart | src/gallery/builder/GalleryBuilder.java:185-189 | a file whose text starts with the entry marker, in either spelling, adds nothing, because stringSplit only splits from a marker found after index 0 |
| CaptionIndex.NormalizedMarkerAtStart | src/gallery/builder/GalleryBuilder.java:188 | after normalization a text that started with either spelling of the marker starts with `albumitem` |
| CaptionIndex.PhotosDotDatFiles | src/gallery/builder/GalleryBuilder.java:250 | the files read are exactly the listed files that the `photos.dat` filter accepts |
| CaptionIndex.GetCaptions | src/gallery/builder/GalleryBuilder.java:248-259 | the returned map, and the exception that ended the run if any, are those of `CaptionsSpec`: getCaptionData applied to each accepted file in listing order |
| CaptionIndex.MergeFiles | src/gallery/builder/GalleryBuilder.java:252-254 | the file loop as a fold: getCaptionData on each file's text in turn, an unreadable file skipped, the first exception ending the run; MergeFilesSkipsUnreadable and GetCaptions state its result |
| CaptionIndex.MergeFilesSkipsUnreadable | src/gallery/builder/GalleryBuilder.java:200-203 | a file that cannot be read is reported and skipped: removing it from the listing changes nothing |
| JavaLang.LessEqTotal | src/gallery/builder/GalleryBuilder.java:272 | `compareTo` order is total |
| JavaLang.LessEqAntisymmetric | src/gallery/builder/GalleryBuilder.java:272 | `compareTo` order is antisymmetric |
| JavaLang.LessEqTransitive | src/gallery/builder/GalleryBuilder.java:272 | `compareTo` order is transitive |
| Images.SortedNames | src/gallery/builder/GalleryBuilder.java:272 | `Arrays.sort` of the names; SortedNamesSortedPermutation and SortedUnique state its result |
| Images.SortedNamesSortedPermutation | src/gallery/builder/GalleryBuilder.java:272 | `Arrays.sort` leaves the names sorted and a permutation of the listing |
| Images.SortedUnique | src/gallery/builder/GalleryBuilder.java:272 | there is only one sorted permutation of the names, so the sorting algorithm does not matter |
| Images.ImageFiles | src/gallery/builder/GalleryBuilder.java:271 | the listed names are exactly the directory's names that the image filter accepts |
| Images.WeedOut | src/gallery/builder/GalleryBuilder.java:274-279 | the kept names are exactly those whose lower-cased form holds neither `sized` nor `highlight` |
| Images.WeedOutNames | src/gallery/builder/GalleryBuilder.java:274-279 | the weeding loop computes `WeedOut` of the sorted names |
| Images.IsThumb | src/gallery/builder/GalleryBuilder.java:288 | the right name is a thumbnail when its lower-cased form holds `thumb` at an index above 0; ImageListPairs states that every pair passes it |
| Images.PairUp | src/gallery/builder/GalleryBuilder.java:281-295 | the pairing loop as a function: two names at a time, the pair kept when the second is a thumbnail; PairUpIsKeepThumbs states its result |
| Images.PairNames | src/gallery/builder/GalleryBuilder.java:281-295 | the pairing loop computes `PairUp` of the weeded names |
| Images.PairUpIsKeepThumbs | src/gallery/builder/GalleryBuilder.java:281-295 | pairing is: cut the names into consecutive pairs (an odd last name is dropped), then keep the pairs whose right name is a thumbnail; there are at most half as many pairs as names |
| Images.GetImageList | src/gallery/builder/GalleryBuilder.java:269-297 | the image list is `ImageListSpec`: filter, sort, weed out, pair |
| Images.ImageListPairs | src/gallery/builder/GalleryBuilder.java:269-297 | every pair consists of two listed, accepted, non-`sized`, non-`highlight` names, and the right one holds `thumb` after its first character |
| Images.ImageListIgnoresListingOrder | src/gallery/builder/GalleryBuilder.java:271-272 | the image list does not depend on the order in which the directory is listed |
| JavaLang.Format02d | src/gallery/builder/GalleryBuilder.java:302 | `%02d` gives decimal digits whose value is the page number: exactly two for a number below 100 (with a leading zero below 10), and no padding zero beyond two digits |
| Html.PageName | src/gallery/builder/GalleryBuilder.java:302 | `String.format("%s_%02d", "gallery", pageCnt)`; PageNameInjective and Format02d state its result |
| Html.PageNameInjective | src/gallery/builder/GalleryBuilder.java:302 | different page numbers give different file names |
| Html.Pages | src/gallery/builder/GalleryBuilder.java:327-351 | the lines spread over pages of `photosPerPage` lines numbered from 1; there are pages exactly when there are lines, and PagesFlatten, PagesNumbered, PagesFull, PagesCount and PagesUnlimited state the rest |
| Html.BuildGalleryHTML | src/gallery/builder/GalleryBuilder.java:323-360 | the pages written are exactly `Pages` of the image lines, numbered from 1 |
| Html.PagesFlatten | src/gallery/builder/GalleryBuilder.java:331-352 | every line lands on exactly one page, in order: the pages concatenate to the lines |
| Html.PagesNumbered | src/gallery/builder/GalleryBuilder.java:332-335 | page `k` (counting from 0) is number `k + 1` and is named `gallery_` followed by that number in `%02d` |
| Html.PagesFull | src/gallery/builder/GalleryBuilder.java:344-351 | with a positive page size every page but the last holds exactly `photosPerPage` lines, and the last holds between 1 and `photosPerPage` |
| Html.PagesCount | src/gallery/builder/GalleryBuilder.java:327-351 | with a positive page size the number of pages is the ceiling of the number of images divided by the page size |
| Html.PagesUnlimited | src/gallery/builder/GalleryBuilder.java:344-345 | with a page size of 0 or less no page is closed, so all lines go to one page |
| Html.PagesSnoc | src/gallery/builder/GalleryBuilder.java:331-352 | paging one more line either opens a new page or appends to the open one |
| Html.Get | src/gallery/builder/GalleryBuilder.java:337 | `HashMap.get`: the mapped caption, or null for a key the map does not hold; ImgTag states how a missing or empty caption is written |
| Html.ImgTag | src/gallery/builder/GalleryBuilder.java:337-342 | the line for one pair: `src` the thumbnail, `data-big` the image, and `data-description` only when the map holds a non-empty caption for the image |
| Html.Lines | src/gallery/builder/GalleryBuilder.java:336-343 | one `<img>` line per pair |

## Left out

- The command line (`main`, `application`, `usage`) is not modelled. The model starts from a
  directory listing and a caption map, not from a path argument.
- File reading is not modelled, and neither is its character set. A `photos.dat` file is given
  with its text, or as `None` when it cannot be opened or read.
- Writing the page files is not modelled. A page is the list of lines printed to it, so the
  `<img>` text is modelled but not the `PrintStream`.
- The `IOException` that `getNewFile` can raise is not modelled. The page structure models a
  run in which every page file opens.
- Console diagnostics (`System.out.println`) are not modelled: the missing-thumbnail notice, the
  no-`photos.dat` notice and the I/O error notices.
- The directory listing order is an input. `Images.ImageListIgnoresListingOrder` shows that the
  image list does not depend on it. The caption map does depend on file order, through the last
  put.
- `HashMap` iteration order is not modelled. The map is a Dafny `map`.
- The regular-expression engine is not modelled. `replaceAll("AlbumItem", …)` and `split(":")`
  are called with patterns that hold no metacharacter, so they are modelled as literal replace
  and split.
- JavaLang.ReplaceAll: requires a non-empty target. The one call has the 9-character target
  `AlbumItem`.
- JavaLang.ToLowerCase: lowers only ASCII letters. It does not model locale-dependent or
  non-ASCII case mapping.
- JavaLang.Format02d: writes ASCII digits. `String.format` uses the default locale, which can
  write other digits; this is not modelled.
- JavaLang.ParseInt: accepts an optional sign followed by ASCII digits only. It does not model
  non-ASCII Unicode digits.
- JavaLang.LessEq: compares strings character by character as `compareTo` does. Characters are
  Dafny `char` values rather than UTF-16 code units.
- JavaLang.Substring: counts Unicode scalar values (Dafny `char`), while Java's `length` and
  `substring` count UTF-16 code units. They agree on text inside the Basic Multilingual Plane.
  For a caption with a character outside it, Java cuts at a different place.
- Captions.GetCaption: inherits the same unit from `JavaLang.Substring`. Its declared length
  and its cut are counted in `char` values, not in UTF-16 code units.
- Captions.SerializedString: counts the declared length `N` of `s:N:"v"` in characters. PHP
  counts bytes, so the two agree on single-byte text only. The caption round trips
  (`Captions.CaptionRoundTrip`, `CaptionIndex.SectionEntryRoundTrip`,
  `CaptionIndex.CaptionDataRoundTrip`) therefore describe PHP output only for such text.
- Images.SortedNames: is an insertion sort, not `Arrays.sort`'s algorithm.
  `Images.SortedUnique` shows that any sort gives the same result.
- Captions.GetCaptionCases: the case with a positive length states its result only for
  `n < Integer.MAX_VALUE`. With `n == Integer.MAX_VALUE` the third part would need more than
  `Integer.MAX_VALUE` characters, which a Java string cannot hold.
- Html.BuildGalleryHTML: `pageCnt` and `imageCnt` are unbounded integers. More than
  `Integer.MAX_VALUE` images would wrap the Java counters; this is not modelled.
- Html.Lines: states only the number of lines. The text of each line is given by `Html.ImgTag`:
  with `data-description` only when the map holds a non-empty caption for the image.

Behaviour of the code worth knowing, which the model keeps:

- **A malformed section is not skipped.** A section without the two quotes that
  `getSectionValue` expects makes `substring` throw `StringIndexOutOfBoundsException`. A
  non-numeric length makes `parseInt` throw `NumberFormatException`. `getCaptionData` catches
  only I/O exceptions, so either exception ends the run. The model returns it in `Merged.thrown`.
- **A name that starts with `thumb` is not a thumbnail.** The test is `indexOf("thumb") > 0`.
  `Images.IsThumb` follows it.
- **A failed pair uses up both names.** When the second name is not a thumbnail, pairing goes
  on with the two names after it. `Images.PairUp` follows this.
