/**
 * The caption index: the map from image file name to caption that the gallery builder
 * assembles from every `photos.dat*` file of an album directory.
 */
module CaptionIndex {
  import opened Wrappers
  import opened JavaLang
  import opened Captions
  import opened Filters

  /** A directory entry: its name and, when the file can be read, its text. */
  datatype DirEntry = DirEntry(name: string, contents: Option<string>)

  /** One image's caption, as one section of a `photos.dat` file yields it. */
  datatype CaptionEntry = CaptionEntry(imageFileName: string, caption: string)

  /** The caption map after a run, and the exception that ended the run early, if any. */
  datatype Merged = Merged(entries: map<string, string>, thrown: Option<JavaException>)

  /** The `HashMap<String, String>` that getCaptionData fills in. */
  class CaptionMap {
    var entries: map<string, string>

    constructor()
      ensures entries == map[]
    {
      entries := map[];
    }

    /** `HashMap.put`: `key` now maps to `value`; every other key keeps its value. */
    method Put(key: string, value: string)
      modifies this
      ensures entries == old(entries)[key := value]
    {
      entries := entries[key := value];
    }
  }

  /**
   * One pass of getCaptionData's section loop: a null or empty section is skipped; otherwise the
   * file name is read first and the caption second (either may throw), and only a non-empty caption
   * makes an entry.
   */
  function SectionEntry(metaDataSec: Option<string>): (r: Result<Option<CaptionEntry>>)
    ensures r.Ok? && r.value.Some? ==> r.value.value.caption != []
  {
    match metaDataSec
    case None => Ok(None)
    case Some(sec) =>
      if |sec| == 0 then Ok(None)
      else
        match GetImageFileName(sec)
        case Throw(e) => Throw(e)
        case Ok(imageFileName) =>
          match GetCaption(sec)
          case Throw(e) => Throw(e)
          case Ok(caption) => if |caption| > 0 then Ok(Some(CaptionEntry(imageFileName, caption))) else Ok(None)
  }

  /** The section at hand puts a caption under `key`. */
  predicate Names(metaDataSec: Option<string>, key: string)
  {
    var r := SectionEntry(metaDataSec);
    r.Ok? && r.value.Some? && r.value.value.imageFileName == key
  }

  /** The section loop over `secs`, starting from the map `m`; the first exception ends it. */
  function MergeSections(m: map<string, string>, secs: seq<Option<string>>): Merged
    decreases |secs|
  {
    if secs == [] then Merged(m, None)
    else
      match SectionEntry(secs[0])
      case Throw(e) => Merged(m, Some(e))
      case Ok(entry) => MergeSections(PutEntry(m, entry), secs[1..])
  }

  /** The map after a section's entry, if any, is put into it. */
  function PutEntry(m: map<string, string>, entry: Option<CaptionEntry>): map<string, string>
  {
    match entry
    case None => m
    case Some(e) => m[e.imageFileName := e.caption]
  }

  /** What getCaptionData does to the map with the text of one file. */
  function CaptionData(m: map<string, string>, metaData: string): Merged
  {
    if |metaData| > 0 then
      var normalized := ReplaceAll(metaData, ENTRY_START_CAPITALIZED, ENTRY_START);
      MergeSections(m, SplitSpec(normalized, ENTRY_START))
    else Merged(m, None)
  }

  /** The files getCaptions reads, in listing order. */
  function PhotosDotDatFiles(dir: seq<DirEntry>): (files: seq<DirEntry>)
    ensures forall f :: f in files ==> f in dir && AcceptPhotosDotDat(f.name)
    ensures forall f :: f in dir && AcceptPhotosDotDat(f.name) ==> f in files
  {
    if dir == [] then []
    else (if AcceptPhotosDotDat(dir[0].name) then [dir[0]] else []) + PhotosDotDatFiles(dir[1..])
  }

  /** getCaptionData applied to each file in turn; an unreadable file is reported and skipped. */
  function MergeFiles(m: map<string, string>, files: seq<DirEntry>): Merged
    decreases |files|
  {
    if files == [] then Merged(m, None)
    else
      match files[0].contents
      case None => MergeFiles(m, files[1..])
      case Some(metaData) =>
        var r := CaptionData(m, metaData);
        if r.thrown.Some? then r else MergeFiles(r.entries, files[1..])
  }

  /** The caption index getCaptions returns for a directory listing. */
  function CaptionsSpec(dir: seq<DirEntry>): Merged
  {
    MergeFiles(map[], PhotosDotDatFiles(dir))
  }

  /**
   * getCaptionData: normalizes the entry marker, splits the text into sections and puts each
   * section's non-empty caption under its image file name.
   */
  method GetCaptionData(metaData: string, captionMap: CaptionMap) returns (thrown: Option<JavaException>)
    modifies captionMap
    ensures Merged(captionMap.entries, thrown) == CaptionData(old(captionMap.entries), metaData)
  {
    thrown := None;
    if |metaData| > 0 {
      var normalized := ReplaceAll(metaData, ENTRY_START_CAPITALIZED, ENTRY_START);
      var metaDataStrs := StringSplit(normalized, ENTRY_START);
      for i := 0 to |metaDataStrs|
        invariant MergeSections(captionMap.entries, metaDataStrs[i..]) == MergeSections(old(captionMap.entries), metaDataStrs)
      {
        assert metaDataStrs[i..][1..] == metaDataStrs[i + 1..];
        var metaDataSec := metaDataStrs[i];
        if metaDataSec.Some? && |metaDataSec.value| > 0 {
          var imageFileName := GetImageFileName(metaDataSec.value);
          if imageFileName.Throw? {
            return Some(imageFileName.exception);
          }
          var caption := GetCaption(metaDataSec.value);
          if caption.Throw? {
            return Some(caption.exception);
          }
          if |caption.value| > 0 {
            captionMap.Put(imageFileName.value, caption.value);
          }
        }
      }
    }
  }

  /** getCaptions: the caption map built from every readable `photos.dat*` file of the directory. */
  method GetCaptions(dir: seq<DirEntry>) returns (captionMap: CaptionMap, thrown: Option<JavaException>)
    ensures fresh(captionMap)
    ensures Merged(captionMap.entries, thrown) == CaptionsSpec(dir)
  {
    captionMap := new CaptionMap();
    var metaDataVec := PhotosDotDatFiles(dir);
    thrown := None;
    for i := 0 to |metaDataVec|
      invariant thrown == None
      invariant MergeFiles(captionMap.entries, metaDataVec[i..]) == CaptionsSpec(dir)
    {
      assert metaDataVec[i..][1..] == metaDataVec[i + 1..];
      match metaDataVec[i].contents
      case None =>
      case Some(metaData) =>
        ghost var before := captionMap.entries;
        thrown := GetCaptionData(metaData, captionMap);
        assert MergeFiles(before, metaDataVec[i..]) == if thrown.Some? then Merged(captionMap.entries, thrown)
          else MergeFiles(captionMap.entries, metaDataVec[i + 1..]);
        if thrown.Some? {
          return;
        }
    }
  }

  // ---------------------------------------------------------------- properties of the section loop

  /** A key no section names keeps its presence and its value. */
  lemma {:induction false} MergeKeepsUnnamed(m: map<string, string>, secs: seq<Option<string>>, key: string)
    requires forall i :: 0 <= i < |secs| ==> !Names(secs[i], key)
    ensures var r := MergeSections(m, secs);
      && (key in r.entries <==> key in m)
      && (key in m ==> r.entries[key] == m[key])
    decreases |secs|
  {
    if secs != [] {
      assert !Names(secs[0], key);
      var r := SectionEntry(secs[0]);
      if r.Ok? {
        MergeKeepsUnnamed(PutEntry(m, r.value), secs[1..], key);
      }
    }
  }

  /** The section loop only puts: no key already in the map is removed. */
  lemma {:induction false} MergeKeepsKeys(m: map<string, string>, secs: seq<Option<string>>)
    ensures m.Keys <= MergeSections(m, secs).entries.Keys
    decreases |secs|
  {
    if secs != [] {
      var r := SectionEntry(secs[0]);
      if r.Ok? {
        MergeKeepsKeys(PutEntry(m, r.value), secs[1..]);
      }
    }
  }

  /**
   * The last section that names a file decides its caption: when no earlier section throws and no
   * later section names the same file, the map holds that section's caption.
   */
  lemma {:induction false} MergeLastWins(m: map<string, string>, secs: seq<Option<string>>, i: nat, entry: CaptionEntry)
    requires i < |secs| && SectionEntry(secs[i]) == Ok(Some(entry))
    requires forall j :: 0 <= j < i ==> SectionEntry(secs[j]).Ok?
    requires forall j :: i < j < |secs| ==> !Names(secs[j], entry.imageFileName)
    ensures var r := MergeSections(m, secs);
      entry.imageFileName in r.entries && r.entries[entry.imageFileName] == entry.caption
    decreases |secs|
  {
    if i == 0 {
      var m' := PutEntry(m, Some(entry));
      forall j | 0 <= j < |secs[1..]|
        ensures !Names(secs[1..][j], entry.imageFileName)
      {
        assert secs[1..][j] == secs[j + 1];
      }
      MergeKeepsUnnamed(m', secs[1..], entry.imageFileName);
    } else {
      assert SectionEntry(secs[0]).Ok?;
      var m' := PutEntry(m, SectionEntry(secs[0]).value);
      assert MergeSections(m, secs) == MergeSections(m', secs[1..]);
      var tail := secs[1..];
      assert tail[i - 1] == secs[i];
      forall j | 0 <= j < i - 1
        ensures SectionEntry(tail[j]).Ok?
      {
        assert tail[j] == secs[j + 1];
      }
      forall j | i - 1 < j < |tail|
        ensures !Names(tail[j], entry.imageFileName)
      {
        assert tail[j] == secs[j + 1];
      }
      MergeLastWins(m', tail, i - 1, entry);
    }
  }

  /** The first section that throws ends the loop: the sections before it are merged and the exception is reported. */
  lemma {:induction false} MergeStopsAtThrow(m: map<string, string>, secs: seq<Option<string>>, i: nat)
    requires i < |secs| && SectionEntry(secs[i]).Throw?
    requires forall j :: 0 <= j < i ==> SectionEntry(secs[j]).Ok?
    ensures MergeSections(m, secs) == Merged(MergeSections(m, secs[..i]).entries, Some(SectionEntry(secs[i]).exception))
    ensures MergeSections(m, secs[..i]).thrown == None
    decreases |secs|
  {
    if i > 0 {
      assert SectionEntry(secs[0]).Ok?;
      var m' := PutEntry(m, SectionEntry(secs[0]).value);
      assert secs[..i][1..] == secs[1..][..i - 1];
      assert MergeSections(m, secs[..i]) == MergeSections(m', secs[1..][..i - 1]);
      MergeStopsAtThrow(m', secs[1..], i - 1);
    }
  }

  /**
   * A file whose text starts with the entry marker (in either spelling) contributes nothing: the
   * marker is then found at index 0, and stringSplit only splits from a marker at an index above 0.
   */
  lemma CaptionDataMarkerAtStart(m: map<string, string>, metaData: string)
    requires StartsWith(metaData, ENTRY_START) || StartsWith(metaData, ENTRY_START_CAPITALIZED)
    ensures CaptionData(m, metaData) == Merged(m, None)
  {
    var normalized := ReplaceAll(metaData, ENTRY_START_CAPITALIZED, ENTRY_START);
    NormalizedMarkerAtStart(metaData);
    IndexOfIs(normalized, ENTRY_START, 0);
    assert SplitSpec(normalized, ENTRY_START) == [None];
    var secs: seq<Option<string>> := [None];
    assert secs[1..] == [];
    assert MergeSections(m, secs) == MergeSections(m, []);
  }

  /** Either spelling of the marker at the start leaves the lower-case marker at the start of the normalized text. */
  lemma NormalizedMarkerAtStart(metaData: string)
    requires StartsWith(metaData, ENTRY_START) || StartsWith(metaData, ENTRY_START_CAPITALIZED)
    ensures StartsWith(ReplaceAll(metaData, ENTRY_START_CAPITALIZED, ENTRY_START), ENTRY_START)
  {
    var normalized := ReplaceAll(metaData, ENTRY_START_CAPITALIZED, ENTRY_START);
    if StartsWith(metaData, ENTRY_START_CAPITALIZED) {
      IndexOfIs(metaData, ENTRY_START_CAPITALIZED, 0);
      assert normalized == ENTRY_START + ReplaceAll(metaData[|ENTRY_START|..], ENTRY_START_CAPITALIZED, ENTRY_START);
    } else {
      NoCapitalizedMarkerEarly(metaData);
      ReplaceAllKeepsPrefix(metaData, ENTRY_START_CAPITALIZED, ENTRY_START, |ENTRY_START|);
    }
  }

  /** Text starting with the lower-case marker has no capitalized marker starting in its first |marker| characters. */
  lemma NoCapitalizedMarkerEarly(metaData: string)
    requires StartsWith(metaData, ENTRY_START)
    ensures forall j :: 0 <= j < |ENTRY_START| ==> !OccursAt(metaData, ENTRY_START_CAPITALIZED, j)
  {
    forall j | 0 <= j < |ENTRY_START|
      ensures !OccursAt(metaData, ENTRY_START_CAPITALIZED, j)
    {
      assert metaData[j] == metaData[..|ENTRY_START|][j] == ENTRY_START[j];
      assert ENTRY_START[j] != 'A';
      assert j + |ENTRY_START_CAPITALIZED| <= |metaData| ==> metaData[j..j + |ENTRY_START_CAPITALIZED|][0] == metaData[j];
    }
  }

  /**
   * The normalization lower-cases every `AlbumItem` of the text, wherever it stands: the
   * marker's `A` appears only in front, so no earlier replacement swallows part of it.
   */
  lemma ReplaceAllReplacesMarker(s: string, k: nat)
    requires OccursAt(s, ENTRY_START_CAPITALIZED, k)
    ensures |ReplaceAll(s, ENTRY_START_CAPITALIZED, ENTRY_START)| == |s|
    ensures ReplaceAll(s, ENTRY_START_CAPITALIZED, ENTRY_START)[k..k + |ENTRY_START|] == ENTRY_START
  {
    assert forall x :: 0 < x < |ENTRY_START_CAPITALIZED| ==> ENTRY_START_CAPITALIZED[x] != 'A';
    ReplaceAllReplaces(s, ENTRY_START_CAPITALIZED, ENTRY_START, k);
  }

  // ---------------------------------------------------------------- properties of the file loop

  /** An unreadable file is skipped: removing it from the listing changes nothing. */
  lemma {:induction false} MergeFilesSkipsUnreadable(m: map<string, string>, files: seq<DirEntry>, i: nat)
    requires i < |files| && files[i].contents == None
    ensures MergeFiles(m, files) == MergeFiles(m, files[..i] + files[i + 1..])
    decreases |files|
  {
    var rest := files[..i] + files[i + 1..];
    if i > 0 {
      var tail := files[1..];
      DropCons(files, i);
      match files[0].contents
      case None => MergeFilesSkipsUnreadable(m, tail, i - 1);
      case Some(metaData) =>
        var r := CaptionData(m, metaData);
        if r.thrown == None {
          MergeFilesSkipsUnreadable(r.entries, tail, i - 1);
        }
    } else {
      assert rest == files[1..];
    }
  }

  /** Dropping element `i > 0` keeps the head and drops element `i - 1` of the tail. */
  lemma DropCons<T>(s: seq<T>, i: nat)
    requires 0 < i < |s|
    ensures var rest := s[..i] + s[i + 1..];
      rest != [] && rest[0] == s[0] && rest[1..] == s[1..][..i - 1] + s[1..][i..]
  {
  }

  // ---------------------------------------------------------------- round trip of one item

  /**
   * `text` holds the field `tag` followed by `;s:N:"v";` right after `prefix`, and that is the first
   * occurrence of the tag.
   */
  predicate SerializedFieldAt(text: string, prefix: string, tag: string, v: string, suffix: string)
  {
    text == prefix + tag + ";" + SerializedString(v) + suffix && IndexOf(prefix + tag, tag) == |prefix|
  }

  /**
   * A well-formed item yields the entry `name.type` with its caption: its `"name"` and `"type"`
   * fields hold no quote, its `"caption"` is non-empty, holds no colon and is not at the very start.
   */
  lemma SectionEntryRoundTrip(sec: string, n: string, t: string, c: string,
                              p1: string, r1: string, p2: string, r2: string, p3: string, r3: string)
    requires SerializedFieldAt(sec, p1, Quoted("name"), n, r1) && Free(n, '"')
    requires SerializedFieldAt(sec, p2, Quoted("type"), t, r2) && Free(t, '"')
    requires SerializedFieldAt(sec, p3, CAPTION_TAG, c, r3) && p3 != [] && Free(c, ':') && 0 < |c| < INT_MAX
    ensures SectionEntry(Some(sec)) == Ok(Some(CaptionEntry(n + "." + t, c)))
  {
    SectionValueRoundTrip(p1, "name", n, r1);
    SectionValueRoundTrip(p2, "type", t, r2);
    CaptionRoundTrip(p3, c, r3);
    assert |sec| > 0;
    SectionEntryOf(sec, GetImageFileName(sec), GetCaption(sec));
  }

  /** A non-empty section whose file name and caption are read without an exception, with a non-empty caption, yields that entry. */
  lemma SectionEntryOf(sec: string, imageFileName: Result<string>, caption: Result<string>)
    requires |sec| > 0 && imageFileName == GetImageFileName(sec) && caption == GetCaption(sec)
    requires imageFileName.Ok? && caption.Ok? && |caption.value| > 0
    ensures SectionEntry(Some(sec)) == Ok(Some(CaptionEntry(imageFileName.value, caption.value)))
  {
  }

  /** `text` holds the capitalized entry marker at index `k` and nowhere else, and the lower-case marker nowhere. */
  predicate OneMarkerAt(text: string, k: nat)
  {
    && OccursAt(text, ENTRY_START_CAPITALIZED, k)
    && (forall j :: 0 <= j < |text| && j != k ==> !OccursAt(text, ENTRY_START_CAPITALIZED, j))
    && (forall j :: 0 <= j < |text| ==> !OccursAt(text, ENTRY_START, j))
  }

  /** Normalization turns the one capitalized marker into the lower-case one and leaves the rest alone. */
  lemma NormalizeOneMarker(p0: string, rest: string)
    requires OneMarkerAt(p0 + ENTRY_START_CAPITALIZED + rest, |p0|)
    ensures ReplaceAll(p0 + ENTRY_START_CAPITALIZED + rest, ENTRY_START_CAPITALIZED, ENTRY_START) == p0 + ENTRY_START + rest
  {
    var text := p0 + ENTRY_START_CAPITALIZED + rest;
    var d := |p0| + |ENTRY_START_CAPITALIZED|;
    IndexOfIs(text, ENTRY_START_CAPITALIZED, |p0|);
    var k := ReplaceAllFirst(text, ENTRY_START_CAPITALIZED, ENTRY_START);
    assert text[..k] == p0;
    assert text[d..] == rest;
    forall i: nat
      ensures !OccursAt(rest, ENTRY_START_CAPITALIZED, i)
    {
      OccursShift(text, ENTRY_START_CAPITALIZED, d, i);
    }
    ReplaceAllAbsent(rest, ENTRY_START_CAPITALIZED, ENTRY_START);
  }

  /** stringSplit of the normalized text yields the one section that starts at the marker. */
  lemma SplitOneMarker(p0: string, rest: string)
    requires p0 != [] && OneMarkerAt(p0 + ENTRY_START_CAPITALIZED + rest, |p0|)
    ensures SplitSpec(p0 + ENTRY_START + rest, ENTRY_START) == [Some(ENTRY_START + rest)]
  {
    var text := p0 + ENTRY_START_CAPITALIZED + rest;
    var normalized := p0 + ENTRY_START + rest;
    var d := |p0| + |ENTRY_START|;
    assert normalized[|p0|..d] == ENTRY_START;
    NoMarkerBefore(p0, rest);
    IndexOfIs(normalized, ENTRY_START, |p0|);
    NoMarkerAfter(p0, rest);
    var end := FirstSegment(normalized, ENTRY_START, |p0|);
    assert end == |normalized|;
    assert normalized[|p0|..end] == ENTRY_START + rest;
  }

  /** Before the marker the normalized text holds no lower-case marker. */
  lemma NoMarkerBefore(p0: string, rest: string)
    requires OneMarkerAt(p0 + ENTRY_START_CAPITALIZED + rest, |p0|)
    ensures forall j :: 0 <= j < |p0| ==> !OccursAt(p0 + ENTRY_START + rest, ENTRY_START, j)
  {
    var text := p0 + ENTRY_START_CAPITALIZED + rest;
    var normalized := p0 + ENTRY_START + rest;
    forall j | 0 <= j < |p0|
      ensures !OccursAt(normalized, ENTRY_START, j)
    {
      var e := j + |ENTRY_START|;
      if e <= |p0| {
        assert normalized[j..e] == p0[j..e] == text[j..e];
        assert !OccursAt(text, ENTRY_START, j);
      } else if e <= |normalized| {
        var x := |p0| - j;
        assert 1 <= x < |ENTRY_START|;
        assert normalized[j..e][x] == normalized[|p0|] == 'a';
        assert ENTRY_START[x] != 'a';
      }
    }
  }

  /** After the marker the normalized text holds no lower-case marker either. */
  lemma NoMarkerAfter(p0: string, rest: string)
    requires OneMarkerAt(p0 + ENTRY_START_CAPITALIZED + rest, |p0|)
    ensures forall j :: |p0| + |ENTRY_START| <= j ==> !OccursAt(p0 + ENTRY_START + rest, ENTRY_START, j)
  {
    var text := p0 + ENTRY_START_CAPITALIZED + rest;
    var normalized := p0 + ENTRY_START + rest;
    var d := |p0| + |ENTRY_START|;
    assert normalized[d..] == rest == text[d..];
    forall j | d <= j
      ensures !OccursAt(normalized, ENTRY_START, j)
    {
      OccursShift(normalized, ENTRY_START, d, j - d);
      OccursShift(text, ENTRY_START, d, j - d);
    }
  }

  /** A file with one item after a non-empty preamble puts that item's entry into the map and throws nothing. */
  lemma CaptionDataOneItem(m: map<string, string>, p0: string, rest: string, entry: CaptionEntry)
    requires p0 != [] && OneMarkerAt(p0 + ENTRY_START_CAPITALIZED + rest, |p0|)
    requires SectionEntry(Some(ENTRY_START + rest)) == Ok(Some(entry))
    ensures CaptionData(m, p0 + ENTRY_START_CAPITALIZED + rest) == Merged(m[entry.imageFileName := entry.caption], None)
  {
    NormalizeOneMarker(p0, rest);
    SplitOneMarker(p0, rest);
    var secs := [Some(ENTRY_START + rest)];
    assert secs[1..] == [];
    assert MergeSections(m, secs) == MergeSections(PutEntry(m, Some(entry)), []);
  }

  /**
   * Round trip of a `photos.dat` file: a preamble, the `AlbumItem` marker and one well-formed
   * item give the map entry `name.type` with the item's caption.
   */
  lemma CaptionDataRoundTrip(m: map<string, string>, p0: string, rest: string, n: string, t: string, c: string,
                             p1: string, r1: string, p2: string, r2: string, p3: string, r3: string)
    requires p0 != [] && OneMarkerAt(p0 + ENTRY_START_CAPITALIZED + rest, |p0|)
    requires SerializedFieldAt(ENTRY_START + rest, p1, Quoted("name"), n, r1) && Free(n, '"')
    requires SerializedFieldAt(ENTRY_START + rest, p2, Quoted("type"), t, r2) && Free(t, '"')
    requires SerializedFieldAt(ENTRY_START + rest, p3, CAPTION_TAG, c, r3) && p3 != [] && Free(c, ':') && 0 < |c| < INT_MAX
    ensures CaptionData(m, p0 + ENTRY_START_CAPITALIZED + rest) == Merged(m[n + "." + t := c], None)
  {
    SectionEntryRoundTrip(ENTRY_START + rest, n, t, c, p1, r1, p2, r2, p3, r3);
    CaptionDataOneItem(m, p0, rest, CaptionEntry(n + "." + t, c));
  }
}
