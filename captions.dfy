/**
 * Caption extraction from the legacy `photos.dat` metadata files. The text is PHP `serialize()`
 * output, but it is not parsed as such: fields are found with indexOf/substring searches.
 */
module Captions {
  import opened Wrappers
  import opened JavaLang

  const ENTRY_START_CAPITALIZED: string := "AlbumItem"
  const ENTRY_START: string := "albumitem"
  const CAPTION_TAG: string := "\"caption\""

  /** The field name in quotes, as it appears in the metadata: `"name"`. */
  function Quoted(sectionName: string): string
  {
    "\"" + sectionName + "\""
  }

  /**
   * Where the value search of getSectionValue starts: just past the first `"sectionName"`, or,
   * when the field is absent (index -1), at one less than the length of the quoted name.
   */
  function ValueSearchStart(metaData: string, sectionName: string): nat
  {
    SearchStart(IndexOf(metaData, Quoted(sectionName)) + |Quoted(sectionName)|, |metaData|)
  }

  /** `v` is enclosed by a quote at index `o` of `m` and the quote right after `v`. */
  predicate QuotedValueAt(m: string, o: int, v: string)
  {
    0 <= o && o + |v| + 1 < |m| && m[o] == '"' && m[o + 1..o + 1 + |v|] == v && m[o + |v| + 1] == '"'
  }

  /**
   * getSectionValue: the text between the first quote at or after the search start and the next
   * quote. With fewer than two quotes left, `substring` throws.
   */
  function GetSectionValue(metaData: string, sectionName: string): Result<string>
  {
    ValueAfter(metaData, IndexOf(metaData, Quoted(sectionName)) + |Quoted(sectionName)|)
  }

  /** The quote search of getSectionValue from index `from`: the text between the next two quotes. */
  function ValueAfter(metaData: string, from: int): Result<string>
  {
    var openQuoteIx := IndexOfFrom(metaData, "\"", from);
    var closeQuoteIx := IndexOfFrom(metaData, "\"", openQuoteIx + 1);
    Unquote(metaData, openQuoteIx, closeQuoteIx)
  }

  /** `metaData.substring(openQuoteIx, closeQuoteIx + 1)` with its first and last characters cut off. */
  function Unquote(metaData: string, openQuoteIx: int, closeQuoteIx: int): Result<string>
  {
    match Substring(metaData, openQuoteIx, closeQuoteIx + 1)
    case Throw(e) => Throw(e)
    case Ok(value) => if |value| > 0 then Substring(value, 1, |value| - 1) else Ok(value)
  }

  /** Between two quote positions found in order, Unquote yields the text strictly between them. */
  lemma UnquoteBetween(metaData: string, openQuoteIx: nat, closeQuoteIx: nat)
    requires openQuoteIx < closeQuoteIx < |metaData|
    ensures Unquote(metaData, openQuoteIx, closeQuoteIx) == Ok(metaData[openQuoteIx + 1..closeQuoteIx])
  {
    var value := metaData[openQuoteIx..closeQuoteIx + 1];
    assert Substring(metaData, openQuoteIx, closeQuoteIx + 1) == Ok(value);
    SliceOfSlice(metaData, openQuoteIx, closeQuoteIx + 1, 1, |value| - 1);
  }

  /** Two quotes at or after `from`. */
  predicate TwoQuotesFrom(m: string, from: nat)
  {
    exists i, j :: from <= i < j < |m| && m[i] == '"' && m[j] == '"'
  }

  /** getSectionValue throws, and only with StringIndexOutOfBounds, exactly when fewer than two quotes follow the search start. */
  lemma GetSectionValueThrows(metaData: string, sectionName: string)
    ensures var r := GetSectionValue(metaData, sectionName);
      && (r.Ok? <==> TwoQuotesFrom(metaData, ValueSearchStart(metaData, sectionName)))
      && (r.Throw? ==> r.exception == StringIndexOutOfBounds)
  {
    var from := NameEnd(metaData, sectionName);
    ValueAfterThrows(metaData, from);
  }

  /** The value search from `from` throws, with StringIndexOutOfBounds, exactly when fewer than two quotes follow. */
  lemma ValueAfterThrows(m: string, from: int)
    requires from >= 1
    ensures var r := ValueAfter(m, from);
      && (r.Ok? <==> TwoQuotesFrom(m, SearchStart(from, |m|)))
      && (r.Throw? ==> r.exception == StringIndexOutOfBounds)
  {
    var o, c := UnquoteFound(m, from);
    CharSearch(m, '"', from);
    CharSearch(m, '"', o + 1);
  }

  /** The text between a quote and the next one, with no quote between `from` and the first. */
  lemma QuotedBetween(m: string, from: nat, o: nat, c: nat)
    requires from <= o < c < |m| && m[o] == '"' && m[c] == '"'
    requires forall i :: from <= i < |m| && i < o ==> m[i] != '"'
    requires forall i :: o + 1 <= i < |m| && i < c ==> m[i] != '"'
    ensures QuotedValueAt(m, o, m[o + 1..c]) && Free(m[from..o], '"') && Free(m[o + 1..c], '"')
  {
  }

  /** When both quotes are found, getSectionValue returns the text strictly between them. */
  lemma SectionValueBetween(metaData: string, sectionName: string) returns (openQuoteIx: int, closeQuoteIx: int)
    ensures var q := Quoted(sectionName);
      && openQuoteIx == IndexOfFrom(metaData, "\"", IndexOf(metaData, q) + |q|)
      && closeQuoteIx == IndexOfFrom(metaData, "\"", openQuoteIx + 1)
    ensures openQuoteIx >= 0 && closeQuoteIx >= 0 ==>
      openQuoteIx < closeQuoteIx && GetSectionValue(metaData, sectionName) == Ok(metaData[openQuoteIx + 1..closeQuoteIx])
    ensures openQuoteIx < 0 || closeQuoteIx < 0 ==> GetSectionValue(metaData, sectionName) == Throw(StringIndexOutOfBounds)
  {
    var from := NameEnd(metaData, sectionName);
    openQuoteIx, closeQuoteIx := UnquoteFound(metaData, from);
  }

  /** The quote search starts past the quoted name, at index 1 or later even when the name is absent. */
  lemma NameEnd(metaData: string, sectionName: string) returns (from: int)
    ensures from == IndexOf(metaData, Quoted(sectionName)) + |Quoted(sectionName)|
    ensures from >= 1 && GetSectionValue(metaData, sectionName) == ValueAfter(metaData, from)
    ensures ValueSearchStart(metaData, sectionName) == SearchStart(from, |metaData|)
  {
    QuotedLength(sectionName);
    IndexOfAtLeast(metaData, Quoted(sectionName));
    from := SectionValueFrom(metaData, sectionName);
  }

  /** getSectionValue is the value search from just past the first quoted name. */
  lemma SectionValueFrom(metaData: string, sectionName: string) returns (from: int)
    ensures from == IndexOf(metaData, Quoted(sectionName)) + |Quoted(sectionName)|
    ensures GetSectionValue(metaData, sectionName) == ValueAfter(metaData, from)
  {
    from := IndexOf(metaData, Quoted(sectionName)) + |Quoted(sectionName)|;
  }

  /** The quoted name is two characters longer than the name. */
  lemma QuotedLength(sectionName: string)
    ensures |Quoted(sectionName)| == |sectionName| + 2
  {
  }

  /**
   * From any index `from >= 1`, the value search yields the text between the first two quotes
   * found, and throws when there are fewer than two.
   */
  lemma UnquoteFound(m: string, from: int) returns (o: int, c: int)
    requires from >= 1
    ensures o == IndexOfFrom(m, "\"", from) && c == IndexOfFrom(m, "\"", o + 1)
    ensures o >= 0 && c >= 0 ==> o < c && ValueAfter(m, from) == Ok(m[o + 1..c])
    ensures o < 0 || c < 0 ==> ValueAfter(m, from) == Throw(StringIndexOutOfBounds)
  {
    o := IndexOfFrom(m, "\"", from);
    c := IndexOfFrom(m, "\"", o + 1);
    assert ValueAfter(m, from) == Unquote(m, o, c);
    if o >= 0 && c >= 0 {
      UnquoteBetween(m, o, c);
    } else {
      UnquoteMissing(m, o, c);
    }
  }

  /** A missing quote (index -1) makes the substring bounds invalid, except for an opening quote at 0. */
  lemma UnquoteMissing(metaData: string, openQuoteIx: int, closeQuoteIx: int)
    requires openQuoteIx == -1 || openQuoteIx >= 1
    requires openQuoteIx == -1 || closeQuoteIx == -1
    ensures Unquote(metaData, openQuoteIx, closeQuoteIx) == Throw(StringIndexOutOfBounds)
  {
  }

  /** The value getSectionValue returns is the quote-free text between the first two quotes from the search start on. */
  lemma GetSectionValueQuoted(metaData: string, sectionName: string)
    ensures var r := GetSectionValue(metaData, sectionName);
      var from := ValueSearchStart(metaData, sectionName);
      && (r.Ok? ==> exists o :: from <= o && QuotedValueAt(metaData, o, r.value) && Free(metaData[from..o], '"'))
      && (r.Ok? ==> Free(r.value, '"'))
  {
    var from := NameEnd(metaData, sectionName);
    var start := SearchStart(from, |metaData|);
    ValueAfterQuoted(metaData, from);
    var r := ValueAfter(metaData, from);
    if r.Ok? {
      var o :| start <= o && QuotedValueAt(metaData, o, r.value) && Free(metaData[start..o], '"');
      assert GetSectionValue(metaData, sectionName).value == r.value;
    }
  }

  /** What the value search from `from` returns is quote-free and sits between the first two quotes from there on. */
  lemma ValueAfterQuoted(m: string, from: int)
    requires from >= 1
    ensures var r := ValueAfter(m, from);
      var start := SearchStart(from, |m|);
      && (r.Ok? ==> exists o :: start <= o && QuotedValueAt(m, o, r.value) && Free(m[start..o], '"'))
      && (r.Ok? ==> Free(r.value, '"'))
  {
    var o, c := UnquoteFound(m, from);
    if o >= 0 && c >= 0 {
      CharSearch(m, '"', from);
      CharSearch(m, '"', o + 1);
      QuotedBetween(m, SearchStart(from, |m|), o, c);
    }
  }

  /** getImageFileName: the `name` value, a dot, and the `type` value. */
  function GetImageFileName(metaDataSec: string): (r: Result<string>)
    ensures r.Ok? <==> GetSectionValue(metaDataSec, "name").Ok? && GetSectionValue(metaDataSec, "type").Ok?
    ensures r.Ok? ==> r.value == GetSectionValue(metaDataSec, "name").value + "." + GetSectionValue(metaDataSec, "type").value
    ensures r.Throw? ==> r.exception == StringIndexOutOfBounds
  {
    match GetSectionValue(metaDataSec, "name")
    case Throw(e) => Throw(e)
    case Ok(rootName) =>
      match GetSectionValue(metaDataSec, "type")
      case Throw(e) => Throw(e)
      case Ok(suffix) => Ok(rootName + "." + suffix)
  }

  /**
   * getCaption: after the first `"caption"` (ignored when it is at index 0), split on ':'; the
   * second field is the declared length and the caption is that many characters starting one
   * character into the third field, provided the third field is longer than that.
   */
  function GetCaption(metaData: string): (r: Result<string>)
    ensures IndexOf(metaData, CAPTION_TAG) <= 0 ==> r == Ok("")
  {
    var captionTag := CAPTION_TAG;
    var capIx := IndexOf(metaData, captionTag);
    if capIx > 0 then
      var substr := metaData[capIx + |captionTag|..];
      var parts := Split(substr, ':');
      if |parts| >= 3 then
        match ParseInt(parts[1])
        case Throw(e) => Throw(e)
        case Ok(capLen) =>
          if |parts[2]| > capLen then Substring(parts[2], 1, AddInt32(capLen, 1)) else Ok("")
      else Ok("")
    else Ok("")
  }

  /**
   * Every outcome of getCaption, read off the ':'-separated parts after the first `"caption"`: the
   * empty caption when the tag is absent or at index 0 or fewer than three parts follow it; a
   * NumberFormat failure when the second part is not a number `n`; the empty caption when the third
   * part is not longer than `n`; otherwise exactly `n` characters from the third part's second one
   * on (a Java string is never long enough for `n + 1` to overflow), and an out-of-bounds failure
   * when `n` is negative.
   */
  lemma GetCaptionCases(metaData: string)
    ensures var capIx := IndexOf(metaData, CAPTION_TAG);
      var parts := if capIx > 0 then Split(metaData[capIx + |CAPTION_TAG|..], ':') else [];
      var r := GetCaption(metaData);
      && (|parts| < 3 ==> r == Ok(""))
      && (|parts| >= 3 && ParseInt(parts[1]).Throw? ==> r == Throw(NumberFormat))
      && (|parts| >= 3 && ParseInt(parts[1]).Ok? ==>
        var n := ParseInt(parts[1]).value;
        && (|parts[2]| <= n ==> r == Ok(""))
        && (0 <= n < |parts[2]| && n < INT_MAX ==> r == Ok(parts[2][1..n + 1]) && |r.value| == n)
        && (n < 0 ==> r == Throw(StringIndexOutOfBounds)))
  {
    var capIx := IndexOf(metaData, CAPTION_TAG);
    if capIx > 0 {
      var parts := Split(metaData[capIx + |CAPTION_TAG|..], ':');
      if |parts| >= 3 && ParseInt(parts[1]).Ok? {
        var n := ParseInt(parts[1]).value;
        if |parts[2]| > n {
          assert GetCaption(metaData) == Substring(parts[2], 1, AddInt32(n, 1));
          assert n < INT_MAX ==> AddInt32(n, 1) == n + 1;
        }
      }
    }
  }

  /** The caption tag first occurs at index `capIx`, which getCaption only accepts when positive. */
  predicate CaptionTagAt(m: string, capIx: int)
  {
    capIx > 0 && IndexOf(m, CAPTION_TAG) == capIx
  }

  /**
   * On text whose caption field reads `a:n:qv...`, where `a`, `n` and `v` hold no ':' and `n` is
   * the length of `v` written in decimal, getCaption returns exactly `v`.
   */
  lemma CaptionFromLayout(m: string, capIx: int, a: string, lenText: string, q: char, v: string, rest: string)
    requires CaptionTagAt(m, capIx)
    requires m[capIx + |CAPTION_TAG|..] == a + [':'] + (lenText + [':'] + ([q] + v + rest))
    requires Free(a, ':') && Free(lenText, ':') && q != ':' && Free(v, ':')
    requires ParseInt(lenText) == Ok(|v|) && |v| < INT_MAX
    ensures GetCaption(m) == Ok(v)
  {
    var third := [q] + v + rest;
    assert Free([q] + v, ':');
    assert StartsWith(third, [q] + v);
    FirstFieldCovers(third, ':', [q] + v);
    var f2 := Fields(third, ':')[0];
    assert |f2| >= |v| + 1 && f2[1..|v| + 1] == v;
    CaptionOfFields(m, capIx, a, lenText, third, |v|);
    assert AddInt32(|v|, 1) == |v| + 1;
  }

  /**
   * With the first two fields after the tag ':'-free and the second parsing as `n`, getCaption
   * decides on the third field: `n` characters from its second one on when it is longer than `n`,
   * else the empty caption.
   */
  lemma CaptionOfFields(m: string, capIx: int, a: string, lenText: string, tail: string, n: int)
    requires CaptionTagAt(m, capIx)
    requires m[capIx + |CAPTION_TAG|..] == a + [':'] + (lenText + [':'] + tail)
    requires Free(a, ':') && Free(lenText, ':') && Fields(tail, ':')[0] != []
    requires ParseInt(lenText) == Ok(n)
    ensures var field := Fields(tail, ':')[0];
      GetCaption(m) == if |field| > n then Substring(field, 1, AddInt32(n, 1)) else Ok("")
  {
    SplitThree(a, lenText, tail, ':');
  }

  /**
   * When the third field, the one that should hold the caption, is not longer than the declared
   * length, getCaption returns the empty caption.
   */
  lemma CaptionTooShort(m: string, capIx: int, a: string, lenText: string, field: string, rest: string, n: int)
    requires CaptionTagAt(m, capIx)
    requires m[capIx + |CAPTION_TAG|..] == a + [':'] + (lenText + [':'] + (field + rest))
    requires Free(a, ':') && Free(lenText, ':') && Free(field, ':') && field != []
    requires rest == [] || rest[0] == ':'
    requires ParseInt(lenText) == Ok(n) && |field| <= n
    ensures GetCaption(m) == Ok("")
  {
    FirstFieldIs(field, rest, ':');
    CaptionOfFields(m, capIx, a, lenText, field + rest, n);
  }

  /** Any text with a quoted value at `o`, after quote-free text from the search start, yields that value. */
  lemma SectionValueOfLayout(m: string, sectionName: string, o: nat, v: string)
    requires ValueSearchStart(m, sectionName) <= o
    requires QuotedValueAt(m, o, v) && Free(v, '"')
    requires Free(m[ValueSearchStart(m, sectionName)..o], '"')
    ensures GetSectionValue(m, sectionName) == Ok(v)
  {
    var from := ValueSearchStart(m, sectionName);
    GetSectionValueThrows(m, sectionName);
    GetSectionValueQuoted(m, sectionName);
    assert TwoQuotesFrom(m, from) by {
      assert m[o] == '"' && m[o + |v| + 1] == '"';
    }
    var r := GetSectionValue(m, sectionName).value;
    var o' :| from <= o' && QuotedValueAt(m, o', r) && Free(m[from..o'], '"');
    QuotedValueUnique(m, from, o, v, o', r);
  }

  /** Two quote-free values, each quoted and preceded by quote-free text from `from`, are the same value. */
  lemma QuotedValueUnique(m: string, from: nat, o: nat, v: string, o': nat, r: string)
    requires from <= o && QuotedValueAt(m, o, v) && Free(v, '"') && Free(m[from..o], '"')
    requires from <= o' && QuotedValueAt(m, o', r) && Free(r, '"') && Free(m[from..o'], '"')
    ensures o == o' && v == r
  {
    assert forall i :: from <= i < o ==> m[from..o][i - from] == m[i];
    assert forall i :: from <= i < o' ==> m[from..o'][i - from] == m[i];
    assert o == o';
    assert forall i :: 0 <= i < |v| ==> v[i] == m[o + 1 + i];
    assert forall i :: 0 <= i < |r| ==> r[i] == m[o + 1 + i];
  }

  /**
   * A string in the layout of PHP `serialize()`: `s:<length>:"<value>";`, with the length counted in
   * characters. PHP counts bytes, so the two agree on single-byte text only.
   */
  function SerializedString(v: string): string
  {
    SerializedWithLength(DecimalString(|v|), v)
  }

  /** A serialized string with the given length text. */
  function SerializedWithLength(lenText: string, v: string): string
  {
    "s:" + lenText + ":\"" + v + "\";"
  }

  /** The value in quotes after quote-free text that follows the first `"field"` is what getSectionValue returns. */
  lemma SectionValueAfterTag(head: string, sectionName: string, lead: string, v: string, tail: string)
    requires |Quoted(sectionName)| <= |head| && IndexOf(head, Quoted(sectionName)) == |head| - |Quoted(sectionName)|
    requires Free(lead, '"') && Free(v, '"')
    ensures GetSectionValue(head + (lead + ("\"" + v + "\"" + tail)), sectionName) == Ok(v)
  {
    var m := head + (lead + ("\"" + v + "\"" + tail));
    IndexOfExtend(head, lead + ("\"" + v + "\"" + tail), Quoted(sectionName));
    var from := |head|;
    var o := |head| + |lead|;
    assert m[from..o] == lead;
    assert m[o + 1..o + 1 + |v|] == v;
    SectionValueOfLayout(m, sectionName, o, v);
  }

  /** A serialized field, regrouped as getSectionValue's search sees it. */
  lemma FieldText(head: string, lenText: string, v: string, suffix: string)
    ensures head + ";" + SerializedWithLength(lenText, v) + suffix
      == head + ((";s:" + lenText + ":") + ("\"" + v + "\"" + (";" + suffix)))
  {
  }

  /**
   * Round trip of a serialized string field: when `"field"` first occurs right after `prefix`,
   * getSectionValue reads back any quote-free value that was serialized after it.
   */
  lemma SectionValueRoundTrip(prefix: string, sectionName: string, v: string, suffix: string)
    requires IndexOf(prefix + Quoted(sectionName), Quoted(sectionName)) == |prefix|
    requires Free(v, '"')
    ensures GetSectionValue(prefix + Quoted(sectionName) + ";" + SerializedString(v) + suffix, sectionName) == Ok(v)
  {
    var head := prefix + Quoted(sectionName);
    var lead := ";s:" + DecimalString(|v|) + ":";
    assert Free(lead, '"') by {
      assert AllDigits(DecimalString(|v|));
    }
    SectionValueAfterTag(head, sectionName, lead, v, ";" + suffix);
    FieldText(prefix + Quoted(sectionName), DecimalString(|v|), v, suffix);
  }

  /** The serialized caption field, regrouped as getCaption's split sees it. */
  lemma CaptionText(prefix: string, lenText: string, v: string, suffix: string)
    ensures prefix + CAPTION_TAG + ";" + SerializedWithLength(lenText, v) + suffix
      == (prefix + CAPTION_TAG) + (";s" + [':'] + (lenText + [':'] + (['"'] + v + ("\";" + suffix))))
  {
  }

  /**
   * Round trip of the caption field: when `"caption"` first occurs after a non-empty `prefix`,
   * getCaption reads back any serialized caption without ':'.
   */
  lemma CaptionRoundTrip(prefix: string, v: string, suffix: string)
    requires |prefix| > 0 && IndexOf(prefix + CAPTION_TAG, CAPTION_TAG) == |prefix|
    requires Free(v, ':') && |v| < INT_MAX
    ensures GetCaption(prefix + CAPTION_TAG + ";" + SerializedString(v) + suffix) == Ok(v)
  {
    var lenText := LengthText(v);
    var rest := "\";" + suffix;
    var after := ";s" + [':'] + (lenText + [':'] + (['"'] + v + rest));
    CaptionText(prefix, lenText, v, suffix);
    var m := CaptionTagFirst(prefix, after);
    CaptionFromLayout(m, |prefix|, ";s", lenText, '"', v, rest);
  }

  /** The declared length of a serialized string holds no ':' and parses back to the length. */
  lemma LengthText(v: string) returns (lenText: string)
    requires |v| <= INT_MAX
    ensures lenText == DecimalString(|v|) && Free(lenText, ':') && ParseInt(lenText) == Ok(|v|)
  {
    lenText := DecimalString(|v|);
    assert AllDigits(lenText);
    ParseIntDecimalString(|v|);
  }

  /** The first `"caption"` sits right after a non-empty `prefix`, and what follows the tag is `after`. */
  lemma CaptionTagFirst(prefix: string, after: string) returns (m: string)
    requires |prefix| > 0 && IndexOf(prefix + CAPTION_TAG, CAPTION_TAG) == |prefix|
    ensures m == (prefix + CAPTION_TAG) + after
    ensures CaptionTagAt(m, |prefix|) && m[|prefix| + |CAPTION_TAG|..] == after
  {
    m := (prefix + CAPTION_TAG) + after;
    IndexOfExtend(prefix + CAPTION_TAG, after, CAPTION_TAG);
  }

  /**
   * A serialized caption that contains ':' is cut at its first ':' by the split, so the third
   * field is too short for the declared length and getCaption returns the empty caption.
   */
  lemma CaptionWithColonIsDropped(prefix: string, v: string, suffix: string)
    requires |prefix| > 0 && IndexOf(prefix + CAPTION_TAG, CAPTION_TAG) == |prefix|
    requires !Free(v, ':') && |v| <= INT_MAX
    ensures GetCaption(prefix + CAPTION_TAG + ";" + SerializedString(v) + suffix) == Ok("")
  {
    var lenText := LengthText(v);
    var field, rest := CutAtColon(v, "\";" + suffix);
    var after := ";s" + [':'] + (lenText + [':'] + (field + rest));
    CaptionText(prefix, lenText, v, suffix);
    var m := CaptionTagFirst(prefix, after);
    assert Free(";s", ':');
    CaptionTooShort(m, |prefix|, ";s", lenText, field, rest, |v|);
  }

  /**
   * The opening quote and a value holding ':', then `tail`, fall apart at the value's first ':'
   * into a ':'-free field no longer than the value and a rest starting with ':'.
   */
  lemma CutAtColon(v: string, tail: string) returns (field: string, rest: string)
    requires !Free(v, ':')
    ensures ['"'] + v + tail == field + rest
    ensures Free(field, ':') && field != [] && |field| <= |v| && rest != [] && rest[0] == ':'
  {
    CharNotFound(v, ':');
    var t := IndexOf(v, [':']);
    field := ['"'] + v[..t];
    rest := v[t..] + tail;
    assert v == v[..t] + v[t..];
  }

  // ---------------------------------------------------------------- stringSplit

  /** No occurrence of `sep` starts in `g` at or after offset |sep|. */
  predicate NoSeparatorInside(g: string, sep: string)
  {
    forall j :: |sep| <= j < |g| ==> !OccursAt(g, sep, j)
  }

  /**
   * The segments stringSplit collects from index `start` on: each runs from `start` to the next
   * occurrence of `sep` found from `start + |sep|` on, or to the end of the text.
   */
  function SegmentsFrom(str: string, sep: string, start: nat): seq<string>
    requires |sep| > 0 && start <= |str|
    decreases |str| - start
  {
    if start == |str| then []
    else
      var next := IndexOfFrom(str, sep, start + |sep|);
      var end := if next < 0 then |str| else next;
      [str[start..end]] + SegmentsFrom(str, sep, end)
  }

  /** One step of SegmentsFrom, with the end of the first segment named. */
  lemma SegmentsStep(str: string, sep: string, start: nat, end: int)
    requires |sep| > 0 && start < |str|
    requires end == if IndexOfFrom(str, sep, start + |sep|) < 0 then |str| else IndexOfFrom(str, sep, start + |sep|)
    ensures start < end <= |str|
    ensures SegmentsFrom(str, sep, start) == [str[start..end]] + SegmentsFrom(str, sep, end)
  {
  }

  /** `list.toArray(new String[1])`: an empty list comes back as the one-element array `[null]`. */
  function ToArray(list: seq<string>): (arr: seq<Option<string>>)
    ensures |arr| == if list == [] then 1 else |list|
  {
    if list == [] then [None] else seq(|list|, i requires 0 <= i < |list| => Some(list[i]))
  }

  /** What stringSplit returns: the segments from the first separator on, when that is at an index > 0. */
  function SplitSpec(str: string, sep: string): seq<Option<string>>
  {
    var startIx := IndexOf(str, sep);
    IndexOfEmpty(str);
    ToArray(if startIx > 0 then SegmentsFrom(str, sep, startIx) else [])
  }

  function Concat(segments: seq<string>): string
  {
    if segments == [] then [] else segments[0] + Concat(segments[1..])
  }

  /** The text of the non-null entries, in order. */
  function ConcatPresent(arr: seq<Option<string>>): string
  {
    if arr == [] then [] else (if arr[0].Some? then arr[0].value else []) + ConcatPresent(arr[1..])
  }

  /**
   * Every segment is non-empty, begins with the separator and has no separator starting inside it
   * at or after offset |sep|; in order, the segments make up the text from `start` on.
   */
  lemma {:induction false} SegmentsShape(str: string, sep: string, start: nat)
    requires |sep| > 0 && start <= |str| && (start < |str| ==> OccursAt(str, sep, start))
    ensures Concat(SegmentsFrom(str, sep, start)) == str[start..]
    ensures forall g :: g in SegmentsFrom(str, sep, start) ==> |g| > 0 && StartsWith(g, sep) && NoSeparatorInside(g, sep)
    decreases |str| - start
  {
    if start < |str| {
      var end := FirstSegment(str, sep, start);
      SegmentsShape(str, sep, end);
      SuffixSplit(str, start, end);
    }
  }

  /** The first segment from a separator at `start` ends at `end`, where the next separator (or the text) begins. */
  lemma FirstSegment(str: string, sep: string, start: nat) returns (end: nat)
    requires |sep| > 0 && start < |str| && OccursAt(str, sep, start)
    ensures end == if IndexOfFrom(str, sep, start + |sep|) < 0 then |str| else IndexOfFrom(str, sep, start + |sep|)
    ensures start + |sep| <= end <= |str| && (end < |str| ==> OccursAt(str, sep, end))
    ensures SegmentsFrom(str, sep, start) == [str[start..end]] + SegmentsFrom(str, sep, end)
    ensures StartsWith(str[start..end], sep) && NoSeparatorInside(str[start..end], sep)
  {
    var next := IndexOfFrom(str, sep, start + |sep|);
    end := if next < 0 then |str| else next;
    SliceOfSlice(str, start, end, 0, |sep|);
    NoSeparatorBefore(str, sep, start, end);
  }

  /** With no separator starting in `str` from `start + |sep|` up to `end`, none starts inside `str[start..end]`. */
  lemma NoSeparatorBefore(str: string, sep: string, start: nat, end: nat)
    requires start <= end <= |str|
    requires forall j :: start + |sep| <= j < end ==> !OccursAt(str, sep, j)
    ensures NoSeparatorInside(str[start..end], sep)
  {
    var g := str[start..end];
    forall j | |sep| <= j < |g|
      ensures !OccursAt(g, sep, j)
    {
      if OccursAt(g, sep, j) {
        SliceOfSlice(str, start, end, j, j + |sep|);
        assert OccursAt(str, sep, start + j);
      }
    }
  }

  lemma {:induction false} ConcatToArray(list: seq<string>)
    requires list != []
    ensures ConcatPresent(ToArray(list)) == Concat(list)
  {
    if |list| > 1 {
      ConcatToArray(list[1..]);
      assert ToArray(list)[1..] == ToArray(list[1..]);
    }
  }

  /**
   * stringSplit returns `[null]` when the separator is absent or first found at index 0; otherwise
   * non-empty segments, each starting with the separator and holding no further separator from
   * offset |sep| on, which together are the text from the first separator on.
   */
  lemma SplitSpecShape(str: string, sep: string)
    ensures IndexOf(str, sep) <= 0 ==> SplitSpec(str, sep) == [None]
    ensures IndexOf(str, sep) > 0 ==>
      && (forall x :: x in SplitSpec(str, sep) ==> x.Some? && |x.value| > 0 && StartsWith(x.value, sep) && NoSeparatorInside(x.value, sep))
      && ConcatPresent(SplitSpec(str, sep)) == str[IndexOf(str, sep)..]
  {
    var startIx := IndexOf(str, sep);
    IndexOfEmpty(str);
    if startIx > 0 {
      SegmentsShape(str, sep, startIx);
      var segments := SegmentsFrom(str, sep, startIx);
      assert segments != [];
      ConcatToArray(segments);
      assert SplitSpec(str, sep) == ToArray(segments);
      forall x | x in SplitSpec(str, sep)
        ensures x.Some? && |x.value| > 0 && StartsWith(x.value, sep) && NoSeparatorInside(x.value, sep)
      {
        ToArrayEntry(segments, x);
      }
    }
  }

  /** An entry of the array of a non-empty list is one of its elements. */
  lemma ToArrayEntry(list: seq<string>, x: Option<string>)
    requires list != [] && x in ToArray(list)
    ensures x.Some? && x.value in list
  {
    var i :| 0 <= i < |list| && x == ToArray(list)[i];
  }

  /** stringSplit: cuts `str` at every occurrence of `seperator`, keeping the separator at the head of each piece. */
  method StringSplit(str: string, seperator: string) returns (splitVec: seq<Option<string>>)
    ensures splitVec == SplitSpec(str, seperator)
  {
    var splitRslt: seq<string> := [];
    var sepSize := |seperator|;
    var startIx := IndexOf(str, seperator);
    var endIx := 0;
    ghost var firstIx := startIx;
    IndexOfEmpty(str);
    while startIx > 0 && endIx < |str|
      invariant firstIx > 0 ==> sepSize > 0 && firstIx <= startIx <= |str|
      invariant firstIx > 0 ==> splitRslt + SegmentsFrom(str, seperator, startIx) == SegmentsFrom(str, seperator, firstIx)
      invariant firstIx <= 0 ==> splitRslt == []
      invariant splitRslt == [] ==> startIx == firstIx && endIx == 0
      invariant splitRslt != [] ==> endIx == startIx
      decreases |str| - startIx
    {
      assert firstIx > 0 && startIx < |str|;
      endIx := IndexOfFrom(str, seperator, startIx + sepSize);
      if endIx < 0 {
        endIx := |str|;
      }
      var substr := str[startIx..endIx];
      SegmentsStep(str, seperator, startIx, endIx);
      AppendAssociative(splitRslt, [substr], SegmentsFrom(str, seperator, endIx));
      splitRslt := splitRslt + [substr];
      startIx := endIx;
    }
    assert firstIx > 0 ==> startIx == |str| && splitRslt == SegmentsFrom(str, seperator, firstIx);
    splitVec := ToArray(splitRslt);
  }
}
