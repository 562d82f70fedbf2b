/**
 * buildGalleryHTML: the `<img>` lines of an album, one per image pair, spread over pages
 * `gallery_01`, `gallery_02`, ... of at most `photosPerPage` lines each.
 */
module Html {
  import opened Wrappers
  import opened JavaLang
  import opened Images

  const GALLERY_ROOT_NAME := "gallery"

  /** One output file: its number, its name and the lines printed into it. */
  datatype Page = Page(number: nat, name: string, lines: seq<string>)

  /** getNewFile's file name: `String.format("%s_%02d", GALLERY_ROOT_NAME, pageCnt)`. */
  function PageName(pageCnt: nat): string
  {
    GALLERY_ROOT_NAME + "_" + Format02d(pageCnt)
  }

  /** Different page numbers give different file names. */
  lemma PageNameInjective(a: nat, b: nat)
    requires PageName(a) == PageName(b)
    ensures a == b
  {
    var prefix := GALLERY_ROOT_NAME + "_";
    assert Format02d(a) == PageName(a)[|prefix|..];
    assert Format02d(b) == PageName(b)[|prefix|..];
  }

  /** `HashMap.get`: the value under `key`, or null. */
  function Get(captionMap: map<string, string>, key: string): Option<string>
  {
    if key in captionMap then Some(captionMap[key]) else None
  }

  /** The line printed for one pair: with `data-description` only when the map holds a non-empty caption for the image. */
  function ImgTag(imagePair: Pair, captionMap: map<string, string>): string
  {
    var caption := Get(captionMap, imagePair.left);
    if caption.Some? && |caption.value| > 0 then
      "<img src=\"" + imagePair.right + "\" data-big=\"" + imagePair.left + "\" data-description=\"" + caption.value + "\">\n"
    else
      "<img src=\"" + imagePair.right + "\" data-big=\"" + imagePair.left + "\">\n"
  }

  /** The lines for the whole image list, in order. */
  function Lines(imageList: seq<Pair>, captionMap: map<string, string>): (lines: seq<string>)
    ensures |lines| == |imageList|
  {
    seq(|imageList|, i requires 0 <= i < |imageList| => ImgTag(imageList[i], captionMap))
  }

  /**
   * The pages the lines go to, numbered from `first`: each page takes the next `perPage` lines;
   * with `perPage <= 0` no page is ever closed, so every line lands on one page.
   */
  function Pages(lines: seq<string>, perPage: int, first: nat): (pages: seq<Page>)
    ensures pages == [] <==> lines == []
    decreases |lines|
  {
    if lines == [] then []
    else if perPage <= 0 || |lines| <= perPage then [Page(first, PageName(first), lines)]
    else [Page(first, PageName(first), lines[..perPage])] + Pages(lines[perPage..], perPage, first + 1)
  }

  /** The last page is full, so the next line opens a new page. */
  predicate LastPageFull(pages: seq<Page>, perPage: int)
  {
    pages == [] || (perPage > 0 && |pages[|pages| - 1].lines| >= perPage)
  }

  /** The effect of printing one more line: into a fresh page when the last one is full (or there is none), else onto the last page. */
  function AddLine(pages: seq<Page>, line: string, perPage: int, first: nat): seq<Page>
  {
    if LastPageFull(pages, perPage) then
      pages + [Page(first + |pages|, PageName(first + |pages|), [line])]
    else
      pages[..|pages| - 1] + [pages[|pages| - 1].(lines := pages[|pages| - 1].lines + [line])]
  }

  /** Paging the lines one more line at a time: Pages of a longer list is AddLine on Pages of the shorter one. */
  lemma {:induction false} PagesSnoc(lines: seq<string>, line: string, perPage: int, first: nat)
    ensures Pages(lines + [line], perPage, first) == AddLine(Pages(lines, perPage, first), line, perPage, first)
    decreases |lines|
  {
    if perPage > 0 && |lines| > perPage {
      PagesSnoc(lines[perPage..], line, perPage, first + 1);
      SnocPastFirstPage(lines, line, perPage, first);
    } else if perPage > 0 && |lines| == perPage {
      SnocOntoFullPage(lines, line, perPage, first);
    } else if lines != [] {
      SnocOntoOpenPage(lines, line, perPage, first);
    } else {
      assert lines + [line] == [line];
    }
  }

  /** One page that is not full takes the next line. */
  lemma SnocOntoOpenPage(lines: seq<string>, line: string, perPage: int, first: nat)
    requires lines != [] && (perPage <= 0 || |lines| < perPage)
    ensures Pages(lines + [line], perPage, first) == AddLine(Pages(lines, perPage, first), line, perPage, first)
  {
    var pages := Pages(lines, perPage, first);
    assert pages == [Page(first, PageName(first), lines)] && !LastPageFull(pages, perPage);
    assert pages[..0] == [];
    assert AddLine(pages, line, perPage, first) == [Page(first, PageName(first), lines + [line])];
  }

  /** A full first page sends the next line to a new page. */
  lemma SnocOntoFullPage(lines: seq<string>, line: string, perPage: int, first: nat)
    requires perPage > 0 && |lines| == perPage
    ensures Pages(lines + [line], perPage, first) == AddLine(Pages(lines, perPage, first), line, perPage, first)
  {
    assert (lines + [line])[..perPage] == lines;
    assert (lines + [line])[perPage..] == [line];
    assert Pages([line], perPage, first + 1) == [Page(first + 1, PageName(first + 1), [line])];
  }

  /** Past the first page, adding a line happens in the pages that follow it. */
  lemma SnocPastFirstPage(lines: seq<string>, line: string, perPage: int, first: nat)
    requires perPage > 0 && |lines| > perPage
    requires var rest := lines[perPage..];
      Pages(rest + [line], perPage, first + 1) == AddLine(Pages(rest, perPage, first + 1), line, perPage, first + 1)
    ensures Pages(lines + [line], perPage, first) == AddLine(Pages(lines, perPage, first), line, perPage, first)
  {
    var rest := lines[perPage..];
    assert (lines + [line])[..perPage] == lines[..perPage];
    assert (lines + [line])[perPage..] == rest + [line];
    var tail := Pages(rest, perPage, first + 1);
    var head := Page(first, PageName(first), lines[..perPage]);
    assert Pages(lines, perPage, first) == [head] + tail;
    assert Pages(lines + [line], perPage, first) == [head] + AddLine(tail, line, perPage, first + 1);
    AddLineBehindHead(head, tail, line, perPage, first);
  }

  /** Adding a line to pages behind a first page is adding it to the pages that follow, numbered one further on. */
  lemma AddLineBehindHead(head: Page, tail: seq<Page>, line: string, perPage: int, first: nat)
    requires tail != []
    ensures AddLine([head] + tail, line, perPage, first) == [head] + AddLine(tail, line, perPage, first + 1)
  {
    var pages := [head] + tail;
    ConsIndex(head, tail, |tail|);
    var last := tail[|tail| - 1];
    assert pages[|pages| - 1] == last;
    assert LastPageFull(pages, perPage) == LastPageFull(tail, perPage);
    if LastPageFull(tail, perPage) {
      var number := first + |pages|;
      assert number == (first + 1) + |tail|;
      var added := Page(number, PageName(number), [line]);
      assert AddLine(pages, line, perPage, first) == pages + [added];
      assert AddLine(tail, line, perPage, first + 1) == tail + [added];
      AppendAssociative([head], tail, [added]);
    } else {
      var updated := last.(lines := last.lines + [line]);
      ConsAllButLast(head, tail);
      assert AddLine(pages, line, perPage, first) == pages[..|tail|] + [updated];
      assert AddLine(tail, line, perPage, first + 1) == tail[..|tail| - 1] + [updated];
      AppendAssociative([head], tail[..|tail| - 1], [updated]);
    }
  }

  /** Behind a first element, element `k` is element `k - 1` of the rest. */
  lemma ConsIndex<T>(head: T, tail: seq<T>, k: nat)
    requires 1 <= k <= |tail|
    ensures ([head] + tail)[k] == tail[k - 1]
  {
  }

  /** Behind a first element, dropping the last element drops the last element of the rest. */
  lemma ConsAllButLast<T>(head: T, tail: seq<T>)
    requires tail != []
    ensures ([head] + tail)[..|tail|] == [head] + tail[..|tail| - 1]
  {
  }

  /** All the lines of the pages, in page order. */
  function Flatten(pages: seq<Page>): seq<string>
  {
    if pages == [] then [] else pages[0].lines + Flatten(pages[1..])
  }

  /** Paging loses, adds and reorders nothing: the pages' lines, in page order, are the lines. */
  lemma {:induction false} PagesFlatten(lines: seq<string>, perPage: int, first: nat)
    ensures Flatten(Pages(lines, perPage, first)) == lines
    decreases |lines|
  {
    if perPage > 0 && |lines| > perPage {
      PagesFlatten(lines[perPage..], perPage, first + 1);
      assert lines == lines[..perPage] + lines[perPage..];
    }
  }

  /** The pages are numbered `first`, `first + 1`, ... in order, and each is named after its number. */
  predicate Numbered(pages: seq<Page>, first: nat)
  {
    forall k :: 0 <= k < |pages| ==> pages[k].number == first + k && pages[k].name == PageName(first + k)
  }

  /** Pages come out numbered from `first` on, in order, each named after its number. */
  lemma {:induction false} PagesNumbered(lines: seq<string>, perPage: int, first: nat)
    ensures Numbered(Pages(lines, perPage, first), first)
    decreases |lines|
  {
    if perPage > 0 && |lines| > perPage {
      PagesNumbered(lines[perPage..], perPage, first + 1);
      var head := Page(first, PageName(first), lines[..perPage]);
      var tail := Pages(lines[perPage..], perPage, first + 1);
      assert Pages(lines, perPage, first) == [head] + tail;
      NumberedCons(head, tail, first);
    }
  }

  lemma NumberedCons(head: Page, tail: seq<Page>, first: nat)
    requires head.number == first && head.name == PageName(first)
    requires Numbered(tail, first + 1)
    ensures Numbered([head] + tail, first)
  {
    var pages := [head] + tail;
    forall k | 1 <= k < |pages|
      ensures pages[k].number == first + k && pages[k].name == PageName(first + k)
    {
      ConsIndex(head, tail, k);
      assert tail[k - 1].number == (first + 1) + (k - 1) && tail[k - 1].name == PageName((first + 1) + (k - 1));
      assert (first + 1) + (k - 1) == first + k;
    }
  }

  /** Every page but the last holds exactly `perPage` lines, and the last holds 1 to `perPage`. */
  predicate FullPages(pages: seq<Page>, perPage: int)
  {
    && (forall k :: 0 <= k < |pages| - 1 ==> |pages[k].lines| == perPage)
    && (pages != [] ==> 1 <= |pages[|pages| - 1].lines| <= perPage)
  }

  /** With `perPage > 0`, every page but the last holds exactly `perPage` lines and the last holds 1 to `perPage`. */
  lemma {:induction false} PagesFull(lines: seq<string>, perPage: int, first: nat)
    requires perPage > 0
    ensures FullPages(Pages(lines, perPage, first), perPage)
    decreases |lines|
  {
    if |lines| > perPage {
      PagesFull(lines[perPage..], perPage, first + 1);
      var head := Page(first, PageName(first), lines[..perPage]);
      var tail := Pages(lines[perPage..], perPage, first + 1);
      assert Pages(lines, perPage, first) == [head] + tail;
      FullCons(head, tail, perPage);
    }
  }

  lemma FullCons(head: Page, tail: seq<Page>, perPage: int)
    requires |head.lines| == perPage && tail != [] && FullPages(tail, perPage)
    ensures FullPages([head] + tail, perPage)
  {
    var pages := [head] + tail;
    ConsIndex(head, tail, |tail|);
    forall k | 1 <= k < |pages| - 1
      ensures |pages[k].lines| == perPage
    {
      ConsIndex(head, tail, k);
    }
  }

  /** With `perPage <= 0` no page is ever closed: one page holds every line, and no line opens no page. */
  lemma PagesUnlimited(lines: seq<string>, perPage: int, first: nat)
    requires perPage <= 0
    ensures Pages(lines, perPage, first) == if lines == [] then [] else [Page(first, PageName(first), lines)]
  {
  }

  /** `c` pages of `p` lines are the fewest that hold `n` lines: `c` is `n / p` rounded up. */
  predicate CeilingCount(n: int, p: int, c: int)
    requires p > 0
  {
    (c - 1) * p < n <= c * p && c == (n + p - 1) / p
  }

  /** With `perPage > 0`, N lines fill ceil(N / perPage) pages. */
  lemma {:induction false} PagesCount(lines: seq<string>, perPage: int, first: nat)
    requires perPage > 0
    ensures CeilingCount(|lines|, perPage, |Pages(lines, perPage, first)|)
    decreases |lines|
  {
    if |lines| > perPage {
      var rest := lines[perPage..];
      PagesCount(rest, perPage, first + 1);
      CountStep(|lines|, perPage, |Pages(rest, perPage, first + 1)|);
    } else {
      CountBase(|lines|, perPage);
    }
  }

  lemma CountBase(n: nat, p: int)
    requires 0 < p && n <= p
    ensures CeilingCount(n, p, if n == 0 then 0 else 1)
  {
    CeilingDivision(n, p, if n == 0 then 0 else 1);
  }

  lemma CountStep(n: int, p: int, c: int)
    requires p > 0 && n >= 0 && CeilingCount(n - p, p, c)
    ensures CeilingCount(n, p, c + 1)
  {
    assert (c - 1) * p == c * p - p;
    assert (c + 1) * p == c * p + p;
    CeilingDivision(n, p, c + 1);
  }

  /** The one count `c` with `(c - 1) * p < n <= c * p` is `(n + p - 1) / p`. */
  lemma CeilingDivision(n: nat, p: int, c: int)
    requires p > 0 && (c - 1) * p < n <= c * p
    ensures c == (n + p - 1) / p
  {
    var q := (n + p - 1) / p;
    var r := (n + p - 1) % p;
    assert n + p - 1 == q * p + r && 0 <= r < p;
    assert (c - 1) * p == c * p - p && (q + 1) * p == q * p + p && (c + 1) * p == c * p + p;
    MultiplierLess(c, q + 1, p);
    MultiplierLess(q, c + 1, p);
  }

  lemma MultiplierLess(a: int, b: int, p: int)
    requires p > 0 && a * p < b * p
    ensures a < b
  {
    assert (b - a) * p == b * p - a * p;
  }

  /**
   * What the loop needs to know before printing line `i`: where Pages of one more line comes from,
   * and that the open page holds at least one line and, when pages close, fewer than a full page.
   */
  lemma NextLine(lines: seq<string>, i: nat, perPage: int)
    requires i < |lines|
    ensures Pages(lines[..i + 1], perPage, 1) == AddLine(Pages(lines[..i], perPage, 1), lines[i], perPage, 1)
    ensures var pages := Pages(lines[..i], perPage, 1);
      pages != [] ==> 1 <= |pages[|pages| - 1].lines| && (perPage > 0 ==> |pages[|pages| - 1].lines| <= perPage)
  {
    PagesSnoc(lines[..i], lines[i], perPage, 1);
    assert lines[..i + 1] == lines[..i] + [lines[i]];
    if perPage > 0 {
      PagesFull(lines[..i], perPage, 1);
    } else {
      PagesUnlimited(lines[..i], perPage, 1);
    }
  }

  /** The two ways the loop body prints a line: into a page it has just opened, or onto the open page. */
  lemma WriteLine(before: seq<Page>, line: string, perPage: int, after: seq<Page>)
    requires LastPageFull(before, perPage) ==>
      after == before + [Page(|before| + 1, PageName(|before| + 1), []).(lines := [] + [line])]
    requires !LastPageFull(before, perPage) ==>
      after == before[..|before| - 1] + [before[|before| - 1].(lines := before[|before| - 1].lines + [line])]
    ensures after == AddLine(before, line, perPage, 1)
  {
    assert [] + [line] == [line];
  }

  /** After a line is added, the open page holds one more line than the counter said, and it is full exactly when that reaches `perPage`. */
  lemma AddLineCounter(before: seq<Page>, line: string, perPage: int, imageCnt: nat)
    requires imageCnt == if LastPageFull(before, perPage) then 0 else |before[|before| - 1].lines|
    requires perPage > 0 ==> imageCnt < perPage
    ensures var after := AddLine(before, line, perPage, 1);
      && after != []
      && |after[|after| - 1].lines| == imageCnt + 1
      && (LastPageFull(after, perPage) <==> imageCnt + 1 == perPage)
  {
  }

  /**
   * The state of buildGalleryHTML's loop after `i` lines: the pages of those lines, the number the
   * next page gets, how many lines the open page holds (0 when none is open), and whether one is.
   */
  predicate Printed(lines: seq<string>, i: nat, perPage: int, pages: seq<Page>, pageCnt: int, imageCnt: int, open: bool)
  {
    && i <= |lines|
    && pages == Pages(lines[..i], perPage, 1)
    && pageCnt == |pages| + 1
    && imageCnt == (if LastPageFull(pages, perPage) then 0 else |pages[|pages| - 1].lines|)
    && (open <==> imageCnt != 0)
  }

  /**
   * One round of the loop: printing line `i` into the open page, or into a page opened for it, and
   * resetting the counter when it reaches `perPage`, leads from the state after `i` lines to the
   * state after `i + 1`.
   */
  lemma PrintStep(lines: seq<string>, i: nat, perPage: int, before: seq<Page>, imageCnt: int, after: seq<Page>)
    requires i < |lines| && Printed(lines, i, perPage, before, |before| + 1, imageCnt, imageCnt != 0)
    requires imageCnt == 0 ==>
      after == before + [Page(|before| + 1, PageName(|before| + 1), []).(lines := [] + [lines[i]])]
    requires imageCnt != 0 ==>
      after == before[..|before| - 1] + [before[|before| - 1].(lines := before[|before| - 1].lines + [lines[i]])]
    ensures var next := if imageCnt + 1 == perPage then 0 else imageCnt + 1;
      Printed(lines, i + 1, perPage, after, |after| + 1, next, next != 0)
  {
    NextLine(lines, i, perPage);
    WriteLine(before, lines[i], perPage, after);
    AddLineCounter(before, lines[i], perPage, imageCnt);
  }

  /**
   * buildGalleryHTML with the files kept in memory: opens a page whenever `imageCnt` is 0, prints
   * one line per pair into the open page, and closes the page once `photosPerPage` lines are in it.
   */
  method BuildGalleryHTML(imageList: seq<Pair>, captionMap: map<string, string>, photosPerPage: int) returns (pages: seq<Page>)
    ensures pages == Pages(Lines(imageList, captionMap), photosPerPage, 1)
  {
    ghost var lines := Lines(imageList, captionMap);
    var pageCnt := 1;
    var imageCnt := 0;
    var open := false;
    pages := [];
    for i := 0 to |imageList|
      invariant Printed(lines, i, photosPerPage, pages, pageCnt, imageCnt, open)
    {
      ghost var before := pages;
      ghost var count := imageCnt;
      if imageCnt == 0 {
        pages := pages + [Page(pageCnt, PageName(pageCnt), [])];
        pageCnt := pageCnt + 1;
        open := true;
      }
      if open {
        var line := ImgTag(imageList[i], captionMap);
        var last := pages[|pages| - 1];
        pages := pages[..|pages| - 1] + [last.(lines := last.lines + [line])];
      }
      imageCnt := imageCnt + 1;
      if imageCnt == photosPerPage {
        imageCnt := 0;
        open := false;
      }
      PrintStep(lines, i, photosPerPage, before, count, pages);
    }
    assert lines[..|imageList|] == lines;
  }
}
