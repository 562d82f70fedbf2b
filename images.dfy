/**
 * getImageList: the album's image files, sorted, with resized and highlight copies dropped,
 * taken two at a time as (image, thumbnail) pairs.
 */
module Images {
  import opened JavaLang
  import opened Filters

  /** An `ImmutablePair<String, String>`: the image on the left, its thumbnail on the right. */
  datatype Pair = Pair(left: string, right: string)

  // ---------------------------------------------------------------- the sort

  /** Ascending in `String.compareTo` order. */
  predicate Sorted(s: seq<string>)
  {
    forall i, j :: 0 <= i < j < |s| ==> LessEq(s[i], s[j])
  }

  lemma {:induction false} LessEqReflexive(a: string)
    ensures LessEq(a, a)
    decreases |a|
  {
    if a != [] {
      LessEqReflexive(a[1..]);
    }
  }

  /** Inserts `x` into a sorted sequence, before the first element it is not above. */
  function Insert(x: string, s: seq<string>): seq<string>
  {
    if s == [] then [x]
    else if LessEq(x, s[0]) then [x] + s
    else [s[0]] + Insert(x, s[1..])
  }

  /** The names in ascending order (an insertion sort). */
  function SortedNames(names: seq<string>): seq<string>
  {
    if names == [] then [] else Insert(names[0], SortedNames(names[1..]))
  }

  lemma SortedCons(h: string, t: seq<string>)
    requires Sorted(t) && forall y :: y in t ==> LessEq(h, y)
    ensures Sorted([h] + t)
  {
    forall i, j | 0 <= i < j < |[h] + t|
      ensures LessEq(([h] + t)[i], ([h] + t)[j])
    {
      if i == 0 {
        assert ([h] + t)[j] == t[j - 1];
        assert t[j - 1] in t;
      }
    }
  }

  lemma {:induction false} InsertSortedPermutation(x: string, s: seq<string>)
    requires Sorted(s)
    ensures Sorted(Insert(x, s))
    ensures multiset(Insert(x, s)) == multiset(s) + multiset{x}
    decreases |s|
  {
    if s == [] {
    } else if LessEq(x, s[0]) {
      InsertAtFront(x, s);
      assert Insert(x, s) == [x] + s;
    } else {
      var t := s[1..];
      SortedTail(s);
      InsertSortedPermutation(x, t);
      InsertBehindHead(x, s, Insert(x, t));
      assert Insert(x, s) == [s[0]] + Insert(x, t);
      assert s == [s[0]] + t;
    }
  }

  /** A name not above the head of a sorted sequence can go in front of it. */
  lemma InsertAtFront(x: string, s: seq<string>)
    requires Sorted(s) && s != [] && LessEq(x, s[0])
    ensures Sorted([x] + s)
  {
    forall y | y in s
      ensures LessEq(x, y)
    {
      SortedHead(s, y);
      LessEqTransitive(x, s[0], y);
    }
    SortedCons(x, s);
  }

  /** A name above the head goes into the tail; the head stays in front of the result. */
  lemma InsertBehindHead(x: string, s: seq<string>, u: seq<string>)
    requires Sorted(s) && s != [] && !LessEq(x, s[0])
    requires Sorted(u) && multiset(u) == multiset(s[1..]) + multiset{x}
    ensures Sorted([s[0]] + u)
  {
    forall y | y in u
      ensures LessEq(s[0], y)
    {
      assert y in multiset(u);
      if y == x {
        LessEqTotal(x, s[0]);
      } else {
        assert y in multiset(s[1..]);
        assert y in s;
        SortedHead(s, y);
      }
    }
    SortedCons(s[0], u);
  }

  /** SortedNames puts the names in ascending order and keeps every name, as often as it occurs. */
  lemma {:induction false} SortedNamesSortedPermutation(names: seq<string>)
    ensures Sorted(SortedNames(names))
    ensures multiset(SortedNames(names)) == multiset(names)
  {
    if names != [] {
      SortedNamesSortedPermutation(names[1..]);
      InsertSortedPermutation(names[0], SortedNames(names[1..]));
      assert names == [names[0]] + names[1..];
    }
  }

  lemma SortedTail(s: seq<string>)
    requires Sorted(s) && s != []
    ensures Sorted(s[1..])
  {
    forall i, j | 0 <= i < j < |s[1..]|
      ensures LessEq(s[1..][i], s[1..][j])
    {
      assert s[1..][i] == s[i + 1] && s[1..][j] == s[j + 1];
    }
  }

  /** The first element of a sorted sequence is below every element. */
  lemma SortedHead(s: seq<string>, y: string)
    requires Sorted(s) && y in s
    ensures LessEq(s[0], y)
  {
    var j :| 0 <= j < |s| && s[j] == y;
    if j == 0 {
      LessEqReflexive(y);
    }
  }

  /** Two sorted arrangements of the same names start with the same name. */
  lemma SameHead(a: seq<string>, b: seq<string>)
    requires Sorted(a) && Sorted(b) && multiset(a) == multiset(b) && a != []
    ensures b != [] && a[0] == b[0]
  {
    assert a[0] in multiset(a);
    assert a[0] in b;
    assert b[0] in multiset(a);
    SortedHead(b, a[0]);
    SortedHead(a, b[0]);
    LessEqAntisymmetric(a[0], b[0]);
  }

  /** Taking the same first element off two sequences with equal multisets leaves equal multisets. */
  lemma SameTailMultiset(a: seq<string>, b: seq<string>)
    requires a != [] && b != [] && a[0] == b[0] && multiset(a) == multiset(b)
    ensures multiset(a[1..]) == multiset(b[1..])
  {
    assert a == [a[0]] + a[1..] && b == [b[0]] + b[1..];
    assert multiset(a[1..]) == multiset(a) - multiset{a[0]};
    assert multiset(b[1..]) == multiset(b) - multiset{b[0]};
  }

  /**
   * A sorted arrangement of a collection of names is unique, so any correct sort, the library's
   * `Arrays.sort` included, returns SortedNames.
   */
  lemma {:induction false} SortedUnique(a: seq<string>, b: seq<string>)
    requires Sorted(a) && Sorted(b) && multiset(a) == multiset(b)
    ensures a == b
    decreases |a|
  {
    if a != [] {
      SameHead(a, b);
      SameTailMultiset(a, b);
      SortedTail(a);
      SortedTail(b);
      SortedUnique(a[1..], b[1..]);
      assert a == [a[0]] + a[1..] && b == [b[0]] + b[1..];
    }
  }

  // ---------------------------------------------------------------- listing and weeding

  /** `dir.list(new ImgFilter())`: the image file names, in listing order. */
  function ImageFiles(dirEntries: seq<string>): (names: seq<string>)
    ensures forall x :: x in names <==> x in dirEntries && AcceptImg(x)
  {
    if dirEntries == [] then []
    else (if AcceptImg(dirEntries[0]) then [dirEntries[0]] else []) + ImageFiles(dirEntries[1..])
  }

  /** The name is neither a resized copy nor a highlight copy (case ignored). */
  predicate Plain(fileName: string)
  {
    IndexOf(ToLowerCase(fileName), "sized") < 0 && IndexOf(ToLowerCase(fileName), "highlight") < 0
  }

  /** The names kept by getImageList's first loop, in order. */
  function WeedOut(fileNames: seq<string>): (temp: seq<string>)
    ensures forall x :: x in temp <==> x in fileNames && Plain(x)
  {
    if fileNames == [] then []
    else WeedOut(fileNames[..|fileNames| - 1]) + (if Plain(fileNames[|fileNames| - 1]) then [fileNames[|fileNames| - 1]] else [])
  }

  /** One round of the first loop: the next name is kept exactly when it is plain. */
  lemma WeedOutStep(fileNames: seq<string>, i: nat)
    requires i < |fileNames|
    ensures WeedOut(fileNames[..i + 1])
      == WeedOut(fileNames[..i]) + (if Plain(fileNames[i]) then [fileNames[i]] else [])
  {
    assert fileNames[..i + 1][..i] == fileNames[..i];
  }

  // ---------------------------------------------------------------- pairing

  /** The right name of a pair counts as a thumbnail: `thumb` occurs in it, case ignored, at an index above 0. */
  predicate IsThumb(right: string)
  {
    IndexOf(ToLowerCase(right), "thumb") > 0
  }

  /** getImageList's second loop: names two at a time, keeping the pairs whose right name is a thumbnail. */
  function PairUp(t: seq<string>): seq<Pair>
  {
    if |t| < 2 then []
    else (if IsThumb(t[1]) then [Pair(t[0], t[1])] else []) + PairUp(t[2..])
  }

  /** One round of the second loop, from index `i`. */
  lemma PairUpStep(t: seq<string>, i: nat)
    requires i + 2 <= |t|
    ensures PairUp(t[i..]) == (if IsThumb(t[i + 1]) then [Pair(t[i], t[i + 1])] else []) + PairUp(t[i + 2..])
  {
    assert t[i..][2..] == t[i + 2..];
  }

  /** One round of the second loop keeps the invariant: what is collected plus the pairs still ahead is all the pairs. */
  lemma PairUpRound(t: seq<string>, i: nat, before: seq<Pair>, after: seq<Pair>)
    requires i + 2 <= |t|
    requires after == if IsThumb(t[i + 1]) then before + [Pair(t[i], t[i + 1])] else before
    ensures before + PairUp(t[i..]) == after + PairUp(t[i + 2..])
  {
    var kept := if IsThumb(t[i + 1]) then [Pair(t[i], t[i + 1])] else [];
    PairUpStep(t, i);
    AppendAssociative(before, kept, PairUp(t[i + 2..]));
    assert after == before + kept;
  }

  /** The pairs the second loop looks at: (t[2k], t[2k+1]) for every k, in increasing k. */
  function Candidates(t: seq<string>): (c: seq<Pair>)
    ensures |c| == |t| / 2
  {
    seq(|t| / 2, k requires 0 <= k < |t| / 2 => Pair(t[2 * k], t[2 * k + 1]))
  }

  /** The candidates whose right name is a thumbnail, in order. */
  function KeepThumbs(c: seq<Pair>): (kept: seq<Pair>)
    ensures |kept| <= |c|
    ensures forall p :: p in kept <==> p in c && IsThumb(p.right)
  {
    if c == [] then []
    else (if IsThumb(c[0].right) then [c[0]] else []) + KeepThumbs(c[1..])
  }

  /**
   * The pairs are the candidate pairs (t[2k], t[2k+1]) whose right name is a thumbnail, in increasing
   * k: a failed pair drops both names, a lone last name is dropped, and there are at most |t|/2 pairs.
   */
  lemma {:induction false} PairUpIsKeepThumbs(t: seq<string>)
    ensures PairUp(t) == KeepThumbs(Candidates(t))
    ensures |PairUp(t)| <= |t| / 2
    decreases |t|
  {
    if |t| >= 2 {
      PairUpIsKeepThumbs(t[2..]);
      var c := Candidates(t);
      CandidatesTail(t);
      assert KeepThumbs(c) == (if IsThumb(c[0].right) then [c[0]] else []) + KeepThumbs(c[1..]);
    }
  }

  /** Dropping the first two names drops the first candidate pair. */
  lemma CandidatesTail(t: seq<string>)
    requires |t| >= 2
    ensures Candidates(t)[0] == Pair(t[0], t[1])
    ensures Candidates(t)[1..] == Candidates(t[2..])
  {
    var c, d := Candidates(t), Candidates(t[2..]);
    assert |c[1..]| == |d|;
    forall k | 0 <= k < |d|
      ensures c[1..][k] == d[k]
    {
      assert c[1..][k] == c[k + 1];
    }
  }

  /** What getImageList returns for a directory listing. */
  function ImageListSpec(dirEntries: seq<string>): seq<Pair>
  {
    PairUp(WeedOut(SortedNames(ImageFiles(dirEntries))))
  }

  /**
   * Every pair holds two listed image names, neither a resized nor a highlight copy, with a
   * thumbnail on the right.
   */
  lemma ImageListPairs(dirEntries: seq<string>)
    ensures forall p :: p in ImageListSpec(dirEntries) ==>
      && p.left in dirEntries && AcceptImg(p.left) && Plain(p.left)
      && p.right in dirEntries && AcceptImg(p.right) && Plain(p.right)
      && IsThumb(p.right)
  {
    var t := WeedOut(SortedNames(ImageFiles(dirEntries)));
    forall p | p in PairUp(t)
      ensures p.left in dirEntries && AcceptImg(p.left) && Plain(p.left)
      ensures p.right in dirEntries && AcceptImg(p.right) && Plain(p.right)
      ensures IsThumb(p.right)
    {
      PairOfNames(t, p);
      KeptIsListed(dirEntries, p.left);
      KeptIsListed(dirEntries, p.right);
    }
  }

  /** A pair is made of two of the names, with a thumbnail on the right. */
  lemma {:induction false} PairOfNames(t: seq<string>, p: Pair)
    requires p in PairUp(t)
    ensures p.left in t && p.right in t && IsThumb(p.right)
    decreases |t|
  {
    var head := if IsThumb(t[1]) then [Pair(t[0], t[1])] else [];
    assert PairUp(t) == head + PairUp(t[2..]);
    if p !in head {
      PairOfNames(t[2..], p);
      assert p.left in t[2..] && p.right in t[2..];
    }
  }

  /** A name that survives the first loop is a listed image name that is neither resized nor a highlight. */
  lemma KeptIsListed(dirEntries: seq<string>, x: string)
    requires x in WeedOut(SortedNames(ImageFiles(dirEntries)))
    ensures x in dirEntries && AcceptImg(x) && Plain(x)
  {
    var files := ImageFiles(dirEntries);
    SortedNamesSortedPermutation(files);
    assert x in multiset(SortedNames(files));
    assert x in multiset(files);
  }

  lemma {:induction false} ImageFilesMultiset(dirEntries: seq<string>, x: string)
    ensures multiset(ImageFiles(dirEntries))[x] == if AcceptImg(x) then multiset(dirEntries)[x] else 0
  {
    if dirEntries != [] {
      ImageFilesMultiset(dirEntries[1..], x);
      assert dirEntries == [dirEntries[0]] + dirEntries[1..];
    }
  }

  /** The order in which the directory lists its files does not change the result. */
  lemma ImageListIgnoresListingOrder(a: seq<string>, b: seq<string>)
    requires multiset(a) == multiset(b)
    ensures ImageListSpec(a) == ImageListSpec(b)
  {
    forall x
      ensures multiset(ImageFiles(a))[x] == multiset(ImageFiles(b))[x]
    {
      ImageFilesMultiset(a, x);
      ImageFilesMultiset(b, x);
    }
    assert multiset(ImageFiles(a)) == multiset(ImageFiles(b));
    SortedNamesSortedPermutation(ImageFiles(a));
    SortedNamesSortedPermutation(ImageFiles(b));
    SortedUnique(SortedNames(ImageFiles(a)), SortedNames(ImageFiles(b)));
  }

  // ---------------------------------------------------------------- getImageList

  /**
   * getImageList, given the names the directory lists: sorts the image names, weeds out resized and
   * highlight copies, then pairs the rest two at a time.
   */
  method GetImageList(dirEntries: seq<string>) returns (imageList: seq<Pair>)
    ensures imageList == ImageListSpec(dirEntries)
  {
    var fileNames := SortedNames(ImageFiles(dirEntries));
    var temp := WeedOutNames(fileNames);
    imageList := PairNames(temp);
  }

  /** getImageList's first loop: keeps the names that are neither resized nor highlight copies, in order. */
  method WeedOutNames(fileNames: seq<string>) returns (temp: seq<string>)
    ensures temp == WeedOut(fileNames)
  {
    temp := [];
    for i := 0 to |fileNames|
      invariant temp == WeedOut(fileNames[..i])
    {
      WeedOutStep(fileNames, i);
      var lower := ToLowerCase(fileNames[i]);
      if IndexOf(lower, "sized") < 0 && IndexOf(lower, "highlight") < 0 {
        temp := temp + [fileNames[i]];
      }
    }
    assert fileNames[..|fileNames|] == fileNames;
  }

  /** getImageList's second loop: takes the names two at a time and keeps the pairs with a thumbnail on the right. */
  method PairNames(temp: seq<string>) returns (imageList: seq<Pair>)
    ensures imageList == PairUp(temp)
  {
    imageList := [];
    var ix := 0;
    while ix < |temp|
      invariant ix <= |temp|
      invariant imageList + PairUp(temp[ix..]) == PairUp(temp)
    {
      var left := temp[ix];
      ix := ix + 1;
      if ix < |temp| {
        var right := temp[ix];
        ix := ix + 1;
        ghost var before := imageList;
        if IndexOf(ToLowerCase(right), "thumb") > 0 {
          imageList := imageList + [Pair(left, right)];
        }
        PairUpRound(temp, ix - 2, before, imageList);
      } else {
        assert PairUp(temp[ix - 1..]) == [] == PairUp(temp[ix..]);
      }
    }
  }
}
