/**
 * The pieces of java.lang.String, java.lang.Integer and java.util.Formatter that the gallery
 * builder calls, stated on `seq<char>`. Indices are Java's: -1 means "not found".
 */
module JavaLang {
  import opened Wrappers

  const INT_MIN: int := -0x8000_0000
  const INT_MAX: int := 0x7fff_ffff

  /** Java `int` addition: the mathematical sum wrapped into 32 bits. */
  function AddInt32(a: int, b: int): (r: int)
    requires INT_MIN <= a <= INT_MAX && INT_MIN <= b <= INT_MAX
    ensures INT_MIN <= r <= INT_MAX
    ensures INT_MIN <= a + b <= INT_MAX ==> r == a + b
    ensures a + b > INT_MAX ==> r == a + b - 0x1_0000_0000
  {
    if a + b > INT_MAX then a + b - 0x1_0000_0000
    else if a + b < INT_MIN then a + b + 0x1_0000_0000
    else a + b
  }

  // ---------------------------------------------------------------- searching

  /** `pat` occurs in `s` starting at index `k`. */
  predicate OccursAt(s: string, pat: string, k: int)
  {
    0 <= k && k + |pat| <= |s| && s[k..k + |pat|] == pat
  }

  /** The index a Java search that is asked to start at `from` really starts at. */
  function SearchStart(from: int, n: nat): nat
  {
    if from < 0 then 0 else if from > n then n else from
  }

  /** `s.indexOf(pat, from)`: the first occurrence of `pat` at or after `from`, or -1 if none. */
  function IndexOfFrom(s: string, pat: string, from: int): (k: int)
    ensures k == -1 || (SearchStart(from, |s|) <= k && OccursAt(s, pat, k))
    ensures forall j :: SearchStart(from, |s|) <= j && (k == -1 || j < k) ==> !OccursAt(s, pat, j)
    decreases if from < 0 then |s| + 1 else |s| - from
  {
    if from < 0 then IndexOfFrom(s, pat, 0)
    else if from >= |s| then (if |pat| == 0 then |s| else -1)
    else if OccursAt(s, pat, from) then from
    else IndexOfFrom(s, pat, from + 1)
  }

  /** `s.indexOf(pat)`. */
  function IndexOf(s: string, pat: string): int
  {
    IndexOfFrom(s, pat, 0)
  }

  /** indexOf gives -1 or an index. */
  lemma IndexOfAtLeast(s: string, pat: string)
    ensures IndexOf(s, pat) >= -1
  {
  }

  /** Any string occurs at index 0 of itself followed by anything, so the empty string is found at 0. */
  lemma IndexOfEmpty(s: string)
    ensures IndexOf(s, []) == 0
  {
    assert OccursAt(s, [], 0);
  }

  /** An occurrence with none before it is what indexOf finds. */
  lemma IndexOfIs(s: string, pat: string, k: nat)
    requires OccursAt(s, pat, k)
    requires forall j :: 0 <= j < k ==> !OccursAt(s, pat, j)
    ensures IndexOf(s, pat) == k
  {
  }

  /** A first occurrence stays the first occurrence when text is appended. */
  lemma IndexOfExtend(s: string, t: string, pat: string)
    requires IndexOf(s, pat) >= 0
    ensures IndexOf(s + t, pat) == IndexOf(s, pat)
  {
    var k := IndexOf(s, pat);
    assert (s + t)[k..k + |pat|] == s[k..k + |pat|];
    forall j | 0 <= j < k
      ensures !OccursAt(s + t, pat, j)
    {
      assert !OccursAt(s, pat, j);
      if j + |pat| <= |s + t| {
        assert (s + t)[j..j + |pat|] == s[j..j + |pat|];
      }
    }
    IndexOfIs(s + t, pat, k);
  }

  /** `s.substring(begin, end)`, which throws unless `0 <= begin <= end <= s.length()`. */
  function Substring(s: string, begin: int, end: int): (r: Result<string>)
    ensures r.Ok? <==> 0 <= begin <= end <= |s|
    ensures r.Ok? ==> |r.value| == end - begin && s[begin..end] == r.value
    ensures r.Throw? ==> r.exception == StringIndexOutOfBounds
  {
    if 0 <= begin <= end <= |s| then Ok(s[begin..end]) else Throw(StringIndexOutOfBounds)
  }

  lemma AppendAssociative<T>(a: seq<T>, b: seq<T>, c: seq<T>)
    ensures (a + b) + c == a + (b + c)
  {
  }

  /** A suffix is the slice up to any later index followed by the suffix from there. */
  lemma SuffixSplit(s: string, i: nat, j: nat)
    requires i <= j <= |s|
    ensures s[i..] == s[i..j] + s[j..]
  {
  }

  lemma SliceOfSlice(s: string, i: nat, j: nat, k: nat, l: nat)
    requires i <= j <= |s| && k <= l <= j - i
    ensures s[i..j][k..l] == s[i + k..i + l]
  {
    assert forall t :: 0 <= t < l - k ==> s[i..j][k..l][t] == s[i + k + t];
  }

  predicate StartsWith(s: string, prefix: string)
  {
    |prefix| <= |s| && s[..|prefix|] == prefix
  }

  predicate EndsWith(s: string, suffix: string)
  {
    |suffix| <= |s| && s[|s| - |suffix|..] == suffix
  }

  // ---------------------------------------------------------------- case

  /** ASCII lower case of one character. */
  function LowerChar(c: char): char
  {
    if 'A' <= c <= 'Z' then (c as int - 'A' as int + 'a' as int) as char else c
  }

  /** `s.toLowerCase()`, restricted to the ASCII letters. */
  function ToLowerCase(s: string): (r: string)
    ensures |r| == |s|
  {
    seq(|s|, i requires 0 <= i < |s| => LowerChar(s[i]))
  }

  lemma ToLowerCaseAppend(a: string, b: string)
    ensures ToLowerCase(a + b) == ToLowerCase(a) + ToLowerCase(b)
  {
    assert forall i :: 0 <= i < |a + b| ==> ToLowerCase(a + b)[i] == (ToLowerCase(a) + ToLowerCase(b))[i];
  }

  // ---------------------------------------------------------------- replaceAll

  /**
   * `s.replaceAll(target, replacement)` for a pattern and a replacement without regular-expression
   * metacharacters: every leftmost, non-overlapping occurrence of `target` is replaced.
   */
  function ReplaceAll(s: string, target: string, replacement: string): string
    requires target != []
    decreases |s|
  {
    var k := IndexOf(s, target);
    if k < 0 then s else s[..k] + replacement + ReplaceAll(s[k + |target|..], target, replacement)
  }

  /** A replacement that only changes letter case leaves the length and the lower-cased text alone. */
  lemma {:induction false} ReplaceAllChangesCaseOnly(s: string, target: string, replacement: string)
    requires target != [] && |replacement| == |target|
    requires ToLowerCase(replacement) == ToLowerCase(target)
    ensures |ReplaceAll(s, target, replacement)| == |s|
    ensures ToLowerCase(ReplaceAll(s, target, replacement)) == ToLowerCase(s)
    decreases |s|
  {
    var k := IndexOf(s, target);
    if k >= 0 {
      var rest := s[k + |target|..];
      ReplaceAllChangesCaseOnly(rest, target, replacement);
      var r := ReplaceAll(rest, target, replacement);
      assert s == s[..k] + target + rest;
      ToLowerCaseAppend(s[..k] + replacement, r);
      ToLowerCaseAppend(s[..k], replacement);
      ToLowerCaseAppend(s[..k] + target, rest);
      ToLowerCaseAppend(s[..k], target);
    }
  }

  /** One step of replaceAll: the text up to the first occurrence, the replacement, and the rest replaced. */
  lemma ReplaceAllFirst(s: string, target: string, replacement: string) returns (k: int)
    requires target != []
    ensures k == IndexOf(s, target)
    ensures k < 0 ==> ReplaceAll(s, target, replacement) == s
    ensures k >= 0 ==> OccursAt(s, target, k)
    ensures k >= 0 ==>
      ReplaceAll(s, target, replacement) == s[..k] + replacement + ReplaceAll(s[k + |target|..], target, replacement)
  {
    k := IndexOf(s, target);
    if k >= 0 {
      assert OccursAt(s, target, k);
    }
  }

  /** A replacement as long as the target keeps the length of the text. */
  lemma {:induction false} ReplaceAllLength(s: string, target: string, replacement: string)
    requires target != [] && |replacement| == |target|
    ensures |ReplaceAll(s, target, replacement)| == |s|
    decreases |s|
  {
    var k := ReplaceAllFirst(s, target, replacement);
    if k >= 0 {
      ReplaceAllLength(s[k + |target|..], target, replacement);
    }
  }

  /** Before the first occurrence, replaceAll keeps the text. */
  lemma ReplaceAllBefore(s: string, target: string, replacement: string, i: nat)
    requires target != [] && |replacement| == |target|
    requires i < IndexOf(s, target)
    ensures |ReplaceAll(s, target, replacement)| == |s|
    ensures ReplaceAll(s, target, replacement)[i] == s[i]
  {
    var k := ReplaceAllFirst(s, target, replacement);
    ReplaceAllLength(s, target, replacement);
  }

  /** Over the first occurrence, replaceAll puts the replacement. */
  lemma ReplaceAllOver(s: string, target: string, replacement: string, i: nat)
    requires target != [] && |replacement| == |target|
    requires 0 <= IndexOf(s, target) <= i < IndexOf(s, target) + |target|
    ensures |ReplaceAll(s, target, replacement)| == |s|
    ensures ReplaceAll(s, target, replacement)[i] == replacement[i - IndexOf(s, target)]
  {
    var k := IndexOf(s, target);
    var r := ReplaceAll(s[k + |target|..], target, replacement);
    assert ReplaceAll(s, target, replacement) == (s[..k] + replacement) + r;
    ReplaceAllLength(s, target, replacement);
  }

  /** Behind the first occurrence, which ends at `d`, replaceAll is the rest `s[d..]` replaced on its own. */
  lemma ReplaceAllBehind(s: string, target: string, replacement: string, d: nat, x: nat)
    requires target != [] && |replacement| == |target|
    requires 0 <= IndexOf(s, target) && d == IndexOf(s, target) + |target| && d + x < |s|
    ensures |ReplaceAll(s, target, replacement)| == |s|
    ensures |ReplaceAll(s[d..], target, replacement)| == |s| - d
    ensures ReplaceAll(s, target, replacement)[d + x] == ReplaceAll(s[d..], target, replacement)[x]
  {
    ReplaceAllLength(s, target, replacement);
    ReplaceAllLength(s[d..], target, replacement);
  }

  /**
   * With a replacement as long as the target, every character that no occurrence of the target
   * covers comes through unchanged at its own index.
   */
  lemma {:induction false} ReplaceAllKeepsOutside(s: string, target: string, replacement: string, i: nat)
    requires target != [] && |replacement| == |target| && i < |s|
    requires forall k :: k <= i < k + |target| ==> !OccursAt(s, target, k)
    ensures |ReplaceAll(s, target, replacement)| == |s|
    ensures ReplaceAll(s, target, replacement)[i] == s[i]
    decreases |s|
  {
    var k := ReplaceAllFirst(s, target, replacement);
    ReplaceAllLength(s, target, replacement);
    if k >= 0 {
      var d := k + |target|;
      if i >= d {
        ReplaceAllBehind(s, target, replacement, d, i - d);
        UncoveredInRest(s, target, d, i - d);
        ReplaceAllKeepsOutside(s[d..], target, replacement, i - d);
      } else {
        ReplaceAllBefore(s, target, replacement, i);
      }
    }
  }

  /**
   * With a replacement as long as the target, and a target whose first character appears
   * nowhere else in it, every occurrence of the target is replaced where it stands.
   */
  lemma ReplaceAllReplaces(s: string, target: string, replacement: string, k: nat)
    requires target != [] && |replacement| == |target|
    requires forall x :: 0 < x < |target| ==> target[x] != target[0]
    requires OccursAt(s, target, k)
    ensures |ReplaceAll(s, target, replacement)| == |s|
    ensures ReplaceAll(s, target, replacement)[k..k + |replacement|] == replacement
  {
    ReplaceAllLength(s, target, replacement);
    var u := ReplaceAll(s, target, replacement)[k..k + |replacement|];
    forall j | 0 <= j < |replacement|
      ensures u[j] == replacement[j]
    {
      ReplaceAllReplacesAt(s, target, replacement, k, j);
    }
  }

  /** One character of ReplaceAllReplaces: the `j`-th character of the occurrence at `k`. */
  lemma {:induction false} ReplaceAllReplacesAt(s: string, target: string, replacement: string, k: nat, j: nat)
    requires target != [] && |replacement| == |target|
    requires forall x :: 0 < x < |target| ==> target[x] != target[0]
    requires OccursAt(s, target, k) && j < |replacement|
    ensures |ReplaceAll(s, target, replacement)| == |s|
    ensures ReplaceAll(s, target, replacement)[k + j] == replacement[j]
    decreases |s|, 1
  {
    IndexOfNoLater(s, target, k);
    var first := IndexOf(s, target);
    if first == k {
      ReplaceAllOver(s, target, replacement, k + j);
    } else {
      var d := first + |target|;
      OccurrencesApart(s, target, first, k);
      OccursInRest(s, target, d, k - d);
      ReplaceAllReplacesBehind(s, target, replacement, d, k - d, j);
    }
  }

  /** ReplaceAllReplacesAt for an occurrence at `k` of the rest `s[d..]` behind the first occurrence. */
  lemma {:induction false} ReplaceAllReplacesBehind(s: string, target: string, replacement: string, d: nat, k: nat, j: nat)
    requires target != [] && |replacement| == |target|
    requires forall x :: 0 < x < |target| ==> target[x] != target[0]
    requires 0 <= IndexOf(s, target) && d == IndexOf(s, target) + |target| <= |s|
    requires OccursAt(s[d..], target, k) && j < |replacement|
    ensures |ReplaceAll(s, target, replacement)| == |s|
    ensures ReplaceAll(s, target, replacement)[d + k + j] == replacement[j]
    decreases |s|, 0
  {
    ReplaceAllReplacesAt(s[d..], target, replacement, k, j);
    ReplaceAllBehind(s, target, replacement, d, k + j);
  }

  /** An occurrence at `d + i` is an occurrence at `i` of the suffix `s[d..]`. */
  lemma OccursInRest(s: string, pat: string, d: nat, i: nat)
    requires OccursAt(s, pat, d + i)
    ensures OccursAt(s[d..], pat, i)
  {
    OccursShift(s, pat, d, i);
  }

  /** indexOf finds an occurrence at `k` or an earlier one. */
  lemma IndexOfNoLater(s: string, pat: string, k: nat)
    requires OccursAt(s, pat, k)
    ensures 0 <= IndexOf(s, pat) <= k
  {
  }

  /** Two occurrences of a target whose first character appears nowhere else in it do not overlap. */
  lemma OccurrencesApart(s: string, target: string, i: nat, k: nat)
    requires target != [] && forall x :: 0 < x < |target| ==> target[x] != target[0]
    requires i < k && OccursAt(s, target, i) && OccursAt(s, target, k)
    ensures i + |target| <= k
  {
    assert s[k] == s[k..k + |target|][0] == target[0];
    assert forall j :: i <= j < i + |target| ==> s[j] == target[j - i];
  }

  /** A character no occurrence covers in `s` is covered by none in the suffix `s[d..]` either. */
  lemma UncoveredInRest(s: string, target: string, d: nat, j: nat)
    requires d + j < |s|
    requires forall k :: k <= d + j < k + |target| ==> !OccursAt(s, target, k)
    ensures forall k :: k <= j < k + |target| ==> !OccursAt(s[d..], target, k)
  {
    forall k | k <= j < k + |target|
      ensures !OccursAt(s[d..], target, k)
    {
      if k >= 0 {
        OccursShift(s, target, d, k);
      }
    }
  }

  /** An occurrence in the suffix `s[d..]` is an occurrence in `s`, `d` places further on, and back. */
  lemma OccursShift(s: string, pat: string, d: nat, i: nat)
    requires d <= |s|
    ensures OccursAt(s[d..], pat, i) <==> OccursAt(s, pat, d + i)
  {
    if i + |pat| <= |s| - d {
      SliceOfSlice(s, d, |s|, i, i + |pat|);
    }
  }

  /** Text before the first occurrence of the target comes through unchanged. */
  lemma ReplaceAllKeepsPrefix(s: string, target: string, replacement: string, n: nat)
    requires target != [] && n <= |s|
    requires forall j :: 0 <= j < n ==> !OccursAt(s, target, j)
    ensures n <= |ReplaceAll(s, target, replacement)| && ReplaceAll(s, target, replacement)[..n] == s[..n]
  {
    var k := IndexOf(s, target);
    if k >= 0 {
      assert n <= k;
      var tail := replacement + ReplaceAll(s[k + |target|..], target, replacement);
      assert ReplaceAll(s, target, replacement) == s[..k] + tail;
      PrefixOfConcat(s[..k], tail, n);
    }
  }

  /** The first `n` elements of a concatenation whose first part has at least `n` come from that part. */
  lemma PrefixOfConcat<T>(a: seq<T>, b: seq<T>, n: nat)
    requires n <= |a|
    ensures n <= |a + b| && (a + b)[..n] == a[..n]
  {
  }

  /** A string without any occurrence of the target is left as it is. */
  lemma ReplaceAllAbsent(s: string, target: string, replacement: string)
    requires target != [] && IndexOf(s, target) < 0
    ensures ReplaceAll(s, target, replacement) == s
  {
  }

  // ---------------------------------------------------------------- split(":")

  /** All the fields of `s` between occurrences of `sep`, empty ones included. */
  function Fields(s: string, sep: char): (fields: seq<string>)
    ensures |fields| >= 1
    decreases |s|
  {
    var k := IndexOf(s, [sep]);
    if k < 0 then [s] else [s[..k]] + Fields(s[k + 1..], sep)
  }

  /** Joins fields with the separator between them. */
  function Join(fields: seq<string>, sep: char): string
  {
    if |fields| == 0 then []
    else if |fields| == 1 then fields[0]
    else fields[0] + [sep] + Join(fields[1..], sep)
  }

  /** `sep` occurs nowhere in `s`. */
  predicate Free(s: string, sep: char)
  {
    forall i :: 0 <= i < |s| ==> s[i] != sep
  }

  /** Searching for one character: the index found holds it, and nothing before it from the start does. */
  lemma CharSearch(s: string, c: char, from: int)
    ensures var k := IndexOfFrom(s, [c], from);
      && (k >= 0 ==> SearchStart(from, |s|) <= k < |s| && s[k] == c)
      && forall i :: SearchStart(from, |s|) <= i < |s| && (k < 0 || i < k) ==> s[i] != c
  {
    var k := IndexOfFrom(s, [c], from);
    forall i | SearchStart(from, |s|) <= i < |s| && (k < 0 || i < k)
      ensures s[i] != c
    {
      assert !OccursAt(s, [c], i);
      assert s[i..i + 1] == [s[i]];
    }
    if k >= 0 {
      assert s[k] == s[k..k + 1][0] == c;
    }
  }

  lemma CharNotFound(s: string, c: char)
    ensures IndexOf(s, [c]) < 0 <==> Free(s, c)
    ensures IndexOf(s, [c]) >= 0 ==> s[IndexOf(s, [c])] == c && Free(s[..IndexOf(s, [c])], c)
  {
    CharSearch(s, c, 0);
  }

  /** Fields round-trips: joining the fields gives back the string, and no field holds the separator. */
  lemma {:induction false} FieldsJoin(s: string, sep: char)
    ensures Join(Fields(s, sep), sep) == s
    ensures forall f :: f in Fields(s, sep) ==> Free(f, sep)
    decreases |s|
  {
    var k := IndexOf(s, [sep]);
    CharNotFound(s, sep);
    if k >= 0 {
      var rest := Fields(s[k + 1..], sep);
      FieldsJoin(s[k + 1..], sep);
      assert Fields(s, sep) == [s[..k]] + rest;
      JoinCons(s[..k], rest, sep);
      assert s == s[..k] + [sep] + s[k + 1..];
    }
  }

  /** Joining a first field onto more fields puts the separator between it and the rest joined. */
  lemma JoinCons(field: string, rest: seq<string>, sep: char)
    requires rest != []
    ensures Join([field] + rest, sep) == field + [sep] + Join(rest, sep)
  {
    assert ([field] + rest)[1..] == rest;
  }

  /** A separator-free prefix followed by the separator is exactly the first field. */
  lemma FieldsOfLayout(a: string, sep: char, rest: string)
    requires Free(a, sep)
    ensures Fields(a + [sep] + rest, sep) == [a] + Fields(rest, sep)
  {
    var s := a + [sep] + rest;
    var k := IndexOf(s, [sep]);
    CharNotFound(s, sep);
    assert s[|a|..|a| + 1] == [sep];
    assert OccursAt(s, [sep], |a|);
    assert 0 <= k <= |a|;
    assert k == |a|;
    assert s[..k] == a;
    assert s[k + 1..] == rest;
  }

  /** A field without the separator that is the whole of what is left is the last field. */
  lemma FieldsOfFree(a: string, sep: char)
    requires Free(a, sep)
    ensures Fields(a, sep) == [a]
  {
    CharNotFound(a, sep);
  }

  /** A separator-free text followed by the end or by the separator is the first field. */
  lemma FirstFieldIs(field: string, rest: string, sep: char)
    requires Free(field, sep) && (rest == [] || rest[0] == sep)
    ensures Fields(field + rest, sep)[0] == field
  {
    if rest == [] {
      FieldsOfFree(field, sep);
      assert field + rest == field;
    } else {
      FieldsOfLayout(field, sep, rest[1..]);
      assert field + rest == field + [sep] + rest[1..];
    }
  }

  /** The first field extends at least over any separator-free prefix. */
  lemma FirstFieldCovers(s: string, sep: char, p: string)
    requires Free(p, sep) && StartsWith(s, p)
    ensures |Fields(s, sep)[0]| >= |p| && StartsWith(Fields(s, sep)[0], p)
  {
    CharSearch(s, sep, 0);
  }

  /** Removes the empty strings at the end of a list, as `String.split` does. */
  function DropTrailingEmpty(parts: seq<string>): (r: seq<string>)
    ensures |r| <= |parts| && r == parts[..|r|]
    ensures forall i :: |r| <= i < |parts| ==> parts[i] == []
    ensures |r| > 0 ==> r[|r| - 1] != []
  {
    if |parts| > 0 && parts[|parts| - 1] == [] then DropTrailingEmpty(parts[..|parts| - 1]) else parts
  }

  /**
   * `s.split(":")` with a one-character pattern: the fields between separators with trailing
   * empty fields removed, except that a string without the separator comes back whole.
   */
  function Split(s: string, sep: char): seq<string>
  {
    if IndexOf(s, [sep]) < 0 then [s] else DropTrailingEmpty(Fields(s, sep))
  }

  /** No part that split returns holds the separator. */
  lemma SplitFree(s: string, sep: char)
    ensures forall p :: p in Split(s, sep) ==> Free(p, sep)
  {
    CharNotFound(s, sep);
    FieldsJoin(s, sep);
    var parts := Split(s, sep);
    if IndexOf(s, [sep]) >= 0 {
      forall p | p in parts
        ensures Free(p, sep)
      {
        var i :| 0 <= i < |parts| && parts[i] == p;
        assert p in Fields(s, sep);
      }
    }
  }

  /** Dropping the trailing empty fields never removes a field that is followed by a non-empty one. */
  lemma SplitKeeps(s: string, sep: char, i: nat)
    requires i < |Fields(s, sep)| && Fields(s, sep)[i] != []
    ensures forall j :: 0 <= j <= i ==> j < |Split(s, sep)| && Split(s, sep)[j] == Fields(s, sep)[j]
  {
    CharNotFound(s, sep);
    if IndexOf(s, [sep]) < 0 {
      assert |Fields(s, sep)| == 1;
    }
  }

  // ---------------------------------------------------------------- numbers

  predicate IsDigit(c: char)
  {
    '0' <= c <= '9'
  }

  predicate AllDigits(s: string)
  {
    forall i :: 0 <= i < |s| ==> IsDigit(s[i])
  }

  /** The value of a string of decimal digits, most significant first. */
  function DigitsValue(ds: string): nat
    requires AllDigits(ds)
  {
    if ds == [] then 0 else 10 * DigitsValue(ds[..|ds| - 1]) + (ds[|ds| - 1] as int - '0' as int)
  }

  /**
   * `Integer.parseInt(s)`: an optional sign and at least one decimal digit whose value fits in
   * 32 bits; anything else throws NumberFormatException.
   */
  function ParseInt(s: string): (r: Result<int>)
    ensures r.Ok? ==> INT_MIN <= r.value <= INT_MAX
    ensures r.Throw? ==> r.exception == NumberFormat
  {
    if s == [] then Throw(NumberFormat)
    else
      var digits := if s[0] == '-' || s[0] == '+' then s[1..] else s;
      if digits == [] || !AllDigits(digits) then Throw(NumberFormat)
      else
        var v: int := if s[0] == '-' then -(DigitsValue(digits) as int) else DigitsValue(digits);
        if INT_MIN <= v <= INT_MAX then Ok(v) else Throw(NumberFormat)
  }

  function DigitChar(d: nat): (c: char)
    requires d < 10
    ensures IsDigit(c) && c as int - '0' as int == d
  {
    ('0' as int + d) as char
  }

  /** The shortest decimal representation of `n`, as `Integer.toString` writes it. */
  function DecimalString(n: nat): (s: string)
    ensures AllDigits(s) && |s| > 0
  {
    if n < 10 then [DigitChar(n)] else DecimalString(n / 10) + [DigitChar(n % 10)]
  }

  /** Reading back a decimal representation gives the number. */
  lemma {:induction false} DecimalStringValue(n: nat)
    ensures DigitsValue(DecimalString(n)) == n
  {
    var s := DecimalString(n);
    if n >= 10 {
      DecimalStringValue(n / 10);
      assert s[..|s| - 1] == DecimalString(n / 10);
    }
  }

  /** `Integer.parseInt` reads back what `Integer.toString` writes, for every non-negative `int`. */
  lemma ParseIntDecimalString(n: nat)
    requires n <= INT_MAX
    ensures ParseInt(DecimalString(n)) == Ok(n)
  {
    DecimalStringValue(n);
  }

  /** A positive number is written without a leading zero. */
  lemma {:induction false} DecimalStringLead(n: nat)
    requires n >= 1
    ensures DecimalString(n)[0] != '0'
  {
    if n >= 10 {
      DecimalStringLead(n / 10);
      assert DecimalString(n)[0] == DecimalString(n / 10)[0];
    }
  }

  /**
   * `String.format("%02d", n)` for a non-negative `n`: at least two digits, zero-padded, and
   * padded no further than two digits.
   */
  function Format02d(n: nat): (s: string)
    ensures AllDigits(s) && |s| >= 2
    ensures DigitsValue(s) == n
    ensures |s| == 2 || s[0] != '0'
  {
    DecimalStringValue(n);
    if n < 10 then
      var s := "0" + DecimalString(n);
      assert s[..|s| - 1] == "0";
      s
    else
      var s := DecimalString(n);
      assert |s| >= 2 by {
        assert s[..|s| - 1] == DecimalString(n / 10);
      }
      DecimalStringLead(n);
      s
  }

  // ---------------------------------------------------------------- ordering

  /** `a.compareTo(b) <= 0`: `a` is a prefix of `b`, or the first character that differs is smaller in `a`. */
  predicate LessEq(a: string, b: string)
    decreases |a|
  {
    a == [] || (b != [] && (a[0] < b[0] || (a[0] == b[0] && LessEq(a[1..], b[1..]))))
  }

  lemma {:induction false} LessEqTotal(a: string, b: string)
    ensures LessEq(a, b) || LessEq(b, a)
    decreases |a|
  {
    if a != [] && b != [] && a[0] == b[0] {
      LessEqTotal(a[1..], b[1..]);
    }
  }

  lemma {:induction false} LessEqAntisymmetric(a: string, b: string)
    requires LessEq(a, b) && LessEq(b, a)
    ensures a == b
    decreases |a|
  {
    if a != [] {
      LessEqAntisymmetric(a[1..], b[1..]);
      assert a == [a[0]] + a[1..] && b == [b[0]] + b[1..];
    }
  }

  lemma {:induction false} LessEqTransitive(a: string, b: string, c: string)
    requires LessEq(a, b) && LessEq(b, c)
    ensures LessEq(a, c)
    decreases |a|
  {
    if a != [] && a[0] == b[0] && b[0] == c[0] {
      LessEqTransitive(a[1..], b[1..], c[1..]);
    }
  }

  /** Splitting `a:b:tail`, with no separator in `a` or `b`, gives `a`, `b` and the first field of `tail`. */
  lemma SplitThree(a: string, b: string, tail: string, sep: char)
    requires Free(a, sep) && Free(b, sep) && Fields(tail, sep)[0] != []
    ensures var parts := Split(a + [sep] + (b + [sep] + tail), sep);
      |parts| >= 3 && parts[0] == a && parts[1] == b && parts[2] == Fields(tail, sep)[0]
  {
    var x := a + [sep] + (b + [sep] + tail);
    FieldsOfLayout(a, sep, b + [sep] + tail);
    FieldsOfLayout(b, sep, tail);
    assert Fields(x, sep)[2] == Fields(tail, sep)[0];
    SplitKeeps(x, sep, 2);
  }
}
