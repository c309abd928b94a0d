/** Python's string and slice primitives that the scraper relies on, on `seq<char>`. */
module Strings {
  import opened Wrappers

  /** Python's `s[:n]` for a non-negative `n`: the first `n` elements, or all of `s` when it is shorter. */
  function Take<T>(s: seq<T>, n: nat): (r: seq<T>)
    ensures |r| == if |s| <= n then |s| else n
    ensures r == s[..|r|]
  {
    if |s| <= n then s else s[..n]
  }

  /** `r` is what is left of `s` once some of its elements are deleted. */
  predicate IsSubsequence<T(==)>(r: seq<T>, s: seq<T>)
    decreases |s|
  {
    r == [] || (s != [] && ((r[0] == s[0] && IsSubsequence(r[1..], s[1..])) || IsSubsequence(r, s[1..])))
  }

  /** What is left of a suffix of `s` is also left of `s`. */
  lemma {:induction false} SubsequenceOfSuffix<T>(r: seq<T>, s: seq<T>, n: nat)
    requires n <= |s| && IsSubsequence(r, s[n..])
    ensures IsSubsequence(r, s)
  {
    if n > 0 {
      assert s[1..][n - 1..] == s[n..];
      SubsequenceOfSuffix(r, s[1..], n - 1);
    }
  }

  /** Python's `s.startswith(p)`. */
  predicate StartsWith(s: string, p: string) {
    |p| <= |s| && s[..|p|] == p
  }

  /** Position of the first occurrence of `p` in `s` (Python's `s.find(p)`), `None` for -1. */
  function Find(s: string, p: string): (r: Option<nat>)
    ensures r.Some? ==> r.value + |p| <= |s| && StartsWith(s[r.value..], p)
    ensures r.Some? ==> forall j :: 0 <= j < r.value ==> !StartsWith(s[j..], p)
    ensures r.None? ==> forall j :: 0 <= j <= |s| ==> !StartsWith(s[j..], p)
    decreases |s|
  {
    if StartsWith(s, p) then Some(0)
    else if s == [] then None
    else
      TailSlices(s);
      match Find(s[1..], p)
      case None => None
      case Some(k) => Some(k + 1)
  }

  /** A suffix of `s` that starts after its head is a suffix of its tail. */
  lemma TailSlices<T>(s: seq<T>)
    requires s != []
    ensures forall j :: 1 <= j <= |s| ==> s[j..] == s[1..][j - 1..]
  {
  }

  /** Python's `p in s` for strings. */
  predicate Contains(s: string, p: string) {
    Find(s, p).Some?
  }

  /** Python's `s.split(sep, 1)[0]`: the text before the first `sep`, or all of `s`. */
  function BeforeFirst(s: string, sep: string): (r: string)
    ensures StartsWith(s, r)
    ensures forall j :: 0 <= j < |r| ==> !StartsWith(s[j..], sep)
    ensures Contains(s, sep) ==> StartsWith(s[|r|..], sep)
    ensures !Contains(s, sep) ==> r == s
  {
    match Find(s, sep)
    case None => s
    case Some(k) => s[..k]
  }

  /** Python's `s.split(sep, 1)[1]`: the text after the first `sep`, `None` where Python raises `IndexError`. */
  function AfterFirst(s: string, sep: string): (r: Option<string>)
    ensures r.None? <==> !Contains(s, sep)
    ensures r.Some? ==> s == BeforeFirst(s, sep) + sep + r.value
  {
    match Find(s, sep)
    case None => None
    case Some(k) =>
      assert s == s[..k] + s[k..][..|sep|] + s[k + |sep|..];
      Some(s[k + |sep|..])
  }

  /** Position of the first `c` in `s`, or `|s|` when there is none. */
  function FirstIndexOf(s: string, c: char): (k: nat)
    ensures k <= |s|
    ensures k < |s| ==> s[k] == c
    ensures forall j :: 0 <= j < k ==> s[j] != c
  {
    if s == [] || s[0] == c then 0 else 1 + FirstIndexOf(s[1..], c)
  }

  /** Searching for a single character finds its first occurrence. */
  lemma FindChar(s: string, c: char)
    ensures Find(s, [c]) == if FirstIndexOf(s, c) < |s| then Some(FirstIndexOf(s, c)) else None
  {
    var k := FirstIndexOf(s, c);
    if k < |s| {
      assert StartsWith(s[k..], [c]);
    }
    match Find(s, [c])
    case None =>
    case Some(v) =>
      assert s[v..][..1] == [c];
  }

  /** An occurrence of `p` at `k`, with no earlier position holding `p`'s first character, is the first one. */
  lemma {:induction false} FindAt(s: string, p: string, k: nat)
    requires p != [] && k <= |s| && StartsWith(s[k..], p)
    requires forall j :: 0 <= j < k ==> s[j] != p[0]
    ensures Find(s, p) == Some(k)
  {
    match Find(s, p)
    case None =>
    case Some(v) =>
      StartsWithHead(s[v..], p);
  }

  lemma StartsWithHead(t: string, p: string)
    ensures p != [] && StartsWith(t, p) ==> t[0] == p[0]
  {
    if p != [] && StartsWith(t, p) {
      assert t[..|p|][0] == p[0];
    }
  }

  /** Prepending text does not hide an occurrence. */
  lemma ContainsAfter(a: string, t: string, p: string)
    requires Contains(t, p)
    ensures Contains(a + t, p)
  {
    var k := Find(t, p).value;
    assert (a + t)[|a| + k..] == t[k..];
  }

  /** `FirstIndexOf` is determined by its contract. */
  lemma {:induction false} FirstIndexOfAt(s: string, c: char, k: nat)
    requires k <= |s| && (k < |s| ==> s[k] == c)
    requires forall j :: 0 <= j < k ==> s[j] != c
    ensures FirstIndexOf(s, c) == k
  {
  }

  /** Python's `sep.join(parts)`. */
  function Join(sep: string, parts: seq<string>): string
  {
    if |parts| == 0 then ""
    else if |parts| == 1 then parts[0]
    else parts[0] + sep + Join(sep, parts[1..])
  }

  /** Joining one more part appends the separator and that part. */
  lemma {:induction false} JoinSnoc(sep: string, parts: seq<string>, p: string)
    requires parts != []
    ensures Join(sep, parts + [p]) == Join(sep, parts) + sep + p
  {
    assert (parts + [p])[0] == parts[0];
    assert (parts + [p])[1..] == parts[1..] + [p];
    if |parts| > 1 {
      JoinSnoc(sep, parts[1..], p);
    }
  }

  /** The joined text is empty for no parts, is the part itself for one, and otherwise begins with the first part. */
  lemma {:induction false} JoinHead(sep: string, parts: seq<string>)
    ensures parts == [] ==> Join(sep, parts) == ""
    ensures parts != [] ==> StartsWith(Join(sep, parts), parts[0])
    ensures |parts| == 1 ==> Join(sep, parts) == parts[0]
  {
    if |parts| > 1 {
      var r := Join(sep, parts);
      assert r == parts[0] + (sep + Join(sep, parts[1..]));
      assert r[..|parts[0]|] == parts[0];
    }
  }
}
