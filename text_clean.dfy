/**
 * The article-text normaliser `clean_primamedia_text`: seven regular-expression
 * substitutions applied in a fixed order, then `strip()`, then a cap of 10000
 * characters. Each substitution is a total function that scans its input left to
 * right the way Python's `re.sub` does (leftmost match, greedy quantifiers, scanning
 * resumes after the replaced text), and each comes with two lemmas: one saying what
 * the pattern can no longer match in its output, and one saying that an input the
 * pattern does not match is returned unchanged.
 */
module TextClean {
  import opened Wrappers
  import opened Strings

  /** The cap applied by `text[:10000]`. */
  const MaxLength: nat := 10000

  /** `\s` of a Python `str` pattern, which is also what `str.strip()` removes (`str.isspace`). */
  predicate IsSpace(c: char) {
    ('\t' <= c <= '\r') || ('\U{1C}' <= c <= '\U{1F}') || c == ' ' || c == '\U{85}' || c == '\U{A0}'
    || c == '\U{1680}' || ('\U{2000}' <= c <= '\U{200A}') || c == '\U{2028}' || c == '\U{2029}'
    || c == '\U{202F}' || c == '\U{205F}' || c == '\U{3000}'
  }

  /** `\S`. */
  predicate IsNonSpace(c: char) { !IsSpace(c) }

  /** The character class `[ \t]`. */
  predicate IsBlank(c: char) { c == ' ' || c == '\t' }

  predicate IsNewline(c: char) { c == '\n' }

  /** Length of the longest prefix of `s` whose characters all belong to `inClass` (a greedy `[...]+` run). */
  function Run(s: string, inClass: char -> bool): (n: nat)
    ensures n <= |s|
    ensures forall i :: 0 <= i < n ==> inClass(s[i])
    ensures n < |s| ==> !inClass(s[n])
  {
    if s != [] && inClass(s[0]) then 1 + Run(s[1..], inClass) else 0
  }

  /** Dropping `j` characters of a run leaves the rest of the run. */
  lemma {:induction false} RunDrop(s: string, inClass: char -> bool, j: nat)
    requires j <= Run(s, inClass)
    ensures Run(s[j..], inClass) == Run(s, inClass) - j
  {
  }

  /** The characters at `i` and `i + 1` are of classes `first` and `second`. */
  predicate Adjacent(s: string, i: nat, first: char -> bool, second: char -> bool)
    requires i < |s| - 1
  {
    first(s[i]) && second(s[i + 1])
  }

  /** No character of class `first` is immediately followed by one of class `second`. */
  predicate NoAdjacent(s: string, first: char -> bool, second: char -> bool) {
    forall i: nat :: i < |s| - 1 ==> !Adjacent(s, i, first, second)
  }

  lemma NoAdjacentSlice(s: string, first: char -> bool, second: char -> bool, lo: nat, hi: nat)
    requires lo <= hi <= |s|
    requires NoAdjacent(s, first, second)
    ensures NoAdjacent(s[lo..hi], first, second)
  {
    var t := s[lo..hi];
    forall i: nat | i < |t| - 1 ensures !Adjacent(t, i, first, second) {
      assert t[i] == s[lo + i] && t[i + 1] == s[lo + i + 1];
      assert !Adjacent(s, lo + i, first, second);
    }
  }

  /** Putting `c` in front keeps the property when `c` and the first character of `rest` are not such a pair. */
  lemma NoAdjacentCons(c: char, rest: string, first: char -> bool, second: char -> bool)
    requires NoAdjacent(rest, first, second)
    requires rest != [] && first(c) ==> !second(rest[0])
    ensures NoAdjacent([c] + rest, first, second)
  {
    var r := [c] + rest;
    forall i: nat | i < |r| - 1 ensures !Adjacent(r, i, first, second) {
      if i > 0 {
        assert r[i] == rest[i - 1] && r[i + 1] == rest[i];
        assert !Adjacent(rest, i - 1, first, second);
      }
    }
  }

  // ---------------------------------------------------------------------------
  // Step 1: re.sub(r'<[^>]+>', '', text)

  /** A match of `<[^>]+>` starts at the beginning of `s`: a `<` whose first following `>` is not the next character. */
  predicate TagStart(s: string) {
    |s| >= 2 && s[0] == '<' && s[1] != '>' && '>' in s[2..]
  }

  /** Length of the `<[^>]+>` match at the beginning of `s`, 0 when there is none. */
  function TagLen(s: string): (n: nat)
    ensures n <= |s|
    ensures n > 0 <==> TagStart(s)
    ensures n > 0 ==> n >= 3 && s[0] == '<' && s[n - 1] == '>' && forall i :: 1 <= i < n - 1 ==> s[i] != '>'
  {
    if |s| >= 2 && s[0] == '<' && s[1] != '>' then
      var k := FirstIndexOf(s[2..], '>');
      if k < |s| - 2 then k + 3 else 0
    else 0
  }

  function StripTags(s: string): (r: string)
    ensures |r| <= |s|
    decreases |s|
  {
    if s == [] then []
    else if TagLen(s) > 0 then StripTags(s[TagLen(s)..])
    else [s[0]] + StripTags(s[1..])
  }

  predicate NoTag(s: string) {
    forall i :: 0 <= i < |s| ==> !TagStart(s[i..])
  }

  lemma {:induction false} StripTagsKeepsChars(s: string)
    ensures forall c :: c in StripTags(s) ==> c in s
    decreases |s|
  {
    if s == [] {
    } else if TagLen(s) > 0 {
      StripTagsKeepsChars(s[TagLen(s)..]);
    } else {
      StripTagsKeepsChars(s[1..]);
    }
  }

  /** The first substitution only deletes characters: its output is a subsequence of its input. */
  lemma {:induction false} StripTagsDeletes(s: string)
    ensures IsSubsequence(StripTags(s), s)
    decreases |s|
  {
    if s == [] {
    } else if TagLen(s) > 0 {
      StripTagsDeletes(s[TagLen(s)..]);
      SubsequenceOfSuffix(StripTags(s), s, TagLen(s));
    } else {
      StripTagsDeletes(s[1..]);
      var r := [s[0]] + StripTags(s[1..]);
      assert r == StripTags(s);
      assert r[1..] == StripTags(s[1..]);
    }
  }

  /** Where the first substitution finds no tag, the first output character opens none either. */
  lemma {:induction false} StripTagsHead(s: string)
    requires s != [] && TagLen(s) == 0
    ensures !TagStart(StripTags(s))
  {
    var rest := StripTags(s[1..]);
    var r := [s[0]] + rest;
    assert r == StripTags(s);
    if TagStart(r) {
      assert |s| >= 2;
      if s[1] != '>' {
        assert '>' !in s[1..];
        StripTagsKeepsChars(s[1..]);
      }
    }
  }

  /** After the first substitution no tag is left, including none formed by joining the pieces around a removed tag. */
  lemma {:induction false} StripTagsNoTag(s: string)
    ensures NoTag(StripTags(s))
    decreases |s|
  {
    if s == [] {
    } else if TagLen(s) > 0 {
      StripTagsNoTag(s[TagLen(s)..]);
    } else {
      var rest := StripTags(s[1..]);
      var r := [s[0]] + rest;
      assert r == StripTags(s);
      StripTagsNoTag(s[1..]);
      StripTagsHead(s);
      forall i | 1 <= i < |r| ensures !TagStart(r[i..]) {
        assert r[i..] == rest[i - 1..];
      }
    }
  }

  /** A tag-free text starts no tag, and its tail is tag-free. */
  lemma NoTagTail(s: string)
    requires s != [] && NoTag(s)
    ensures !TagStart(s) && NoTag(s[1..])
  {
    assert s[0..] == s;
    forall i | 0 <= i < |s| - 1 ensures !TagStart(s[1..][i..]) {
      assert s[1..][i..] == s[i + 1..];
    }
  }

  /** The first substitution leaves a text without tags unchanged. */
  lemma {:induction false} StripTagsUnchanged(s: string)
    requires NoTag(s)
    ensures StripTags(s) == s
    decreases |s|
  {
    if s != [] {
      NoTagTail(s);
      StripTagsUnchanged(s[1..]);
    }
  }

  // ---------------------------------------------------------------------------
  // Step 2: re.sub(r'http[s]?://\S+|www\.\S+', '', text)

  /** A match of `http[s]?://\S+|www\.\S+` starts at the beginning of `s`. */
  predicate UrlStart(s: string) {
    || (StartsWith(s, "http://") && |s| > 7 && !IsSpace(s[7]))
    || (StartsWith(s, "https://") && |s| > 8 && !IsSpace(s[8]))
    || (StartsWith(s, "www.") && |s| > 4 && !IsSpace(s[4]))
  }

  lemma UrlStartHead(s: string)
    requires UrlStart(s)
    ensures s != [] && (s[0] == 'h' || s[0] == 'w')
  {
    StartsWithHead(s, "http://");
    StartsWithHead(s, "https://");
    StartsWithHead(s, "www.");
  }

  /** Length of the URL match at the beginning of `s` (the whole non-space run), 0 when there is none. */
  function UrlLen(s: string): (n: nat)
    ensures n <= |s|
    ensures n > 0 <==> UrlStart(s)
    ensures n > 0 ==> (forall i :: 0 <= i < n ==> !IsSpace(s[i])) && (n < |s| ==> IsSpace(s[n]))
  {
    if UrlStart(s) then
      UrlStartHead(s);
      var n := Run(s, IsNonSpace);
      assert forall i :: 0 <= i < n ==> IsNonSpace(s[i]);
      assert n < |s| ==> !IsNonSpace(s[n]);
      n
    else 0
  }

  function StripUrls(s: string): (r: string)
    ensures |r| <= |s|
    decreases |s|
  {
    if s == [] then []
    else if UrlLen(s) > 0 then StripUrls(s[UrlLen(s)..])
    else [s[0]] + StripUrls(s[1..])
  }

  predicate NoUrl(s: string) {
    forall i :: 0 <= i < |s| ==> !UrlStart(s[i..])
  }

  /** Where a URL is removed, the output goes on with the whitespace that ended it. */
  lemma StripUrlsAtUrl(t: string)
    ensures UrlLen(t) > 0 ==> StripUrls(t) == [] || IsSpace(StripUrls(t)[0])
  {
    var n := UrlLen(t);
    if 0 < n < |t| {
      var u := t[n..];
      assert IsSpace(u[0]);
      assert !UrlStart(u) by { assert u[0] != 'h' && u[0] != 'w'; }
    }
  }

  /** A leading run of non-space output characters is copied verbatim from the input. */
  lemma {:induction false} StripUrlsKeepsWord(t: string, k: nat)
    requires k <= |StripUrls(t)|
    requires forall j :: 0 <= j < k ==> !IsSpace(StripUrls(t)[j])
    ensures k <= |t| && StripUrls(t)[..k] == t[..k]
    decreases |t|
  {
    if k > 0 && UrlLen(t) > 0 {
      StripUrlsAtUrl(t);
    } else if k > 0 {
      StripUrlsCopy(t);
      NoSpaceTail(StripUrls(t), t[0], StripUrls(t[1..]), k);
      StripUrlsKeepsWord(t[1..], k - 1);
      PrefixCons(t, StripUrls(t), StripUrls(t[1..]), k);
    }
  }

  lemma {:induction false} StripUrlsCopy(t: string)
    requires t != [] && UrlLen(t) == 0
    ensures StripUrls(t) == [t[0]] + StripUrls(t[1..])
  {
  }

  /** The non-space prefix of `[c] + rest` continues as a non-space prefix of `rest`. */
  lemma NoSpaceTail(r: string, c: char, rest: string, k: nat)
    requires r == [c] + rest && 0 < k <= |r|
    requires forall j :: 0 <= j < k ==> !IsSpace(r[j])
    ensures k - 1 <= |rest| && forall j :: 0 <= j < k - 1 ==> !IsSpace(rest[j])
  {
    forall j | 0 <= j < k - 1 ensures !IsSpace(rest[j]) {
      assert rest[j] == r[j + 1];
    }
  }

  lemma PrefixCons(t: string, r: string, rest: string, k: nat)
    requires 0 < k <= |r| && t != [] && r == [t[0]] + rest
    requires k - 1 <= |t| - 1 && rest[..k - 1] == t[1..][..k - 1]
    ensures r[..k] == t[..k]
  {
    assert r[..k] == [t[0]] + rest[..k - 1];
    assert t[..k] == [t[0]] + t[1..][..k - 1];
  }

  /** How many leading characters a URL match at the start of `s` is decided by. */
  function UrlWitnessLen(s: string): (m: nat)
    requires UrlStart(s)
    ensures 5 <= m <= |s|
  {
    if StartsWith(s, "http://") && |s| > 7 && !IsSpace(s[7]) then 8
    else if StartsWith(s, "https://") && |s| > 8 && !IsSpace(s[8]) then 9
    else 5
  }

  lemma UrlWitnessNoSpace(s: string)
    requires UrlStart(s)
    ensures forall j :: 0 <= j < UrlWitnessLen(s) ==> !IsSpace(s[j])
  {
    var m := UrlWitnessLen(s);
    forall j | 0 <= j < m ensures !IsSpace(s[j]) {
      if j < m - 1 {
        if m == 8 {
          assert s[j] == "http://"[j];
        } else if m == 9 {
          assert s[j] == "https://"[j];
        } else {
          assert s[j] == "www."[j];
        }
      }
    }
  }

  lemma UrlWitnessDecides(s: string, t: string)
    requires UrlStart(s)
    requires UrlWitnessLen(s) <= |t| && t[..UrlWitnessLen(s)] == s[..UrlWitnessLen(s)]
    ensures UrlStart(t)
  {
    var m := UrlWitnessLen(s);
    assert t[..m - 1] == s[..m - 1] && t[m - 1] == s[m - 1];
  }

  /** Where the second substitution finds no match, the first output character starts no URL either. */
  lemma {:induction false} StripUrlsHead(s: string)
    requires s != [] && UrlLen(s) == 0
    ensures !UrlStart(StripUrls(s))
  {
    var r := StripUrls(s);
    if UrlStart(r) {
      var m := UrlWitnessLen(r);
      UrlWitnessNoSpace(r);
      StripUrlsKeepsWord(s, m);
      UrlWitnessDecides(r, s);
    }
  }

  /** After the second substitution no URL match is left. */
  lemma {:induction false} StripUrlsNoUrl(s: string)
    ensures NoUrl(StripUrls(s))
    decreases |s|
  {
    if s == [] {
    } else if UrlLen(s) > 0 {
      StripUrlsNoUrl(s[UrlLen(s)..]);
    } else {
      var rest := StripUrls(s[1..]);
      var r := [s[0]] + rest;
      assert r == StripUrls(s);
      StripUrlsNoUrl(s[1..]);
      StripUrlsHead(s);
      forall i | 1 <= i < |r| ensures !UrlStart(r[i..]) {
        assert r[i..] == rest[i - 1..];
      }
    }
  }

  /** A URL-free text starts no URL, and its tail is URL-free. */
  lemma NoUrlTail(s: string)
    requires s != [] && NoUrl(s)
    ensures !UrlStart(s) && NoUrl(s[1..])
  {
    assert s[0..] == s;
    forall i | 0 <= i < |s| - 1 ensures !UrlStart(s[1..][i..]) {
      assert s[1..][i..] == s[i + 1..];
    }
  }

  /** The second substitution leaves a text without URLs unchanged. */
  lemma {:induction false} StripUrlsUnchanged(s: string)
    requires NoUrl(s)
    ensures StripUrls(s) == s
    decreases |s|
  {
    if s != [] {
      NoUrlTail(s);
      StripUrlsUnchanged(s[1..]);
    }
  }

  // ---------------------------------------------------------------------------
  // Step 3: re.sub(r'[ \t]+\n', '\n', text)

  function TrimBlanksBeforeNewline(s: string): (r: string)
    ensures |r| <= |s|
    ensures |s| > 0 ==> |r| > 0
    decreases |s|
  {
    if s == [] then []
    else
      var n := Run(s, IsBlank);
      if 0 < n < |s| && s[n] == '\n' then "\n" + TrimBlanksBeforeNewline(s[n + 1..])
      else [s[0]] + TrimBlanksBeforeNewline(s[1..])
  }

  /** After the third substitution no space or tab stands right before a newline. */
  lemma {:induction false} TrimBlanksBeforeNewlineSound(s: string)
    ensures NoAdjacent(TrimBlanksBeforeNewline(s), IsBlank, IsNewline)
    decreases |s|
  {
    if s != [] {
      var n := Run(s, IsBlank);
      var r := TrimBlanksBeforeNewline(s);
      if 0 < n < |s| && s[n] == '\n' {
        TrimBlanksBeforeNewlineSound(s[n + 1..]);
        assert r == "\n" + TrimBlanksBeforeNewline(s[n + 1..]);
        NoAdjacentCons('\n', TrimBlanksBeforeNewline(s[n + 1..]), IsBlank, IsNewline);
      } else {
        var t := s[1..];
        var rest := TrimBlanksBeforeNewline(t);
        assert r == [s[0]] + rest;
        TrimBlanksBeforeNewlineSound(t);
        if IsBlank(s[0]) && |t| > 0 {
          RunDrop(s, IsBlank, 1);
          if n >= 2 {
            if n < |s| {
              assert t[n - 1] == s[n];
            }
            assert rest[0] == t[0];
          } else {
            assert Run(t, IsBlank) == 0;
            assert rest[0] == t[0];
          }
        }
        NoAdjacentCons(s[0], rest, IsBlank, IsNewline);
      }
    }
  }

  /** The third substitution leaves a text with no space or tab before a newline unchanged. */
  lemma {:induction false} TrimBlanksBeforeNewlineUnchanged(s: string)
    requires NoAdjacent(s, IsBlank, IsNewline)
    ensures TrimBlanksBeforeNewline(s) == s
    decreases |s|
  {
    if s != [] {
      var n := Run(s, IsBlank);
      if 0 < n < |s| {
        assert !Adjacent(s, n - 1, IsBlank, IsNewline);
      }
      NoAdjacentSuffix(s, 1, IsBlank, IsNewline);
      TrimBlanksBeforeNewlineUnchanged(s[1..]);
    }
  }

  // ---------------------------------------------------------------------------
  // Step 4: re.sub(r'\n[ \t]+', '\n', text)

  function TrimBlanksAfterNewline(s: string): (r: string)
    ensures |r| <= |s|
    ensures |s| > 0 ==> |r| > 0 && (r[0] == '\n' <==> s[0] == '\n')
    decreases |s|
  {
    if s == [] then []
    else if s[0] == '\n' && |s| > 1 && IsBlank(s[1]) then "\n" + TrimBlanksAfterNewline(s[1 + Run(s[1..], IsBlank)..])
    else [s[0]] + TrimBlanksAfterNewline(s[1..])
  }

  /** After the fourth substitution no space or tab stands right after a newline. */
  lemma {:induction false} TrimBlanksAfterNewlineSound(s: string)
    ensures NoAdjacent(TrimBlanksAfterNewline(s), IsNewline, IsBlank)
    decreases |s|
  {
    if s != [] {
      var r := TrimBlanksAfterNewline(s);
      if s[0] == '\n' && |s| > 1 && IsBlank(s[1]) {
        var t := s[1 + Run(s[1..], IsBlank)..];
        TrimBlanksAfterNewlineSound(t);
        assert r == "\n" + TrimBlanksAfterNewline(t);
        if |t| > 0 {
          assert t[0] == s[1..][Run(s[1..], IsBlank)];
          assert !IsBlank(TrimBlanksAfterNewline(t)[0]);
        }
        NoAdjacentCons('\n', TrimBlanksAfterNewline(t), IsNewline, IsBlank);
      } else {
        TrimBlanksAfterNewlineSound(s[1..]);
        assert r == [s[0]] + TrimBlanksAfterNewline(s[1..]);
        if s[0] == '\n' && |s| > 1 {
          assert !IsBlank(TrimBlanksAfterNewline(s[1..])[0]);
        }
        NoAdjacentCons(s[0], TrimBlanksAfterNewline(s[1..]), IsNewline, IsBlank);
      }
    }
  }

  /** The fourth substitution leaves a text with no space or tab after a newline unchanged. */
  lemma {:induction false} TrimBlanksAfterNewlineUnchanged(s: string)
    requires NoAdjacent(s, IsNewline, IsBlank)
    ensures TrimBlanksAfterNewline(s) == s
    decreases |s|
  {
    if s != [] {
      if |s| > 1 {
        assert !Adjacent(s, 0, IsNewline, IsBlank);
      }
      NoAdjacentSuffix(s, 1, IsNewline, IsBlank);
      TrimBlanksAfterNewlineUnchanged(s[1..]);
    }
  }

  // ---------------------------------------------------------------------------
  // Step 5: re.sub(r'\s+\n', '\n', text)
  //
  // The step is defined for any class of whitespace characters that holds `\n`, and
  // used with `IsSpace`.

  /** Position of the last newline in the leading run of `space` characters of `s`, or -1 when the run holds none. */
  function LastNewlineInRun(s: string, space: char -> bool): (k: int)
    ensures -1 <= k < |s|
    decreases |s|
  {
    if s == [] || !space(s[0]) then -1
    else
      var r := LastNewlineInRun(s[1..], space);
      if r >= 0 then r + 1 else if s[0] == '\n' then 0 else -1
  }

  /** The position found is a newline inside the leading run, and no later character of the run is one. */
  lemma {:induction false} LastNewlineInRunSpec(s: string, space: char -> bool)
    ensures var k := LastNewlineInRun(s, space);
      && -1 <= k < Run(s, space)
      && (k >= 0 ==> s[k] == '\n')
      && forall j :: k < j < Run(s, space) ==> s[j] != '\n'
    decreases |s|
  {
    if s != [] && space(s[0]) {
      LastNewlineInRunSpec(s[1..], space);
      assert forall j :: 1 <= j < Run(s, space) ==> s[j] == s[1..][j - 1];
    }
  }

  /**
   * At a whitespace character, `\s+` first takes the whole run of whitespace and then
   * gives characters back until a `\n` follows; so the match ends at the LAST newline
   * of the run, and there is a match only when that newline is not the run's first
   * character.
   */
  function TrimRunBeforeNewline(s: string, space: char -> bool): (r: string)
    ensures |r| <= |s|
    decreases |s|
  {
    if s == [] then []
    else
      var k := LastNewlineInRun(s, space);
      if k >= 1 then ['\n'] + TrimRunBeforeNewline(s[k + 1..], space)
      else [s[0]] + TrimRunBeforeNewline(s[1..], space)
  }

  /** The fifth substitution, whose `\s` is `IsSpace`. */
  function TrimSpaceBeforeNewline(s: string): string {
    TrimRunBeforeNewline(s, IsSpace)
  }

  /** Step 5 keeps the first character of an input whose leading run holds no newline. */
  lemma {:induction false} TrimRunBeforeNewlineHead(t: string, space: char -> bool)
    requires space('\n') && |t| > 0
    requires forall j :: 0 <= j < Run(t, space) ==> t[j] != '\n'
    ensures |TrimRunBeforeNewline(t, space)| > 0 && TrimRunBeforeNewline(t, space)[0] == t[0] != '\n'
  {
    LastNewlineInRunSpec(t, space);
    assert LastNewlineInRun(t, space) < 0;
  }

  /** What follows the newline that ends a step-5 match, or the first character of an unmatched run, starts no newline. */
  lemma {:induction false} TrimRunBeforeNewlineTail(s: string, space: char -> bool, d: nat)
    requires space('\n') && 1 <= d < |s|
    requires d <= Run(s, space)
    requires forall j :: d <= j < Run(s, space) ==> s[j] != '\n'
    ensures TrimRunBeforeNewline(s[d..], space)[0] != '\n'
  {
    var t := s[d..];
    RunDrop(s, space, d);
    assert forall j :: 0 <= j < Run(t, space) ==> t[j] == s[d + j];
    TrimRunBeforeNewlineHead(t, space);
  }

  /** After the substitution no character of the class stands right before a newline. */
  lemma {:induction false} TrimRunBeforeNewlineSound(s: string, space: char -> bool)
    requires space('\n')
    ensures NoAdjacent(TrimRunBeforeNewline(s, space), space, IsNewline)
    decreases |s|
  {
    if s != [] {
      var k := LastNewlineInRun(s, space);
      if k >= 1 {
        TrimRunBeforeNewlineSound(s[k + 1..], space);
        TrimRunBeforeNewlineMatch(s, space, k);
      } else {
        TrimRunBeforeNewlineSound(s[1..], space);
        TrimRunBeforeNewlineCopy(s, space);
      }
    }
  }

  /** After the fifth substitution no whitespace character stands right before a newline. */
  lemma TrimSpaceBeforeNewlineSound(s: string)
    ensures NoAdjacent(TrimSpaceBeforeNewline(s), IsSpace, IsNewline)
  {
    TrimRunBeforeNewlineSound(s, IsSpace);
  }

  /** The substitution leaves a text with no class character before a newline unchanged. */
  lemma {:induction false} TrimRunBeforeNewlineUnchanged(s: string, space: char -> bool)
    requires NoAdjacent(s, space, IsNewline)
    ensures TrimRunBeforeNewline(s, space) == s
    decreases |s|
  {
    if s != [] {
      var k := LastNewlineInRun(s, space);
      LastNewlineInRunSpec(s, space);
      forall j | 1 <= j < |s| && space(s[j - 1]) ensures s[j] != '\n' {
        assert !Adjacent(s, j - 1, space, IsNewline);
      }
      NoAdjacentSuffix(s, 1, space, IsNewline);
      TrimRunBeforeNewlineUnchanged(s[1..], space);
    }
  }

  /** The fifth substitution leaves a text with no whitespace before a newline unchanged. */
  lemma TrimSpaceBeforeNewlineUnchanged(s: string)
    requires NoAdjacent(s, IsSpace, IsNewline)
    ensures TrimSpaceBeforeNewline(s) == s
  {
    TrimRunBeforeNewlineUnchanged(s, IsSpace);
  }

  /** A step-5 match ending at the newline at `k` is replaced by that newline. */
  lemma {:induction false} TrimRunBeforeNewlineMatch(s: string, space: char -> bool, k: nat)
    requires space('\n') && s != [] && k >= 1 && k == LastNewlineInRun(s, space)
    requires NoAdjacent(TrimRunBeforeNewline(s[k + 1..], space), space, IsNewline)
    ensures NoAdjacent(TrimRunBeforeNewline(s, space), space, IsNewline)
  {
    var rest := TrimRunBeforeNewline(s[k + 1..], space);
    TrimRunBeforeNewlineAtMatch(s, space, k, s[k + 1..]);
    LastNewlineInRunSpec(s, space);
    if k + 1 < |s| {
      TrimRunBeforeNewlineTail(s, space, k + 1);
    }
    NoAdjacentCons('\n', rest, space, IsNewline);
  }

  lemma {:induction false} TrimRunBeforeNewlineAtMatch(s: string, space: char -> bool, k: nat, rest: string)
    requires s != [] && k >= 1 && k == LastNewlineInRun(s, space) && rest == s[k + 1..]
    ensures TrimRunBeforeNewline(s, space) == ['\n'] + TrimRunBeforeNewline(rest, space)
  {
  }

  /** Where no step-5 match starts, the first character is copied. */
  lemma {:induction false} TrimRunBeforeNewlineCopy(s: string, space: char -> bool)
    requires space('\n') && s != [] && LastNewlineInRun(s, space) < 1
    requires NoAdjacent(TrimRunBeforeNewline(s[1..], space), space, IsNewline)
    ensures NoAdjacent(TrimRunBeforeNewline(s, space), space, IsNewline)
  {
    var rest := TrimRunBeforeNewline(s[1..], space);
    assert TrimRunBeforeNewline(s, space) == [s[0]] + rest;
    LastNewlineInRunSpec(s, space);
    if space(s[0]) && |s| > 1 {
      TrimRunBeforeNewlineTail(s, space, 1);
    }
    NoAdjacentCons(s[0], rest, space, IsNewline);
  }

  // ---------------------------------------------------------------------------
  // Step 6: re.sub(r'\n+', '\n', text)

  function CollapseNewlines(s: string): (r: string)
    ensures |r| <= |s|
    ensures |s| > 0 ==> |r| > 0 && r[0] == s[0]
    decreases |s|
  {
    if s == [] then []
    else if s[0] == '\n' then "\n" + CollapseNewlines(s[Run(s, IsNewline)..])
    else [s[0]] + CollapseNewlines(s[1..])
  }

  /** After the sixth substitution no two newlines are adjacent. */
  lemma {:induction false} CollapseNewlinesSound(s: string)
    ensures NoAdjacent(CollapseNewlines(s), IsNewline, IsNewline)
    decreases |s|
  {
    if s != [] {
      var r := CollapseNewlines(s);
      if s[0] == '\n' {
        var t := s[Run(s, IsNewline)..];
        CollapseNewlinesSound(t);
        assert r == "\n" + CollapseNewlines(t);
        NoAdjacentCons('\n', CollapseNewlines(t), IsNewline, IsNewline);
      } else {
        CollapseNewlinesSound(s[1..]);
        assert r == [s[0]] + CollapseNewlines(s[1..]);
        NoAdjacentCons(s[0], CollapseNewlines(s[1..]), IsNewline, IsNewline);
      }
    }
  }

  /** The sixth substitution leaves a text without adjacent newlines unchanged. */
  lemma {:induction false} CollapseNewlinesUnchanged(s: string)
    requires NoAdjacent(s, IsNewline, IsNewline)
    ensures CollapseNewlines(s) == s
    decreases |s|
  {
    if s != [] {
      if |s| > 1 {
        assert !Adjacent(s, 0, IsNewline, IsNewline);
      }
      if s[0] == '\n' {
        assert Run(s, IsNewline) == 1 + Run(s[1..], IsNewline);
      }
      NoAdjacentSuffix(s, 1, IsNewline, IsNewline);
      CollapseNewlinesUnchanged(s[1..]);
    }
  }

  // ---------------------------------------------------------------------------
  // Step 7: re.sub(r'[ \t]+', ' ', text)

  function CollapseBlanks(s: string): (r: string)
    ensures |r| <= |s|
    ensures |s| > 0 ==> |r| > 0 && (r[0] == ' ' <==> IsBlank(s[0])) && (!IsBlank(s[0]) ==> r[0] == s[0])
    decreases |s|
  {
    if s == [] then []
    else if IsBlank(s[0]) then " " + CollapseBlanks(s[Run(s, IsBlank)..])
    else [s[0]] + CollapseBlanks(s[1..])
  }

  /**
   * After the seventh substitution there is no tab and no two adjacent spaces, and it
   * creates no newline pair that its input did not have.
   */
  lemma {:induction false} CollapseBlanksSound(s: string)
    ensures '\t' !in CollapseBlanks(s)
    ensures NoAdjacent(CollapseBlanks(s), IsBlank, IsBlank)
    ensures NoAdjacent(s, IsNewline, IsNewline) ==> NoAdjacent(CollapseBlanks(s), IsNewline, IsNewline)
    decreases |s|
  {
    if s != [] {
      if IsBlank(s[0]) {
        CollapseBlanksSound(s[Run(s, IsBlank)..]);
        CollapseBlanksRun(s);
      } else {
        CollapseBlanksSound(s[1..]);
        CollapseBlanksCopy(s);
      }
    }
  }

  /** A run of spaces and tabs becomes one space. */
  lemma {:induction false} CollapseBlanksRun(s: string)
    requires s != [] && IsBlank(s[0])
    requires var t := CollapseBlanks(s[Run(s, IsBlank)..]);
      && '\t' !in t && NoAdjacent(t, IsBlank, IsBlank)
      && (NoAdjacent(s[Run(s, IsBlank)..], IsNewline, IsNewline) ==> NoAdjacent(t, IsNewline, IsNewline))
    ensures '\t' !in CollapseBlanks(s)
    ensures NoAdjacent(CollapseBlanks(s), IsBlank, IsBlank)
    ensures NoAdjacent(s, IsNewline, IsNewline) ==> NoAdjacent(CollapseBlanks(s), IsNewline, IsNewline)
  {
    var n := Run(s, IsBlank);
    var t := s[n..];
    var rest := CollapseBlanks(t);
    assert CollapseBlanks(s) == [' '] + rest;
    if |t| > 0 {
      assert !IsBlank(t[0]);
      assert !IsBlank(rest[0]);
    }
    NoAdjacentCons(' ', rest, IsBlank, IsBlank);
    if NoAdjacent(s, IsNewline, IsNewline) {
      NoAdjacentSuffix(s, n, IsNewline, IsNewline);
      NoAdjacentCons(' ', rest, IsNewline, IsNewline);
    }
  }

  lemma NoAdjacentSuffix(s: string, n: nat, first: char -> bool, second: char -> bool)
    requires n <= |s| && NoAdjacent(s, first, second)
    ensures NoAdjacent(s[n..], first, second)
  {
    NoAdjacentSlice(s, first, second, n, |s|);
    assert s[n..|s|] == s[n..];
  }

  /** Any other character is copied. */
  lemma {:induction false} CollapseBlanksCopy(s: string)
    requires s != [] && !IsBlank(s[0])
    requires var t := CollapseBlanks(s[1..]);
      && '\t' !in t && NoAdjacent(t, IsBlank, IsBlank)
      && (NoAdjacent(s[1..], IsNewline, IsNewline) ==> NoAdjacent(t, IsNewline, IsNewline))
    ensures '\t' !in CollapseBlanks(s)
    ensures NoAdjacent(CollapseBlanks(s), IsBlank, IsBlank)
    ensures NoAdjacent(s, IsNewline, IsNewline) ==> NoAdjacent(CollapseBlanks(s), IsNewline, IsNewline)
  {
    var t := s[1..];
    assert CollapseBlanks(s) == [s[0]] + CollapseBlanks(t);
    NoAdjacentCons(s[0], CollapseBlanks(t), IsBlank, IsBlank);
    if NoAdjacent(s, IsNewline, IsNewline) {
      NoAdjacentSuffix(s, 1, IsNewline, IsNewline);
      if |t| > 0 && s[0] == '\n' {
        assert !Adjacent(s, 0, IsNewline, IsNewline);
      }
      NoAdjacentCons(s[0], CollapseBlanks(t), IsNewline, IsNewline);
    }
  }

  /** The seventh substitution leaves a text without tabs and without two adjacent spaces unchanged. */
  lemma {:induction false} CollapseBlanksUnchanged(s: string)
    requires '\t' !in s && NoAdjacent(s, IsBlank, IsBlank)
    ensures CollapseBlanks(s) == s
    decreases |s|
  {
    if s != [] {
      if |s| > 1 {
        assert !Adjacent(s, 0, IsBlank, IsBlank);
      }
      if IsBlank(s[0]) {
        assert Run(s, IsBlank) == 1 + Run(s[1..], IsBlank);
      }
      NoAdjacentSuffix(s, 1, IsBlank, IsBlank);
      CollapseBlanksUnchanged(s[1..]);
    }
  }

  // ---------------------------------------------------------------------------
  // .strip() and [:10000]

  /** Python's `s.lstrip()`: the suffix left once the leading whitespace is removed. */
  function StripLeading(s: string): (r: string)
    ensures |r| <= |s|
    ensures r == s[|s| - |r|..]
    ensures forall i :: 0 <= i < |s| - |r| ==> IsSpace(s[i])
    ensures |r| > 0 ==> !IsSpace(r[0])
  {
    if s != [] && IsSpace(s[0]) then
      var r := StripLeading(s[1..]);
      assert forall i :: 1 <= i < |s| - |r| ==> s[i] == s[1..][i - 1];
      assert s[1..][|s| - 1 - |r|..] == s[|s| - |r|..];
      r
    else s
  }

  /** Python's `s.rstrip()`: the prefix left once the trailing whitespace is removed. */
  function StripTrailing(s: string): (r: string)
    ensures |r| <= |s|
    ensures r == s[..|r|]
    ensures forall i :: |r| <= i < |s| ==> IsSpace(s[i])
    ensures |r| > 0 ==> !IsSpace(r[|r| - 1])
  {
    if s != [] && IsSpace(s[|s| - 1]) then
      var r := StripTrailing(s[..|s| - 1]);
      assert forall i :: |r| <= i < |s| - 1 ==> s[i] == s[..|s| - 1][i];
      assert s[..|s| - 1][..|r|] == s[..|r|];
      r
    else s
  }

  /** Python's `s.strip()`. */
  function Strip(s: string): (r: string)
    ensures |r| > 0 ==> !IsSpace(r[0]) && !IsSpace(r[|r| - 1])
  {
    var t := StripLeading(s);
    var r := StripTrailing(t);
    assert |r| > 0 ==> r[0] == t[0];
    r
  }

  lemma StripIsSlice(s: string) returns (lo: nat)
    ensures lo + |Strip(s)| <= |s| && Strip(s) == s[lo..lo + |Strip(s)|]
  {
    var t := StripLeading(s);
    lo := |s| - |t|;
    assert Strip(s) == t[..|Strip(s)|] == s[lo..lo + |Strip(s)|];
  }

  /** Lines 20-24: tags and URLs removed, then the whitespace around newlines trimmed. */
  function Trimmed(text: string): string {
    var t1 := StripTags(text);
    var t2 := StripUrls(t1);
    var t3 := TrimBlanksBeforeNewline(t2);
    var t4 := TrimBlanksAfterNewline(t3);
    TrimSpaceBeforeNewline(t4)
  }

  /** Lines 25-26: runs of newlines and of blanks collapsed, then the ends stripped. */
  function Finished(t5: string): string {
    Strip(CollapseBlanks(CollapseNewlines(t5)))
  }

  /** Everything `clean_primamedia_text` does before the 10000-character cap. */
  function Tidy(text: string): string {
    Finished(Trimmed(text))
  }

  /** `clean_primamedia_text`. */
  function CleanText(text: string): (r: string)
    ensures |r| <= MaxLength
  {
    Take(Tidy(text), MaxLength)
  }

  /** No tab, no two adjacent spaces or tabs, no two adjacent newlines: what the last two substitutions leave. */
  predicate Compact(t: string) {
    '\t' !in t && NoAdjacent(t, IsBlank, IsBlank) && NoAdjacent(t, IsNewline, IsNewline)
  }

  /** Every slice of a compact text is compact. */
  lemma CompactSlice(t: string, lo: nat, hi: nat)
    requires lo <= hi <= |t| && Compact(t)
    ensures Compact(t[lo..hi])
  {
    NoAdjacentSlice(t, IsBlank, IsBlank, lo, hi);
    NoAdjacentSlice(t, IsNewline, IsNewline, lo, hi);
    assert forall i :: 0 <= i < hi - lo ==> t[lo..hi][i] == t[lo + i];
  }

  lemma {:induction false} CollapsedShape(t5: string)
    ensures Compact(CollapseBlanks(CollapseNewlines(t5)))
  {
    CollapseNewlinesSound(t5);
    CollapseBlanksSound(CollapseNewlines(t5));
  }

  /** Stripping keeps a text compact and removes whitespace from both ends. */
  lemma StripShape(t: string)
    requires Compact(t)
    ensures Compact(Strip(t))
    ensures |Strip(t)| > 0 ==> !IsSpace(Strip(t)[0]) && !IsSpace(Strip(t)[|Strip(t)| - 1])
  {
    var lo := StripIsSlice(t);
    CompactSlice(t, lo, lo + |Strip(t)|);
  }

  /** Whatever the first five substitutions leave, the last two and `strip()` make it compact, with no whitespace at either end. */
  lemma FinishShape(t5: string)
    ensures Compact(Finished(t5))
    ensures |Finished(t5)| > 0 ==> !IsSpace(Finished(t5)[0]) && !IsSpace(Finished(t5)[|Finished(t5)| - 1])
  {
    CollapsedShape(t5);
    StripShape(CollapseBlanks(CollapseNewlines(t5)));
  }

  /**
   * The shape of a cleaned text: at most 10000 characters, no tab, no two adjacent
   * spaces, no two adjacent newlines, no leading whitespace, and trailing whitespace
   * only when the cap cut the text.
   */
  lemma CleanTextShape(text: string)
    ensures var r := CleanText(text);
      && |r| <= MaxLength
      && '\t' !in r
      && NoAdjacent(r, IsBlank, IsBlank)
      && NoAdjacent(r, IsNewline, IsNewline)
      && (|r| > 0 ==> !IsSpace(r[0]))
      && (|Tidy(text)| <= MaxLength && |r| > 0 ==> !IsSpace(r[|r| - 1]))
  {
    FinishShape(Trimmed(text));
    CapShape(Tidy(text));
  }

  lemma CapShape(s: string)
    requires Compact(s) && (|s| > 0 ==> !IsSpace(s[0]) && !IsSpace(s[|s| - 1]))
    ensures var r := Take(s, MaxLength);
      && |r| <= MaxLength
      && '\t' !in r
      && NoAdjacent(r, IsBlank, IsBlank)
      && NoAdjacent(r, IsNewline, IsNewline)
      && (|r| > 0 ==> !IsSpace(r[0]))
      && (|s| <= MaxLength && |r| > 0 ==> !IsSpace(r[|r| - 1]))
  {
    CompactSlice(s, 0, |Take(s, MaxLength)|);
  }

  /** `strip()` leaves a text without whitespace at either end unchanged. */
  lemma StripUnchanged(s: string)
    requires |s| > 0 ==> !IsSpace(s[0]) && !IsSpace(s[|s| - 1])
    ensures Strip(s) == s
  {
    assert StripLeading(s) == s;
  }

  /** The last two substitutions and `strip()` leave a compact text without whitespace at either end unchanged. */
  lemma FinishedUnchanged(t: string)
    requires Compact(t) && (|t| > 0 ==> !IsSpace(t[0]) && !IsSpace(t[|t| - 1]))
    ensures Finished(t) == t
  {
    CollapseNewlinesUnchanged(t);
    CollapseBlanksUnchanged(t);
    StripUnchanged(t);
  }

  /**
   * A text the normaliser leaves unchanged (`TidyUnchanged`): no tag, no URL, no
   * whitespace before a newline, no space or tab after one, compact, and no whitespace
   * at either end.
   */
  predicate IsCleanForm(t: string) {
    && NoTag(t)
    && NoUrl(t)
    && NoAdjacent(t, IsSpace, IsNewline)
    && NoAdjacent(t, IsNewline, IsBlank)
    && Compact(t)
    && (|t| > 0 ==> !IsSpace(t[0]) && !IsSpace(t[|t| - 1]))
  }

  /** Spaces and tabs are whitespace, so no whitespace before a newline means no blank before one. */
  lemma NoBlankBeforeNewline(t: string)
    requires NoAdjacent(t, IsSpace, IsNewline)
    ensures NoAdjacent(t, IsBlank, IsNewline)
  {
    forall i: nat | i < |t| - 1 ensures !Adjacent(t, i, IsBlank, IsNewline) {
      assert !Adjacent(t, i, IsSpace, IsNewline);
    }
  }

  /** The seven substitutions and `strip()` leave a text already in clean form unchanged. */
  lemma TidyUnchanged(t: string)
    requires IsCleanForm(t)
    ensures Tidy(t) == t
  {
    StripTagsUnchanged(t);
    StripUrlsUnchanged(t);
    NoBlankBeforeNewline(t);
    TrimBlanksBeforeNewlineUnchanged(t);
    TrimBlanksAfterNewlineUnchanged(t);
    TrimSpaceBeforeNewlineUnchanged(t);
    FinishedUnchanged(t);
  }

  /**
   * The normaliser keeps every character of a text that is already clean and within
   * the cap: it returns such a text unchanged.
   */
  lemma CleanTextUnchanged(t: string)
    requires IsCleanForm(t) && |t| <= MaxLength
    ensures CleanText(t) == t
  {
    TidyUnchanged(t);
  }

  /**
   * `"a\nb x"`, the documented result of cleaning `"  a\n\n\nb  <b>x</b> http://y.com  "`
   * (that step itself is not proved here), is a fixed point of the normaliser.
   */
  lemma CleanExampleFixed()
    ensures CleanText("a\nb x") == "a\nb x"
  {
    ExampleIsClean();
    CleanTextUnchanged("a\nb x");
  }

  lemma ExampleIsClean()
    ensures IsCleanForm("a\nb x")
  {
    var t := "a\nb x";
    forall i | 0 <= i < |t| ensures !TagStart(t[i..]) && !UrlStart(t[i..]) {
      assert t[i..][0] == t[i];
    }
    forall i: nat | i < |t| - 1 ensures !Adjacent(t, i, IsSpace, IsNewline) && !Adjacent(t, i, IsNewline, IsBlank) {
    }
    forall i: nat | i < |t| - 1 ensures !Adjacent(t, i, IsBlank, IsBlank) && !Adjacent(t, i, IsNewline, IsNewline) {
    }
  }
}
