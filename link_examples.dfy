/** Worked consequences of the link filter: relative and absolute hrefs, and a small listing page. */
module LinkExamples {
  import opened Wrappers
  import opened Strings
  import opened Links

  /** A relative href is cut at its first `?` and kept exactly when what remains is an article path. */
  lemma {:induction false} RelativeHref(href: string)
    requires href != [] && href[0] == '/'
    ensures var p := href[..FirstIndexOf(href, '?')];
      Examine(href) == if IsNewsPath(p) then Kept(p) else Skipped
  {
    SlashIsNotHttp(href);
    assert HrefPath(href) == Some(href);
    BeforeFirstChar(href, '?');
  }

  lemma SlashIsNotHttp(href: string)
    requires href != [] && href[0] == '/'
    ensures !StartsWith(href, "http")
  {
    if |href| >= 4 {
      assert href[..4][0] == '/';
    }
  }

  lemma {:induction false} BeforeFirstChar(s: string, c: char)
    ensures BeforeFirst(s, [c]) == s[..FirstIndexOf(s, c)]
  {
    FindChar(s, c);
  }

  /**
   * An absolute article URL is treated as its path: the scheme and host are discarded
   * up to the first `/` after `://`.
   */
  lemma AbsoluteHrefIsItsPath(scheme: string, host: string, path: string)
    requires scheme == "http" || scheme == "https"
    requires '/' !in host
    requires path != [] && path[0] == '/' && Contains(path, "/news/")
    ensures Examine(scheme + "://" + host + path) == Examine(path)
  {
    var href := scheme + "://" + host + path;
    HttpScheme(scheme, host + path);
    assert href == scheme + "://" + (host + path);
    assert href == (scheme + "://" + host) + path;
    ContainsAfter(scheme + "://" + host, path, "/news/");
    SchemePart(scheme, host + path);
    HostPart(host, path);
    assert "/" + path[1..] == path;
    assert HrefPath(href) == Some(path);
    SlashIsNotHttp(path);
    SameCut(href, path);
  }

  lemma HttpScheme(scheme: string, tail: string)
    requires scheme == "http" || scheme == "https"
    ensures StartsWith(scheme + "://" + tail, "http")
  {
    assert (scheme + "://" + tail)[..4] == "http";
  }

  /** An absolute href that names an article is examined like the path it reduces to. */
  lemma SameCut(href: string, path: string)
    requires StartsWith(href, "http") && Contains(href, "/news/")
    requires HrefPath(href) == Some(path) && !StartsWith(path, "http")
    ensures Examine(href) == Examine(path)
  {
    assert HrefPath(path) == Some(path);
  }

  /** An absolute href that names an article is cut like the relative href `/` + the text after its host. */
  lemma AbsoluteHref(href: string, rest: string, p: string)
    requires StartsWith(href, "http") && Contains(href, "/news/")
    requires AfterFirst(href, "://") == Some(rest) && AfterFirst(rest, "/") == Some(p)
    ensures var q := ("/" + p)[..FirstIndexOf("/" + p, '?')];
      Examine(href) == if IsNewsPath(q) then Kept(q) else Skipped
  {
    assert HrefPath(href) == Some("/" + p);
    FindChar("/" + p, '?');
    assert BeforeFirst("/" + p, "?") == ("/" + p)[..FirstIndexOf("/" + p, '?')];
  }

  lemma SchemePart(scheme: string, tail: string)
    requires scheme == "http" || scheme == "https"
    ensures AfterFirst(scheme + "://" + tail, "://") == Some(tail)
  {
    var href := scheme + "://" + tail;
    assert href[|scheme|..][..3] == "://";
    FindAt(href, "://", |scheme|);
    assert href[..|scheme|] == scheme;
  }

  lemma HostPart(host: string, path: string)
    requires '/' !in host
    requires path != [] && path[0] == '/'
    ensures AfterFirst(host + path, "/") == Some(path[1..])
  {
    var rest := host + path;
    assert rest[|host|..] == path;
    FindAt(rest, "/", |host|);
    assert rest[..|host|] == host;
  }

  /** The relative hrefs of a small listing page: only `/news/123/` survives, once. */
  lemma RelativeHrefsExample()
    ensures NewsLinks(Listing(200, ["/news/123/", "/news/abc/", "/news/123/?ref=1", "/category/news/"])) == ["/news/123/"]
  {
    ExampleHrefs();
    KeptSkippedKeptSkipped("/news/123/", "/news/abc/", "/news/123/?ref=1", "/category/news/");
  }

  lemma ExampleHrefs()
    ensures Examine("/news/123/") == Kept("/news/123/")
    ensures Examine("/news/abc/") == Skipped
    ensures Examine("/news/123/?ref=1") == Kept("/news/123/")
    ensures Examine("/category/news/") == Skipped
  {
    ArticleFacts();
    ArticleKept("/news/123/");
    LettersFacts();
    NonDigitSkipped("/news/abc/", 6);
    QueryFacts();
    QueryDropped("/news/123/?ref=1", 10);
    CategoryFacts();
    OtherSectionSkipped("/category/news/");
  }

  lemma ArticleFacts()
    ensures IsNewsPath("/news/123/")
  {
  }

  lemma LettersFacts()
    ensures "/news/abc/" != [] && "/news/abc/"[0] == '/' && '?' !in "/news/abc/"
    ensures 6 < |"/news/abc/"| - 1 && !IsDigit("/news/abc/"[6])
  {
  }

  lemma QueryFacts()
    ensures 10 < |"/news/123/?ref=1"| && "/news/123/?ref=1"[10] == '?' && IsNewsPath("/news/123/?ref=1"[..10])
  {
    assert "/news/123/?ref=1"[..10] == "/news/123/";
  }

  lemma CategoryFacts()
    ensures "/category/news/" != [] && "/category/news/"[0] == '/' && '?' !in "/category/news/"
    ensures !StartsWith("/category/news/", "/news/")
  {
    assert "/category/news/"[..6][1] == 'c';
  }

  /** Four hrefs of which the first and third yield the same path and the others are skipped. */
  lemma KeptSkippedKeptSkipped(a: string, b: string, c: string, d: string)
    requires Examine(a) == Kept(a) && Examine(b) == Skipped && Examine(c) == Kept(a) && Examine(d) == Skipped
    ensures NewsLinks(Listing(200, [a, b, c, d])) == [a]
  {
    CollectedFour(Examine, a, b, c, d);
    DedupTwice(a);
  }

  /** Whatever each href contributes, two kept hrefs with the same path and two skipped ones leave that path twice. */
  lemma CollectedFour(examine: string -> HrefOutcome, a: string, b: string, c: string, d: string)
    requires examine(a) == Kept(a) && examine(b) == Skipped && examine(c) == Kept(a) && examine(d) == Skipped
    ensures CollectedBy(examine, [a, b, c, d]) == Some([a, a])
  {
    CollectedSnoc(examine, [], a);
    assert [] + [a] == [a];
    CollectedSnoc(examine, [a], b);
    assert [a] + [b] == [a, b];
    CollectedSnoc(examine, [a, b], c);
    assert [a, b] + [c] == [a, b, c] && [a] + [a] == [a, a];
    CollectedSnoc(examine, [a, b, c], d);
    assert [a, b, c] + [d] == [a, b, c, d];
  }

  lemma DedupTwice(a: string)
    ensures Dedup([a, a]) == [a]
  {
    var kept := [a, a];
    assert kept[..1][..0] == [];
    assert Dedup(kept[..1]) == [a];
  }

  /** The loop after one more href. */
  lemma {:induction false} CollectedSnoc(examine: string -> HrefOutcome, init: seq<string>, last: string)
    ensures CollectedBy(examine, init + [last]) ==
      match CollectedBy(examine, init)
      case None => None
      case Some(acc) =>
        match examine(last)
        case Raises => None
        case Skipped => Some(acc)
        case Kept(p) => Some(acc + [p])
  {
    assert (init + [last])[..|init|] == init;
  }

  /** An article path is kept as it is. */
  lemma {:induction false} ArticleKept(h: string)
    requires IsNewsPath(h)
    ensures Examine(h) == Kept(h)
  {
    NewsPathHasNoQuery(h);
    assert h[..|h|] == h;
    RelativeHrefCut(h, |h|);
  }

  lemma {:induction false} NewsPathHasNoQuery(h: string)
    requires IsNewsPath(h)
    ensures forall j :: 0 <= j < |h| ==> h[j] != '?'
  {
    forall j | 0 <= j < |h| ensures h[j] != '?' {
      if j < 6 {
        assert h[j] == h[..6][j];
      }
    }
  }

  /** An article path followed by a query string is kept without the query. */
  lemma {:induction false} QueryDropped(h: string, k: nat)
    requires k < |h| && h[k] == '?' && IsNewsPath(h[..k])
    ensures Examine(h) == Kept(h[..k])
  {
    NewsPathHasNoQuery(h[..k]);
    assert forall j :: 0 <= j < k ==> h[j] == h[..k][j];
    RelativeHrefCut(h, k);
  }

  /** A relative href without a query is skipped when a character between `/news/` and the final `/` is not a digit. */
  lemma {:induction false} NonDigitSkipped(h: string, i: nat)
    requires h != [] && h[0] == '/' && '?' !in h
    requires 6 <= i < |h| - 1 && !IsDigit(h[i])
    ensures Examine(h) == Skipped
  {
    assert h[..|h|] == h;
    RelativeHrefCut(h, |h|);
  }

  /** A relative href without a query is skipped when it does not start with `/news/`. */
  lemma {:induction false} OtherSectionSkipped(h: string)
    requires h != [] && h[0] == '/' && '?' !in h
    requires !StartsWith(h, "/news/")
    ensures Examine(h) == Skipped
  {
    assert h[..|h|] == h;
    RelativeHrefCut(h, |h|);
  }

  /** `RelativeHref` with the position of the first `?` (or the length) given. */
  lemma RelativeHrefCut(href: string, k: nat)
    requires href != [] && href[0] == '/'
    requires k <= |href| && (k < |href| ==> href[k] == '?')
    requires forall j :: 0 <= j < k ==> href[j] != '?'
    ensures Examine(href) == if IsNewsPath(href[..k]) then Kept(href[..k]) else Skipped
  {
    RelativeHref(href);
    FirstIndexOfAt(href, '?', k);
  }
}
