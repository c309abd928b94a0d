/**
 * The archive-page link collector `get_news_links_from_page`: from the hrefs of the
 * anchors on one listing page it keeps the article paths `/news/<digits>/`, reducing
 * absolute URLs to their path and dropping query strings, and removes duplicates
 * keeping the first occurrence. The HTTP fetch and the CSS selection are abstracted:
 * the page arrives as a status code and the list of selected hrefs.
 */
module Links {
  import opened Wrappers
  import opened Strings

  /** The listing page as the crawler receives it: no response at all (timeout, connection or parse error), or a status and the hrefs of the anchors selected by `a[href*="/news/"]`. */
  datatype ListingPage = Unreachable | Listing(status: int, hrefs: seq<string>)

  /** What one href contributes to the loop at lines 102-114. `Raises` is the `IndexError` of line 107. */
  datatype HrefOutcome = Skipped | Kept(path: string) | Raises

  /** `\d`, restricted to ASCII digits. */
  predicate IsDigit(c: char) { '0' <= c <= '9' }

  /** `re.fullmatch(r"/news/\d+/", path)`. */
  predicate IsNewsPath(p: string) {
    |p| >= 8 && p[..6] == "/news/" && p[|p| - 1] == '/' && forall i :: 6 <= i < |p| - 1 ==> IsDigit(p[i])
  }

  /** The `path` of lines 104-110: an absolute href loses its scheme and host; `None` where line 107 raises. */
  function HrefPath(href: string): Option<string>
  {
    if !StartsWith(href, "http") then Some(href)
    else match AfterFirst(href, "://")
      case None => None
      case Some(rest) => match AfterFirst(rest, "/")
        case None => None
        case Some(p) => Some("/" + p)
  }

  /** One pass of the loop body at lines 103-114. */
  function Examine(href: string): (o: HrefOutcome)
    ensures o.Kept? ==> IsNewsPath(o.path)
    ensures o.Raises? <==> StartsWith(href, "http") && Contains(href, "/news/")
                           && (AfterFirst(href, "://").None? || AfterFirst(AfterFirst(href, "://").value, "/").None?)
  {
    if StartsWith(href, "http") && !Contains(href, "/news/") then Skipped
    else match HrefPath(href)
      case None => Raises
      case Some(path) =>
        var p := BeforeFirst(path, "?");
        if IsNewsPath(p) then Kept(p) else Skipped
  }

  /**
   * The list the loop at lines 102-114 builds when each href contributes `examine(href)`,
   * or `None` when some href makes it raise.
   */
  function CollectedBy(examine: string -> HrefOutcome, hrefs: seq<string>): Option<seq<string>>
  {
    if hrefs == [] then Some([])
    else
      var init := hrefs[..|hrefs| - 1];
      var last := hrefs[|hrefs| - 1];
      match CollectedBy(examine, init)
      case None => None
      case Some(acc) =>
        match examine(last)
        case Raises => None
        case Skipped => Some(acc)
        case Kept(p) => Some(acc + [p])
  }

  /** The list `news_hrefs` that the loop builds, or `None` when some href makes it raise. */
  function Collected(hrefs: seq<string>): Option<seq<string>>
  {
    CollectedBy(Examine, hrefs)
  }

  /**
   * The loop fails exactly when some href raises; otherwise it keeps, in order, the
   * path of every href whose outcome is `Kept`, and every kept path is an article path.
   */
  lemma CollectedSpec(hrefs: seq<string>)
    ensures Collected(hrefs).None? <==> exists i :: 0 <= i < |hrefs| && Examine(hrefs[i]).Raises?
    ensures Collected(hrefs).Some? ==> forall p :: p in Collected(hrefs).value ==> IsNewsPath(p)
    ensures Collected(hrefs).Some? ==>
      forall p :: p in Collected(hrefs).value <==> exists i :: 0 <= i < |hrefs| && Examine(hrefs[i]) == Kept(p)
  {
    CollectedByFails(Examine, hrefs);
    CollectedByKeeps(Examine, hrefs);
  }

  /** Whatever each href contributes, the loop fails exactly when some href raises. */
  lemma {:induction false} CollectedByFails(examine: string -> HrefOutcome, hrefs: seq<string>)
    ensures CollectedBy(examine, hrefs).None? <==> exists i :: 0 <= i < |hrefs| && examine(hrefs[i]).Raises?
  {
    if hrefs != [] {
      var init := hrefs[..|hrefs| - 1];
      CollectedByFails(examine, init);
      assert forall i :: 0 <= i < |init| ==> init[i] == hrefs[i];
    }
  }

  /** Whatever each href contributes, a list that is built holds exactly the kept paths. */
  lemma {:induction false} CollectedByKeeps(examine: string -> HrefOutcome, hrefs: seq<string>)
    ensures CollectedBy(examine, hrefs).Some? ==>
      forall p :: p in CollectedBy(examine, hrefs).value <==> exists i :: 0 <= i < |hrefs| && examine(hrefs[i]) == Kept(p)
  {
    if hrefs != [] {
      var init := hrefs[..|hrefs| - 1];
      CollectedByKeeps(examine, init);
      assert forall i :: 0 <= i < |init| ==> init[i] == hrefs[i];
    }
  }

  /** `list(dict.fromkeys(xs))`: the elements of `xs`, each at its first occurrence. */
  function Dedup<T(==)>(xs: seq<T>): seq<T>
  {
    if xs == [] then []
    else
      var d := Dedup(xs[..|xs| - 1]);
      if xs[|xs| - 1] in d then d else d + [xs[|xs| - 1]]
  }

  /** Position of the first occurrence of `x` in `xs`. */
  function IndexOf<T(==)>(xs: seq<T>, x: T): (i: nat)
    requires x in xs
    ensures i < |xs| && xs[i] == x && x !in xs[..i]
  {
    if xs[0] == x then 0 else 1 + IndexOf(xs[1..], x)
  }

  predicate NoDuplicates<T(==)>(xs: seq<T>) {
    forall i, j :: 0 <= i < j < |xs| ==> xs[i] != xs[j]
  }

  /** `dict.fromkeys` keeps every element once, nothing else, in the order of first occurrence. */
  lemma {:induction false} DedupSpec<T>(xs: seq<T>)
    ensures forall x :: x in Dedup(xs) <==> x in xs
    ensures NoDuplicates(Dedup(xs))
    ensures forall i, j :: 0 <= i < j < |Dedup(xs)| ==> IndexOf(xs, Dedup(xs)[i]) < IndexOf(xs, Dedup(xs)[j])
  {
    if xs != [] {
      var init := xs[..|xs| - 1];
      var x := xs[|xs| - 1];
      var d := Dedup(init);
      DedupSpec(init);
      assert xs == init + [x];
      forall y | y in init ensures IndexOf(xs, y) == IndexOf(init, y) {
        IndexOfPrefix(init, x, y);
      }
      if x !in d {
        assert x !in init;
        IndexOfLast(init, x);
      }
    }
  }

  lemma {:induction false} IndexOfPrefix<T>(xs: seq<T>, x: T, y: T)
    requires y in xs
    ensures IndexOf(xs + [x], y) == IndexOf(xs, y)
  {
    if xs[0] != y {
      assert (xs + [x])[1..] == xs[1..] + [x];
      IndexOfPrefix(xs[1..], x, y);
    }
  }

  lemma {:induction false} IndexOfLast<T>(xs: seq<T>, x: T)
    requires x !in xs
    ensures IndexOf(xs + [x], x) == |xs|
  {
    if xs != [] {
      assert (xs + [x])[1..] == xs[1..] + [x];
      IndexOfLast(xs[1..], x);
    }
  }

  /** The value `get_news_links_from_page` returns for a page. */
  function NewsLinks(page: ListingPage): seq<string>
  {
    match page
    case Unreachable => []
    case Listing(status, hrefs) =>
      if status != 200 then []
      else match Collected(hrefs)
        case None => []
        case Some(paths) => Dedup(paths)
  }

  /** The loop of lines 100-114. */
  method CollectPaths(hrefs: seq<string>) returns (r: Option<seq<string>>)
    ensures r == Collected(hrefs)
  {
    var newsHrefs: seq<string> := [];
    for i := 0 to |hrefs|
      invariant Collected(hrefs[..i]) == Some(newsHrefs)
    {
      assert hrefs[..i + 1][..i] == hrefs[..i];
      var href := hrefs[i];
      var path: string;
      if StartsWith(href, "http") {
        if !Contains(href, "/news/") {
          continue;
        }
        var afterScheme := AfterFirst(href, "://");
        if afterScheme.None? {
          CollectedRaises(hrefs, i);
          return None;
        }
        var afterHost := AfterFirst(afterScheme.value, "/");
        if afterHost.None? {
          CollectedRaises(hrefs, i);
          return None;
        }
        path := "/" + afterHost.value;
      } else {
        path := href;
      }
      path := BeforeFirst(path, "?");
      if IsNewsPath(path) {
        newsHrefs := newsHrefs + [path];
      }
    }
    assert hrefs[..|hrefs|] == hrefs;
    r := Some(newsHrefs);
  }

  lemma CollectedRaises(hrefs: seq<string>, i: nat)
    requires i < |hrefs| && Examine(hrefs[i]).Raises?
    ensures Collected(hrefs).None?
  {
    CollectedSpec(hrefs);
  }

  /** `list(dict.fromkeys(xs))`, written as the loop it performs. */
  method Deduplicate(xs: seq<string>) returns (r: seq<string>)
    ensures r == Dedup(xs)
  {
    r := [];
    var seen: set<string> := {};
    for i := 0 to |xs|
      invariant r == Dedup(xs[..i])
      invariant seen == set x | x in r
    {
      assert xs[..i + 1][..i] == xs[..i];
      if xs[i] !in seen {
        seen := seen + {xs[i]};
        r := r + [xs[i]];
      }
    }
    assert xs[..|xs|] == xs;
  }

  /** `get_news_links_from_page`, lines 87-119. */
  method GetNewsLinks(page: ListingPage) returns (paths: seq<string>)
    ensures paths == NewsLinks(page)
  {
    if page.Unreachable? || page.status != 200 {
      return [];
    }
    var newsHrefs := CollectPaths(page.hrefs);
    if newsHrefs.None? {
      return [];
    }
    paths := Deduplicate(newsHrefs.value);
  }

  /**
   * Every returned path fully matches `/news/<digits>/`, comes from a kept href, appears
   * once, and the paths keep the order of their first occurrence.
   */
  lemma NewsLinksShape(page: ListingPage)
    ensures forall p :: p in NewsLinks(page) ==> IsNewsPath(p)
    ensures NoDuplicates(NewsLinks(page))
    ensures page.Listing? && Collected(page.hrefs).Some? && page.status == 200 ==>
      var kept := Collected(page.hrefs).value;
      && (forall p :: p in NewsLinks(page) <==> p in kept)
      && (forall i, j :: 0 <= i < j < |NewsLinks(page)| ==> IndexOf(kept, NewsLinks(page)[i]) < IndexOf(kept, NewsLinks(page)[j]))
  {
    if page.Listing? && page.status == 200 && Collected(page.hrefs).Some? {
      CollectedSpec(page.hrefs);
      DedupSpec(Collected(page.hrefs).value);
    }
  }

  /** The page yields no links when it cannot be fetched, when the status is not 200, or when any single href raises. */
  lemma NewsLinksEmpty(page: ListingPage)
    ensures page.Unreachable? ==> NewsLinks(page) == []
    ensures page.Listing? && page.status != 200 ==> NewsLinks(page) == []
    ensures page.Listing? && (exists i :: 0 <= i < |page.hrefs| && Examine(page.hrefs[i]).Raises?) ==> NewsLinks(page) == []
  {
    if page.Listing? {
      CollectedSpec(page.hrefs);
    }
  }

  /** An href starting with `http` that names an article but has no `://` raises, whatever else it holds. */
  lemma ArticleHrefWithoutScheme(href: string)
    requires StartsWith(href, "http") && Contains(href, "/news/") && !Contains(href, "://")
    ensures Examine(href) == Raises
  {
  }
}
