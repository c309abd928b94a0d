/**
 * `process_page` and the page loop of `parse_primamedia_news_async`. The listing
 * pages and the article visits come from the environment as functions of the page
 * number and of the URL; the article fetches that `asyncio.gather` runs side by side
 * are taken one after another in the order they were dispatched.
 */
module Crawl {
  import opened Wrappers
  import opened Strings
  import opened Links
  import opened Database
  import opened ArticleParser
  import opened TextClean

  const BaseUrl: string := "https://primamedia.ru"

  /** Pages up to this number may save nothing without ending the crawl. */
  const GracePages: nat := 3

  /** `urljoin(base_url, path)` for a path that starts with `/`. */
  function ArticleUrl(path: string): string
  {
    BaseUrl + path
  }

  /**
   * The URLs for which lines 137-143 create a task, in order: those neither stored nor
   * already processed, where the processed set grows with every dispatch.
   */
  function Dispatched(paths: seq<string>, rows: seq<Article>, seen: set<string>): seq<string>
  {
    if paths == [] then []
    else
      var d := Dispatched(paths[..|paths| - 1], rows, seen);
      var url := ArticleUrl(paths[|paths| - 1]);
      if HasUrl(rows, url) || url in seen || url in d then d else d + [url]
  }

  /**
   * A URL is dispatched exactly when it is the URL of one of the paths and is neither
   * stored nor processed; no URL is dispatched twice.
   */
  lemma {:induction false} DispatchedSpec(paths: seq<string>, rows: seq<Article>, seen: set<string>)
    ensures NoDuplicates(Dispatched(paths, rows, seen))
    ensures forall url :: url in Dispatched(paths, rows, seen) <==>
      (exists i :: 0 <= i < |paths| && ArticleUrl(paths[i]) == url) && !HasUrl(rows, url) && url !in seen
  {
    if paths != [] {
      var init := paths[..|paths| - 1];
      DispatchedSpec(init, rows, seen);
      assert forall i :: 0 <= i < |init| ==> init[i] == paths[i];
      assert paths == init + [paths[|paths| - 1]];
    }
  }

  /**
   * What a visit of `url` hands to the store: the row `parse_primamedia_article` offers
   * to `INSERT OR IGNORE`, or nothing when it returns `False` before saving.
   */
  function Offer(url: string, visit: Visit): (r: Option<Article>)
    ensures r.Some? <==> ArticleFor(url, visit.page).Some?
    ensures r.Some? ==> r.value.url == url && r.value.guid == visit.guid && MinDescription <= |r.value.description| <= MaxLength
  {
    match ArticleFor(url, visit.page)
    case None => None
    case Some(d) => Some(NewRecord(d, visit.guid, visit.createdAt))
  }

  /** The offers of the visits of an article site, one per URL. */
  function Offering(site: string -> Visit): string -> Option<Article>
  {
    (url: string) => Offer(url, site(url))
  }

  /** The rows after the offers of the visits of `urls` have been inserted one after another. */
  function SaveAll(rows: seq<Article>, urls: seq<string>, offer: string -> Option<Article>): seq<Article>
  {
    if urls == [] then rows
    else
      var before := SaveAll(rows, urls[..|urls| - 1], offer);
      match offer(urls[|urls| - 1])
      case None => before
      case Some(a) => InsertOrIgnore(before, a)
  }

  /** Line 147: how many visits returned `True`, that is, offered a row. */
  function CountAccepted(urls: seq<string>, offer: string -> Option<Article>): nat
  {
    if urls == [] then 0
    else CountAccepted(urls[..|urls| - 1], offer) + if offer(urls[|urls| - 1]).Some? then 1 else 0
  }

  /** The count of accepted visits never exceeds the number of visits. */
  lemma {:induction false} CountAcceptedBound(urls: seq<string>, offer: string -> Option<Article>)
    ensures CountAccepted(urls, offer) <= |urls|
  {
    if urls != [] {
      CountAcceptedBound(urls[..|urls| - 1], offer);
    }
  }

  /** No set of visits lets a row below the quality gate into the table. */
  lemma {:induction false} SaveAllKeepsGate(rows: seq<Article>, urls: seq<string>, site: string -> Visit)
    requires GatedRows(rows)
    ensures GatedRows(SaveAll(rows, urls, Offering(site)))
  {
    if urls != [] {
      var url := urls[|urls| - 1];
      SaveAllKeepsGate(rows, urls[..|urls| - 1], site);
      if ArticleFor(url, site(url).page).Some? {
        InsertKeepsGate(SaveAll(rows, urls[..|urls| - 1], Offering(site)), ArticleFor(url, site(url).page).value, site(url).guid, site(url).createdAt);
      }
    }
  }

  /** A page delivered with status 200 whose normalised body reaches the gate. */
  predicate Accepted(visit: Visit) {
    visit.page.Delivered? && visit.page.status == 200 && |Description(visit.page)| >= MinDescription
  }

  /**
   * Three new article URLs of which the first two have bodies of at least 300
   * characters and the third a shorter one: two rows are added and two visits count
   * as saved.
   */
  lemma TwoOfThreeSaved(rows: seq<Article>, a: string, b: string, c: string, site: string -> Visit)
    requires a != b && !HasUrl(rows, a) && !HasUrl(rows, b)
    requires site(a).guid != site(b).guid && !HasGuid(rows, site(a).guid) && !HasGuid(rows, site(b).guid)
    requires Accepted(site(a)) && Accepted(site(b))
    requires site(c).page.Delivered? && site(c).page.status == 200 && |Description(site(c).page)| < MinDescription
    ensures CountAccepted([a, b, c], Offering(site)) == 2
    ensures SaveAll(rows, [a, b, c], Offering(site)) ==
      rows + [NewRecord(ArticleFor(a, site(a).page).value, site(a).guid, site(a).createdAt),
              NewRecord(ArticleFor(b, site(b).page).value, site(b).guid, site(b).createdAt)]
  {
    ShortBodyRejected(c, site(c).page);
    var ra := NewRecord(ArticleFor(a, site(a).page).value, site(a).guid, site(a).createdAt);
    var rb := NewRecord(ArticleFor(b, site(b).page).value, site(b).guid, site(b).createdAt);
    assert Offering(site)(a) == Some(ra);
    assert Offering(site)(b) == Some(rb);
    assert Offering(site)(c) == None;
    TwoOfThreeCounted(a, b, c, Offering(site));
    TwoOfThreeRows(rows, a, b, c, Offering(site), ra, rb);
  }

  /** Two visits that offer a row and one that does not count as two saved. */
  lemma TwoOfThreeCounted(a: string, b: string, c: string, offer: string -> Option<Article>)
    requires offer(a).Some? && offer(b).Some? && offer(c).None?
    ensures CountAccepted([a, b, c], offer) == 2
  {
    var t := [a, b, c];
    assert t[..0] == [] && t[..3] == t;
    CountAcceptedSnoc(t, 0, offer);
    CountAcceptedSnoc(t, 1, offer);
    CountAcceptedSnoc(t, 2, offer);
  }

  /** Two offered rows with new urls and guids are appended in order; a visit that offers nothing adds none. */
  lemma TwoOfThreeRows(rows: seq<Article>, a: string, b: string, c: string, offer: string -> Option<Article>, ra: Article, rb: Article)
    requires offer(a) == Some(ra) && offer(b) == Some(rb) && offer(c).None?
    requires !HasUrl(rows, ra.url) && !HasGuid(rows, ra.guid) && !HasUrl(rows, rb.url) && !HasGuid(rows, rb.guid)
    requires ra.url != rb.url && ra.guid != rb.guid
    ensures SaveAll(rows, [a, b, c], offer) == rows + [ra, rb]
  {
    var t := [a, b, c];
    assert t[..0] == [] && t[..3] == t;
    SaveAllSnoc(rows, t, 0, offer);
    InsertNew(rows, ra);
    SaveAllSnoc(rows, t, 1, offer);
    StillNew(rows, ra, rb);
    InsertNew(rows + [ra], rb);
    SaveAllSnoc(rows, t, 2, offer);
    AppendTwo(rows, ra, rb);
  }

  lemma AppendTwo<T>(xs: seq<T>, x: T, y: T)
    ensures xs + [x] + [y] == xs + [x, y]
  {
    assert xs + [x] + [y] == xs + ([x] + [y]);
  }

  /** A row whose url and guid are both new is appended. */
  lemma InsertNew(rows: seq<Article>, r: Article)
    requires !HasUrl(rows, r.url) && !HasGuid(rows, r.guid)
    ensures InsertOrIgnore(rows, r) == rows + [r]
  {
  }

  /** A row with a different url and guid does not make another one old. */
  lemma StillNew(rows: seq<Article>, ra: Article, rb: Article)
    requires !HasUrl(rows, rb.url) && !HasGuid(rows, rb.guid)
    requires ra.url != rb.url && ra.guid != rb.guid
    ensures !HasUrl(rows + [ra], rb.url) && !HasGuid(rows + [ra], rb.guid)
  {
    assert forall i :: 0 <= i < |rows| ==> (rows + [ra])[i] == rows[i];
  }

  /** What one `process_page` call yields: the saved count, the table after it, and the processed set after it. */
  datatype PageResult = PageResult(saved: nat, rows: seq<Article>, seen: set<string>)

  /** One listing page processed: its new article URLs visited in dispatch order. */
  function ProcessedPage(listing: ListingPage, rows: seq<Article>, seen: set<string>, site: string -> Visit): PageResult
  {
    var urls := Dispatched(NewsLinks(listing), rows, seen);
    PageResult(CountAccepted(urls, Offering(site)), SaveAll(rows, urls, Offering(site)), seen + (set url | url in urls))
  }

  /** A page without article links saves nothing and leaves the table and the processed set as they were (lines 131-132). */
  lemma ProcessedPageEmpty(listing: ListingPage, rows: seq<Article>, seen: set<string>, site: string -> Visit)
    requires NewsLinks(listing) == []
    ensures ProcessedPage(listing, rows, seen, site) == PageResult(0, rows, seen)
  {
    assert (set url | url in Dispatched([], rows, seen)) == {};
  }

  /** Processing of one page, given its number, the table and the processed set. */
  type PageStep = (nat, seq<Article>, set<string>) -> PageResult

  /** `process_page` on the listing page of each number, with the given article site. */
  function Processor(listing: nat -> ListingPage, site: string -> Visit): PageStep
  {
    (page: nat, rows: seq<Article>, seen: set<string>) => ProcessedPage(listing(page), rows, seen, site)
  }

  /**
   * The work of `process_page` once its listing page is known: collects the links of
   * the page, dispatches the new ones, records them as processed, visits them and
   * counts the successes.
   */
  method ProcessListing(store: ArticleStore, seen: set<string>, listing: ListingPage, site: string -> Visit)
    returns (saved: nat, seenAfter: set<string>)
    requires store.Valid()
    modifies store
    ensures store.Valid()
    ensures ProcessedPage(listing, old(store.rows), seen, site) == PageResult(saved, store.rows, seenAfter)
    ensures GatedRows(old(store.rows)) ==> GatedRows(store.rows)
  {
    var paths := GetNewsLinks(listing);
    if paths == [] {
      return 0, seen;
    }
    var tasks;
    tasks, seenAfter := Dispatch(store, paths, seen);
    saved := Gather(store, tasks, site);
  }

  /**
   * Lines 137-143: walks the paths in order and creates a task for every URL that is
   * neither stored nor processed yet, recording it as processed.
   */
  method Dispatch(store: ArticleStore, paths: seq<string>, seen: set<string>)
    returns (tasks: seq<string>, seenAfter: set<string>)
    ensures tasks == Dispatched(paths, store.rows, seen)
    ensures seenAfter == seen + (set url | url in tasks)
  {
    tasks := [];
    seenAfter := seen;
    for i := 0 to |paths|
      invariant tasks == Dispatched(paths[..i], store.rows, seen)
      invariant seenAfter == seen + (set url | url in tasks)
    {
      assert paths[..i + 1][..i] == paths[..i];
      var url := ArticleUrl(paths[i]);
      var stored := store.UrlExists(url);
      if stored || url in seenAfter {
        continue;
      }
      seenAfter := seenAfter + {url};
      tasks := tasks + [url];
    }
    assert paths[..|paths|] == paths;
  }

  /**
   * Lines 146-147: `asyncio.gather` over the dispatched visits, taken in dispatch
   * order, and the number that returned `True`.
   */
  method Gather(store: ArticleStore, tasks: seq<string>, site: string -> Visit) returns (saved: nat)
    requires store.Valid()
    modifies store
    ensures store.Valid()
    ensures store.rows == SaveAll(old(store.rows), tasks, Offering(site))
    ensures saved == CountAccepted(tasks, Offering(site))
    ensures GatedRows(old(store.rows)) ==> GatedRows(store.rows)
  {
    saved := 0;
    ghost var rows0 := store.rows;
    for j := 0 to |tasks|
      invariant store.Valid()
      invariant store.rows == SaveAll(rows0, tasks[..j], Offering(site))
      invariant saved == CountAccepted(tasks[..j], Offering(site))
      invariant GatedRows(rows0) ==> GatedRows(store.rows)
    {
      SaveAllSnoc(rows0, tasks, j, Offering(site));
      CountAcceptedSnoc(tasks, j, Offering(site));
      var ok := ParseArticle(store, tasks[j], site(tasks[j]));
      if ok {
        saved := saved + 1;
      }
    }
    assert tasks[..|tasks|] == tasks;
  }

  /** The rows after one more visit. */
  lemma SaveAllSnoc(rows: seq<Article>, tasks: seq<string>, j: nat, offer: string -> Option<Article>)
    requires j < |tasks|
    ensures SaveAll(rows, tasks[..j + 1], offer) ==
      match offer(tasks[j])
      case None => SaveAll(rows, tasks[..j], offer)
      case Some(a) => InsertOrIgnore(SaveAll(rows, tasks[..j], offer), a)
  {
    assert tasks[..j + 1][..j] == tasks[..j];
  }

  /** The count after one more visit. */
  lemma CountAcceptedSnoc(tasks: seq<string>, j: nat, offer: string -> Option<Article>)
    requires j < |tasks|
    ensures CountAccepted(tasks[..j + 1], offer) == CountAccepted(tasks[..j], offer) + if offer(tasks[j]).Some? then 1 else 0
  {
    assert tasks[..j + 1][..j] == tasks[..j];
  }

  /** Sum of a sequence of counts. */
  function Sum(counts: seq<nat>): nat
  {
    if counts == [] then 0 else Sum(counts[..|counts| - 1]) + counts[|counts| - 1]
  }

  lemma {:induction false} SumSnoc(counts: seq<nat>, c: nat)
    ensures Sum(counts + [c]) == Sum(counts) + c
  {
    assert (counts + [c])[..|counts|] == counts;
  }

  /** What a crawl leaves behind: the saved count of every page processed, the table and the processed set. */
  datatype Run = Run(counts: seq<nat>, rows: seq<Article>, seen: set<string>)

  /** The crawl from page `page` on, one `step` per page, until the stopping rule fires or the pages run out. */
  function CrawlFrom(page: nat, maxPages: int, rows: seq<Article>, seen: set<string>, step: PageStep): Run
    decreases maxPages - page
  {
    if page > maxPages then Run([], rows, seen)
    else
      var r := step(page, rows, seen);
      if r.saved == 0 && page > GracePages then Run([r.saved], r.rows, r.seen)
      else
        var rest := CrawlFrom(page + 1, maxPages, r.rows, r.seen, step);
        Run([r.saved] + rest.counts, rest.rows, rest.seen)
  }

  /**
   * The stopping rule of lines 172-178 for a run that starts at page `first`: no more
   * pages than there are, no stop before the last page processed, and a run shorter
   * than the available pages ends on a page after page 3 that saved nothing.
   */
  predicate StopsFrom(counts: seq<nat>, first: nat, maxPages: int) {
    && |counts| <= (if maxPages < first then 0 else maxPages - first + 1)
    && (forall i :: 0 <= i < |counts| - 1 ==> !(counts[i] == 0 && first + i > GracePages))
    && (|counts| < maxPages - first + 1 ==>
          |counts| > 0 && counts[|counts| - 1] == 0 && first + |counts| - 1 > GracePages)
  }

  /** Every crawl obeys the stopping rule. */
  lemma {:induction false} CrawlFromStops(page: nat, maxPages: int, rows: seq<Article>, seen: set<string>, step: PageStep)
    ensures StopsFrom(CrawlFrom(page, maxPages, rows, seen, step).counts, page, maxPages)
    decreases maxPages - page
  {
    if page <= maxPages {
      var r := step(page, rows, seen);
      if !(r.saved == 0 && page > GracePages) {
        CrawlFromStops(page + 1, maxPages, r.rows, r.seen, step);
        StopsFromCons(r.saved, CrawlFrom(page + 1, maxPages, r.rows, r.seen, step).counts, page, maxPages);
      }
    }
  }

  /** A page that does not stop the crawl, followed by a run that obeys the rule from the next page. */
  lemma StopsFromCons(saved: nat, rest: seq<nat>, page: nat, maxPages: int)
    requires page <= maxPages && !(saved == 0 && page > GracePages)
    requires StopsFrom(rest, page + 1, maxPages)
    ensures StopsFrom([saved] + rest, page, maxPages)
  {
    var counts := [saved] + rest;
    assert forall i :: 1 <= i < |counts| ==> counts[i] == rest[i - 1];
  }

  /** `parse_primamedia_news_async`: pages 1, 2, ... up to `maxPages`, stopping early by the rule of line 176. */
  method CrawlPages(store: ArticleStore, maxPages: int, listing: nat -> ListingPage, site: string -> Visit)
    returns (total: nat, ghost perPage: seq<nat>)
    requires store.Valid()
    modifies store
    ensures store.Valid()
    ensures var run := CrawlFrom(1, maxPages, old(store.rows), {}, Processor(listing, site));
      perPage == run.counts && store.rows == run.rows
    ensures total == Sum(perPage)
    ensures StopsFrom(perPage, 1, maxPages)
    ensures GatedRows(old(store.rows)) ==> GatedRows(store.rows)
  {
    ghost var step := Processor(listing, site);
    forall page: nat, rows: seq<Article>, seen: set<string>
      ensures step(page, rows, seen) == ProcessedPage(listing(page), rows, seen, site)
      ensures GatedRows(rows) ==> GatedRows(step(page, rows, seen).rows)
    {
      ProcessorStep(listing, site, page, rows, seen);
      if GatedRows(rows) {
        SaveAllKeepsGate(rows, Dispatched(NewsLinks(listing(page)), rows, seen), site);
      }
    }
    ghost var rows0 := store.rows;
    total, perPage := CrawlLoop(store, maxPages, listing, site, step);
    CrawlFromStops(1, maxPages, rows0, {}, step);
    CrawlFromKeepsGate(1, maxPages, rows0, {}, step);
  }

  /**
   * The page loop of lines 172-181, for a page processor `step` known only through
   * its agreement with `process_page`.
   */
  method CrawlLoop(store: ArticleStore, maxPages: int, listing: nat -> ListingPage, site: string -> Visit, ghost step: PageStep)
    returns (total: nat, ghost perPage: seq<nat>)
    requires store.Valid()
    requires Agrees(step, listing, site)
    modifies store
    ensures store.Valid()
    ensures var run := CrawlFrom(1, maxPages, old(store.rows), {}, step);
      perPage == run.counts && store.rows == run.rows
    ensures total == Sum(perPage)
  {
    ghost var run := CrawlFrom(1, maxPages, store.rows, {}, step);
    total := 0;
    perPage := [];
    var seen: set<string> := {};
    var page: nat := 1;
    while page <= maxPages
      invariant 1 <= page
      invariant store.Valid()
      invariant Resumes(run, perPage, page, maxPages, store.rows, seen, step)
      invariant total == Sum(perPage)
      decreases maxPages - page
    {
      ghost var rows0, seen0, perPage0 := store.rows, seen, perPage;
      var saved;
      saved, seen := ProcessPage(store, page, seen, listing, site, step);
      CrawlAdvance(page, maxPages, rows0, seen0, step, perPage0, saved, store.rows, seen, run);
      SumSnoc(perPage, saved);
      total := total + saved;
      perPage := perPage + [saved];
      if saved == 0 && page > GracePages {
        break;
      }
      page := page + 1;
    }
    if page > maxPages {
      ResumesEnd(run, perPage, page, maxPages, store.rows, seen, step);
    }
  }

  /**
   * `process_page(page_num)`: processes the listing page of number `page`. The ghost
   * `step` is the page processor of the crawl, known to agree with `ProcessedPage`.
   */
  method ProcessPage(store: ArticleStore, page: nat, seen: set<string>, listing: nat -> ListingPage,
                     site: string -> Visit, ghost step: PageStep)
    returns (saved: nat, seenAfter: set<string>)
    requires store.Valid()
    requires Agrees(step, listing, site)
    modifies store
    ensures store.Valid()
    ensures step(page, old(store.rows), seen) == PageResult(saved, store.rows, seenAfter)
  {
    ghost var rows0 := store.rows;
    saved, seenAfter := ProcessListing(store, seen, listing(page), site);
    StepAgrees(listing, site, step, page, rows0, seen, PageResult(saved, store.rows, seenAfter));
  }

  /** `step` processes every page as `process_page` does. */
  ghost predicate Agrees(step: PageStep, listing: nat -> ListingPage, site: string -> Visit) {
    forall page: nat, rows: seq<Article>, seen: set<string> {:trigger ProcessedPage(listing(page), rows, seen, site)} ::
      step(page, rows, seen) == ProcessedPage(listing(page), rows, seen, site)
  }

  lemma StepAgrees(listing: nat -> ListingPage, site: string -> Visit, step: PageStep,
                   page: nat, rows: seq<Article>, seen: set<string>, r: PageResult)
    requires Agrees(step, listing, site)
    requires ProcessedPage(listing(page), rows, seen, site) == r
    ensures step(page, rows, seen) == r
  {
  }

  /** `run` is `done` followed by the crawl from `page` on. */
  ghost predicate Resumes(run: Run, done: seq<nat>, page: nat, maxPages: int, rows: seq<Article>, seen: set<string>, step: PageStep) {
    var rest := CrawlFrom(page, maxPages, rows, seen, step);
    done + rest.counts == run.counts && rest.rows == run.rows
  }

  /** Past the last page nothing remains of the crawl. */
  lemma ResumesEnd(run: Run, done: seq<nat>, page: nat, maxPages: int, rows: seq<Article>, seen: set<string>, step: PageStep)
    requires page > maxPages && Resumes(run, done, page, maxPages, rows, seen, step)
    ensures done == run.counts && rows == run.rows
  {
    assert done + [] == done;
  }

  /** A crawl whose every page keeps the quality gate keeps it throughout. */
  lemma {:induction false} CrawlFromKeepsGate(page: nat, maxPages: int, rows: seq<Article>, seen: set<string>, step: PageStep)
    requires forall page: nat, rows: seq<Article>, seen: set<string> ::
      GatedRows(rows) ==> GatedRows(step(page, rows, seen).rows)
    ensures GatedRows(rows) ==> GatedRows(CrawlFrom(page, maxPages, rows, seen, step).rows)
    decreases maxPages - page
  {
    if page <= maxPages {
      var r := step(page, rows, seen);
      if !(r.saved == 0 && page > GracePages) {
        CrawlFromKeepsGate(page + 1, maxPages, r.rows, r.seen, step);
      }
    }
  }

  lemma ProcessorStep(listing: nat -> ListingPage, site: string -> Visit, page: nat, rows: seq<Article>, seen: set<string>)
    ensures Processor(listing, site)(page, rows, seen) == ProcessedPage(listing(page), rows, seen, site)
  {
  }

  /** The loop invariant of `CrawlPages` carried over one page. */
  lemma CrawlAdvance(page: nat, maxPages: int, rows: seq<Article>, seen: set<string>, step: PageStep,
                     done: seq<nat>, saved: nat, rows': seq<Article>, seen': set<string>, run: Run)
    requires page <= maxPages
    requires step(page, rows, seen) == PageResult(saved, rows', seen')
    requires Resumes(run, done, page, maxPages, rows, seen, step)
    ensures saved == 0 && page > GracePages ==> done + [saved] == run.counts && rows' == run.rows
    ensures !(saved == 0 && page > GracePages) ==> Resumes(run, done + [saved], page + 1, maxPages, rows', seen', step)
  {
    CrawlFromUnfold(page, maxPages, rows, seen, step);
    var rest := CrawlFrom(page + 1, maxPages, rows', seen', step);
    assert done + ([saved] + rest.counts) == (done + [saved]) + rest.counts;
  }

  /** One page of the crawl: its step, then either the stop or the rest of the crawl. */
  lemma CrawlFromUnfold(page: nat, maxPages: int, rows: seq<Article>, seen: set<string>, step: PageStep)
    requires page <= maxPages
    ensures var r := step(page, rows, seen);
      CrawlFrom(page, maxPages, rows, seen, step) ==
        if r.saved == 0 && page > GracePages then Run([r.saved], r.rows, r.seen)
        else Run([r.saved] + CrawlFrom(page + 1, maxPages, r.rows, r.seen, step).counts,
                 CrawlFrom(page + 1, maxPages, r.rows, r.seen, step).rows,
                 CrawlFrom(page + 1, maxPages, r.rows, r.seen, step).seen)
  {
  }

  // ---------------------------------------------------------------------------
  // A second crawl over the table the first one left

  /** `after` is `before` with rows appended: what every insert does to the table. */
  predicate Extends(before: seq<Article>, after: seq<Article>) {
    |before| <= |after| && after[..|before|] == before
  }

  lemma ExtendsTrans(a: seq<Article>, b: seq<Article>, c: seq<Article>)
    requires Extends(a, b) && Extends(b, c)
    ensures Extends(a, c)
  {
    assert c[..|a|] == c[..|b|][..|a|];
  }

  /** A url or guid stored before is still stored after more rows are appended. */
  lemma ExtendsKeeps(before: seq<Article>, after: seq<Article>, url: string, guid: string)
    requires Extends(before, after)
    ensures HasUrl(before, url) ==> HasUrl(after, url)
    ensures HasGuid(before, guid) ==> HasGuid(after, guid)
  {
    if HasUrl(before, url) {
      var i :| 0 <= i < |before| && before[i].url == url;
      assert after[..|before|][i] == after[i];
    }
    if HasGuid(before, guid) {
      var i :| 0 <= i < |before| && before[i].guid == guid;
      assert after[..|before|][i] == after[i];
    }
  }

  /** Inserting the visits' rows only appends to the table. */
  lemma {:induction false} SaveAllExtends(rows: seq<Article>, urls: seq<string>, offer: string -> Option<Article>)
    ensures Extends(rows, SaveAll(rows, urls, offer))
  {
    if urls != [] {
      var before := SaveAll(rows, urls[..|urls| - 1], offer);
      SaveAllExtends(rows, urls[..|urls| - 1], offer);
      if offer(urls[|urls| - 1]).Some? {
        InsertOrIgnoreSpec(before, offer(urls[|urls| - 1]).value);
        ExtendsTrans(rows, before, SaveAll(rows, urls, offer));
      }
    }
  }

  /**
   * The visit of `url` can no longer change the table: it offers no row, or the url or
   * the guid of its row is already stored, so `INSERT OR IGNORE` drops it.
   */
  predicate Settled(rows: seq<Article>, url: string, offer: string -> Option<Article>) {
    offer(url).None? || HasUrl(rows, offer(url).value.url) || HasGuid(rows, offer(url).value.guid)
  }

  /** A visit settled in a table stays settled once more rows are appended. */
  lemma SettledExtends(before: seq<Article>, after: seq<Article>, url: string, offer: string -> Option<Article>)
    requires Extends(before, after) && Settled(before, url, offer)
    ensures Settled(after, url, offer)
  {
    if offer(url).Some? {
      ExtendsKeeps(before, after, offer(url).value.url, offer(url).value.guid);
    }
  }

  /** After the visits of `urls` have been saved, every one of them is settled. */
  lemma {:induction false} SaveAllSettles(rows: seq<Article>, urls: seq<string>, offer: string -> Option<Article>)
    ensures forall url :: url in urls ==> Settled(SaveAll(rows, urls, offer), url, offer)
  {
    if urls != [] {
      var init, last := urls[..|urls| - 1], urls[|urls| - 1];
      var before, after := SaveAll(rows, init, offer), SaveAll(rows, urls, offer);
      SaveAllSettles(rows, init, offer);
      if offer(last).Some? {
        InsertOrIgnoreSpec(before, offer(last).value);
      } else {
        assert after[..|before|] == before;
      }
      assert urls == init + [last];
      forall url | url in urls ensures Settled(after, url, offer) {
        if url in init {
          SettledExtends(before, after, url, offer);
        }
      }
    }
  }

  /** Visits that are all settled leave the table unchanged. */
  lemma {:induction false} SaveAllSettled(rows: seq<Article>, urls: seq<string>, offer: string -> Option<Article>)
    requires forall url :: url in urls ==> Settled(rows, url, offer)
    ensures SaveAll(rows, urls, offer) == rows
  {
    if urls != [] {
      var last := urls[|urls| - 1];
      assert urls == urls[..|urls| - 1] + [last];
      SaveAllSettled(rows, urls[..|urls| - 1], offer);
      assert Settled(rows, last, offer);
    }
  }

  /** A page saves nothing exactly when none of its visits is accepted. */
  lemma {:induction false} CountAcceptedZero(urls: seq<string>, offer: string -> Option<Article>)
    ensures CountAccepted(urls, offer) == 0 <==> forall url :: url in urls ==> offer(url).None?
  {
    if urls != [] {
      assert urls == urls[..|urls| - 1] + [urls[|urls| - 1]];
      CountAcceptedZero(urls[..|urls| - 1], offer);
    }
  }

  /**
   * One page of a second crawl, run against a table that extends what the first crawl
   * left after this page, and with every URL the first crawl had processed (and that
   * is not stored) already processed: it dispatches only URLs the first crawl
   * dispatched on this page, so it leaves the table unchanged, it saves nothing when
   * the first crawl saved nothing, and the relation between the processed sets holds
   * for the next page.
   */
  lemma RerunPage(listing: ListingPage, rows1: seq<Article>, seen1: set<string>,
                  rows: seq<Article>, seen2: set<string>, site: string -> Visit)
    requires Extends(ProcessedPage(listing, rows1, seen1, site).rows, rows)
    requires Covers(seen1, rows, seen2)
    ensures var p1 := ProcessedPage(listing, rows1, seen1, site);
      var p2 := ProcessedPage(listing, rows, seen2, site);
      && p2.rows == rows
      && (p1.saved == 0 ==> p2.saved == 0)
      && Covers(p1.seen, rows, p2.seen)
  {
    var links, offer := NewsLinks(listing), Offering(site);
    var d1, d2 := Dispatched(links, rows1, seen1), Dispatched(links, rows, seen2);
    var after1 := SaveAll(rows1, d1, offer);
    DispatchedSpec(links, rows1, seen1);
    DispatchedSpec(links, rows, seen2);
    SaveAllExtends(rows1, d1, offer);
    ExtendsTrans(rows1, after1, rows);
    SaveAllSettles(rows1, d1, offer);
    forall url | url in d2 ensures url in d1 && Settled(rows, url, offer) {
      ExtendsKeeps(rows1, rows, url, "");
      SettledExtends(after1, rows, url, offer);
    }
    SaveAllSettled(rows, d2, offer);
    CountAcceptedZero(d1, offer);
    CountAcceptedZero(d2, offer);
  }

  /** Every page step only appends to the table. */
  ghost predicate StepExtends(step: PageStep) {
    forall page: nat, rows: seq<Article>, seen: set<string> :: Extends(rows, step(page, rows, seen).rows)
  }

  /** Every URL of `seen1` that `rows` does not hold is in `seen2`. */
  predicate Covers(seen1: set<string>, rows: seq<Article>, seen2: set<string>) {
    forall url :: url in seen1 && !HasUrl(rows, url) ==> url in seen2
  }

  /**
   * The conclusion of `RerunPage` for every page: a second visit of a page, against a
   * table that extends what the first visit left and with a processed set that covers
   * the first's unstored URLs, changes nothing, saves nothing where the first saved
   * nothing, and keeps the processed sets related.
   */
  ghost predicate StepReruns(step: PageStep) {
    forall page: nat, rows1: seq<Article>, seen1: set<string>, rows: seq<Article>, seen2: set<string>
      {:trigger step(page, rows1, seen1), step(page, rows, seen2)} ::
      Extends(step(page, rows1, seen1).rows, rows) && Covers(seen1, rows, seen2) ==>
        && step(page, rows, seen2).rows == rows
        && (step(page, rows1, seen1).saved == 0 ==> step(page, rows, seen2).saved == 0)
        && Covers(step(page, rows1, seen1).seen, rows, step(page, rows, seen2).seen)
  }

  /** `process_page` only appends to the table, and a second visit of its page obeys `StepReruns`. */
  lemma ProcessorReruns(listing: nat -> ListingPage, site: string -> Visit)
    ensures StepExtends(Processor(listing, site))
    ensures StepReruns(Processor(listing, site))
  {
    var step := Processor(listing, site);
    forall page: nat, rows: seq<Article>, seen: set<string>
      ensures Extends(rows, step(page, rows, seen).rows)
    {
      SaveAllExtends(rows, Dispatched(NewsLinks(listing(page)), rows, seen), Offering(site));
    }
    forall page: nat, rows1: seq<Article>, seen1: set<string>, rows: seq<Article>, seen2: set<string>
      | Extends(step(page, rows1, seen1).rows, rows) && Covers(seen1, rows, seen2)
      ensures && step(page, rows, seen2).rows == rows
              && (step(page, rows1, seen1).saved == 0 ==> step(page, rows, seen2).saved == 0)
              && Covers(step(page, rows1, seen1).seen, rows, step(page, rows, seen2).seen)
    {
      RerunPage(listing(page), rows1, seen1, rows, seen2, site);
    }
  }

  /** A crawl whose every page step only appends to the table only appends to it. */
  lemma {:induction false} CrawlFromExtends(page: nat, maxPages: int, rows: seq<Article>, seen: set<string>, step: PageStep)
    requires StepExtends(step)
    ensures Extends(rows, CrawlFrom(page, maxPages, rows, seen, step).rows)
    decreases maxPages - page
  {
    if page <= maxPages {
      var r := step(page, rows, seen);
      if !(r.saved == 0 && page > GracePages) {
        CrawlFromExtends(page + 1, maxPages, r.rows, r.seen, step);
        ExtendsTrans(rows, r.rows, CrawlFrom(page + 1, maxPages, r.rows, r.seen, step).rows);
      }
    } else {
      assert rows[..|rows|] == rows;
    }
  }

  /**
   * From any page on, a second crawl over the final table of the first, whose processed
   * set covers every unstored URL the first had processed, leaves that table unchanged.
   * It never goes past the first crawl's last page: where the first stopped on an empty
   * page, the second saves nothing on that page either.
   */
  lemma {:induction false} RerunFrom(page: nat, maxPages: int, rows1: seq<Article>, seen1: set<string>,
                                     seen2: set<string>, step: PageStep)
    requires StepExtends(step) && StepReruns(step)
    requires Covers(seen1, CrawlFrom(page, maxPages, rows1, seen1, step).rows, seen2)
    ensures var final := CrawlFrom(page, maxPages, rows1, seen1, step).rows;
      CrawlFrom(page, maxPages, final, seen2, step).rows == final
    decreases maxPages - page
  {
    var final := CrawlFrom(page, maxPages, rows1, seen1, step).rows;
    if page <= maxPages {
      var r1 := step(page, rows1, seen1);
      var r2 := step(page, final, seen2);
      var stop1 := r1.saved == 0 && page > GracePages;
      if stop1 {
        assert final[..|final|] == final;
      } else {
        CrawlFromExtends(page + 1, maxPages, r1.rows, r1.seen, step);
      }
      assert Extends(r1.rows, final);
      if !stop1 && !(r2.saved == 0 && page > GracePages) {
        RerunFrom(page + 1, maxPages, r1.rows, r1.seen, r2.seen, step);
      }
    }
  }

  /**
   * Running the crawl a second time against an unchanged site adds no row: every URL
   * the second run dispatches was dispatched by the first one, whose visit was either
   * rejected or has its url or guid stored already.
   */
  lemma CrawlTwiceAddsNothing(maxPages: int, rows0: seq<Article>, listing: nat -> ListingPage, site: string -> Visit)
    ensures var step := Processor(listing, site);
      var first := CrawlFrom(1, maxPages, rows0, {}, step);
      CrawlFrom(1, maxPages, first.rows, {}, step).rows == first.rows
  {
    ProcessorReruns(listing, site);
    RerunFrom(1, maxPages, rows0, {}, {}, Processor(listing, site));
  }

  /**
   * The stopping rule over a given sequence of per-page counts starting at page `first`:
   * the counts of the pages that are processed.
   */
  function Walk(counts: seq<nat>, first: nat): (w: seq<nat>)
    ensures |w| <= |counts|
  {
    if counts == [] then []
    else if counts[0] == 0 && first > GracePages then [0]
    else [counts[0]] + Walk(counts[1..], first + 1)
  }

  /** The processed pages are a prefix of all pages and obey the stopping rule. */
  lemma {:induction false} WalkStops(counts: seq<nat>, first: nat)
    ensures Walk(counts, first) == counts[..|Walk(counts, first)|]
    ensures StopsFrom(Walk(counts, first), first, first + |counts| - 1)
  {
    WalkIsPrefix(counts, first);
    WalkObeysRule(counts, first);
  }

  lemma {:induction false} WalkIsPrefix(counts: seq<nat>, first: nat)
    ensures Walk(counts, first) == counts[..|Walk(counts, first)|]
  {
    if counts != [] && !(counts[0] == 0 && first > GracePages) {
      WalkIsPrefix(counts[1..], first + 1);
      var rest := Walk(counts[1..], first + 1);
      assert Walk(counts, first) == [counts[0]] + rest;
      assert counts[..|rest| + 1] == [counts[0]] + counts[1..][..|rest|];
    }
  }

  lemma {:induction false} WalkObeysRule(counts: seq<nat>, first: nat)
    ensures StopsFrom(Walk(counts, first), first, first + |counts| - 1)
  {
    if counts != [] && !(counts[0] == 0 && first > GracePages) {
      WalkObeysRule(counts[1..], first + 1);
      var rest := Walk(counts[1..], first + 1);
      assert Walk(counts, first) == [counts[0]] + rest;
      StopsFromCons(counts[0], rest, first, first + |counts| - 1);
    }
  }

  /** The stopping rule leaves no choice: the only prefix that obeys it is the one `Walk` processes. */
  lemma {:induction false} WalkUnique(counts: seq<nat>, first: nat, prefix: seq<nat>)
    requires |prefix| <= |counts| && prefix == counts[..|prefix|]
    requires StopsFrom(prefix, first, first + |counts| - 1)
    ensures prefix == Walk(counts, first)
  {
    if counts != [] {
      assert prefix != [];
      assert prefix[0] == counts[0];
      if !(counts[0] == 0 && first > GracePages) {
        var tail := prefix[1..];
        StopsFromTail(prefix, first, first + |counts| - 1);
        assert tail == counts[1..][..|tail|];
        WalkUnique(counts[1..], first + 1, tail);
        assert prefix == [prefix[0]] + tail;
      }
    }
  }

  /** The stopping rule for a run that goes on past its first page holds for the rest of the run. */
  lemma StopsFromTail(counts: seq<nat>, first: nat, maxPages: int)
    requires counts != [] && StopsFrom(counts, first, maxPages)
    requires !(counts[0] == 0 && first > GracePages)
    ensures StopsFrom(counts[1..], first + 1, maxPages)
  {
    assert forall i :: 0 <= i < |counts| - 2 ==> counts[1..][i] == counts[i + 1];
  }

  /** A run in which no page saves anything processes exactly pages 1 to 4, when there are that many. */
  lemma ZeroRunLength(counts: seq<nat>, maxPages: int)
    requires StopsFrom(counts, 1, maxPages)
    requires forall i :: 0 <= i < |counts| ==> counts[i] == 0
    ensures |counts| == if maxPages < 1 then 0 else if maxPages < GracePages + 1 then maxPages else GracePages + 1
  {
    StopsFromAt(counts, 1, maxPages, GracePages);
  }

  /** The stopping rule at one page before the last. */
  lemma StopsFromAt(counts: seq<nat>, first: nat, maxPages: int, i: nat)
    ensures StopsFrom(counts, first, maxPages) && i < |counts| - 1 ==> !(counts[i] == 0 && first + i > GracePages)
  {
  }

  /** With counts 5, 5, 5, 5, 0, 5, 5 the empty fifth page ends the crawl. */
  lemma WalkExample()
    ensures Walk([5, 5, 5, 5, 0, 5, 5], 1) == [5, 5, 5, 5, 0]
  {
    var c := [5, 5, 5, 5, 0, 5, 5];
    assert c[1..][1..][1..][1..] == [0, 5, 5];
    assert Walk([0, 5, 5], 5) == [0];
    assert c[1..][1..][1..] == [5, 0, 5, 5];
    assert c[1..][1..] == [5, 5, 0, 5, 5];
    assert c[1..] == [5, 5, 5, 0, 5, 5];
  }

  /** Empty pages 1 to 3 do not stop the crawl; the empty fourth page does. */
  lemma WalkZerosExample()
    ensures Walk([0, 0, 0, 0, 0, 0], 1) == [0, 0, 0, 0]
  {
    var c: seq<nat> := [0, 0, 0, 0, 0, 0];
    assert c[1..][1..][1..] == [0, 0, 0];
    assert Walk([0, 0, 0], 4) == [0];
    assert c[1..][1..] == [0, 0, 0, 0];
    assert c[1..] == [0, 0, 0, 0, 0];
  }
}
