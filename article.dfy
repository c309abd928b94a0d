/**
 * The acceptance logic of `parse_primamedia_article`: choose a title and the body
 * paragraphs from what the CSS selectors found, normalise the body, reject short
 * bodies, and save the rest. The HTTP request and the HTML parsing are abstracted:
 * an article page arrives as its status and the selector results.
 */
module ArticleParser {
  import opened Wrappers
  import opened Strings
  import opened TextClean
  import opened Database

  /** Title stored when the page has no `h1`. */
  const Placeholder: string := "Без заголовка"

  /** Shortest normalised body that is saved. */
  const MinDescription: nat := 300

  /** At most this many paragraphs of the primary selection are used. */
  const PrimaryCap: nat := 30

  /** At most this many paragraphs of a fallback selection are used. */
  const FallbackCap: nat := 25

  /**
   * An article page as the parser sees it: no response (timeout, connection error),
   * or a status together with
   * - the stripped text of the first `h1`, if there is one;
   * - the stripped texts of the paragraphs matched by the primary selector
   *   `div[class*="article"] p, div[class*="text"] p, article p`;
   * - the same for each fallback selector, in the order `.entry-content p`,
   *   `.article-content p`, `.news-text p`, `.content p`;
   * - the `datetime` attribute of the first date element, absent when there is no such
   *   element or it has no such attribute.
   */
  datatype ArticlePage =
    | Unavailable
    | Delivered(status: int, h1: Option<string>, primary: seq<string>, fallbacks: seq<seq<string>>, dateTime: Option<string>)

  /** One visit of an article URL: the page served, and the uuid and UTC time drawn when saving. */
  datatype Visit = Visit(page: ArticlePage, guid: Guid, createdAt: string)

  /** Line 44: the `h1` text, or the placeholder. */
  function Title(h1: Option<string>): (t: string)
    ensures h1.Some? ==> t == h1.value
    ensures h1.None? ==> t == Placeholder
  {
    h1.GetOr(Placeholder)
  }

  /** The first non-empty fallback selection, capped; empty when every selection is empty. */
  function FirstFallback(fallbacks: seq<seq<string>>): seq<string>
  {
    if fallbacks == [] then []
    else if fallbacks[0] != [] then Take(fallbacks[0], FallbackCap)
    else FirstFallback(fallbacks[1..])
  }

  /** Lines 47-57: the paragraph texts that make up the body. */
  function Cascade(primary: seq<string>, fallbacks: seq<seq<string>>): seq<string>
  {
    if primary != [] then Take(primary, PrimaryCap) else FirstFallback(fallbacks)
  }

  /** The fallback used is the first non-empty one, capped at 25 paragraphs. */
  lemma {:induction false} FirstFallbackAt(fallbacks: seq<seq<string>>, k: nat)
    requires k < |fallbacks| && fallbacks[k] != []
    requires forall j :: 0 <= j < k ==> fallbacks[j] == []
    ensures FirstFallback(fallbacks) == Take(fallbacks[k], FallbackCap)
  {
    if k > 0 {
      assert fallbacks[1..][k - 1] == fallbacks[k];
      FirstFallbackAt(fallbacks[1..], k - 1);
    }
  }

  /** When every fallback selection is empty there are no paragraphs. */
  lemma {:induction false} FirstFallbackNone(fallbacks: seq<seq<string>>)
    requires forall j :: 0 <= j < |fallbacks| ==> fallbacks[j] == []
    ensures FirstFallback(fallbacks) == []
  {
    if fallbacks != [] {
      FirstFallbackNone(fallbacks[1..]);
    }
  }

  /**
   * The cascade takes the first 30 primary paragraphs when there are any, otherwise the
   * first 25 of the first non-empty fallback, otherwise nothing.
   */
  lemma CascadeSpec(primary: seq<string>, fallbacks: seq<seq<string>>, k: nat)
    ensures primary != [] ==> Cascade(primary, fallbacks) == primary[..if |primary| <= PrimaryCap then |primary| else PrimaryCap]
    ensures primary == [] && k < |fallbacks| && fallbacks[k] != [] && (forall j :: 0 <= j < k ==> fallbacks[j] == []) ==>
      Cascade(primary, fallbacks) == fallbacks[k][..if |fallbacks[k]| <= FallbackCap then |fallbacks[k]| else FallbackCap]
    ensures primary == [] && (forall j :: 0 <= j < |fallbacks| ==> fallbacks[j] == []) ==> Cascade(primary, fallbacks) == []
  {
    if primary == [] {
      if k < |fallbacks| && fallbacks[k] != [] && (forall j :: 0 <= j < k ==> fallbacks[j] == []) {
        FirstFallbackAt(fallbacks, k);
      }
      if forall j :: 0 <= j < |fallbacks| ==> fallbacks[j] == [] {
        FirstFallbackNone(fallbacks);
      }
    }
  }

  /** Lines 47-57 as the loop they are: the primary selection, else the fallbacks in order until one is non-empty. */
  method SelectParagraphs(primary: seq<string>, fallbacks: seq<seq<string>>) returns (parts: seq<string>)
    ensures parts == Cascade(primary, fallbacks)
  {
    if primary != [] {
      return Take(primary, PrimaryCap);
    }
    parts := [];
    for i := 0 to |fallbacks|
      invariant FirstFallback(fallbacks[i..]) == FirstFallback(fallbacks)
    {
      if fallbacks[i] != [] {
        return Take(fallbacks[i], FallbackCap);
      }
      assert fallbacks[i..][1..] == fallbacks[i + 1..];
    }
  }

  /** Line 59: the normalised body built from the selected paragraphs. */
  function Description(page: ArticlePage): string
    requires page.Delivered?
  {
    CleanText(Join("\n\n", Cascade(page.primary, page.fallbacks)))
  }

  /**
   * The record `parse_primamedia_article` hands to the store, or `None` when it returns
   * `False` before saving: no response, a status other than 200, or a body shorter than
   * 300 characters after normalisation.
   */
  function ArticleFor(url: string, page: ArticlePage): (r: Option<ArticleData>)
    ensures r.Some? <==> page.Delivered? && page.status == 200 && |Description(page)| >= MinDescription
    ensures r.Some? ==>
      && MinDescription <= |r.value.description| <= MaxLength
      && |r.value.title| <= TitleLimit
      && r.value.url == url
      && r.value.publishedAt == page.dateTime
      && r.value.commentsCount.None? && r.value.rating.None?
    ensures r.Some? ==> r.value.description == Description(page) && r.value.title == Take(Title(page.h1), TitleLimit)
  {
    match page
    case Unavailable => None
    case Delivered(status, h1, primary, fallbacks, dateTime) =>
      if status != 200 then None
      else
        var description := Description(page);
        if |description| < MinDescription then None
        else Some(ArticleData(Take(Title(h1), TitleLimit), description, url, dateTime, None, None))
  }

  /**
   * The body of an accepted article is the normalised join of its paragraphs, so it has
   * the shape `clean_primamedia_text` guarantees: no tab, no two adjacent blanks or
   * newlines, no leading whitespace, and no trailing whitespace unless the cap cut it.
   */
  lemma ArticleBodyShape(url: string, page: ArticlePage)
    requires ArticleFor(url, page).Some?
    ensures var d := ArticleFor(url, page).value.description;
      var text := Join("\n\n", Cascade(page.primary, page.fallbacks));
      && d == CleanText(text)
      && '\t' !in d
      && NoAdjacent(d, IsBlank, IsBlank)
      && NoAdjacent(d, IsNewline, IsNewline)
      && !IsSpace(d[0])
      && (|Tidy(text)| <= MaxLength ==> !IsSpace(d[|d| - 1]))
  {
    CleanTextShape(Join("\n\n", Cascade(page.primary, page.fallbacks)));
  }

  /** Lines 62-63: a page served with status 200 whose normalised body is shorter than 300 characters is not saved. */
  lemma ShortBodyRejected(url: string, page: ArticlePage)
    requires page.Delivered? && page.status == 200 && |Description(page)| < MinDescription
    ensures ArticleFor(url, page).None?
  {
  }

  /** The stored title is the `h1` text, or the placeholder, cut to 255 characters. */
  lemma ArticleTitle(url: string, page: ArticlePage)
    requires ArticleFor(url, page).Some?
    ensures page.h1.Some? ==> ArticleFor(url, page).value.title == Take(page.h1.value, TitleLimit)
    ensures page.h1.None? ==> ArticleFor(url, page).value.title == Placeholder
  {
    assert |Placeholder| <= TitleLimit;
  }

  /** A page whose selectors all come back empty has the empty description and is never saved. */
  lemma EmptyPageRejected(url: string, page: ArticlePage)
    requires page.Delivered? && page.primary == []
    requires forall j :: 0 <= j < |page.fallbacks| ==> page.fallbacks[j] == []
    ensures Description(page) == ""
    ensures ArticleFor(url, page).None?
  {
    FirstFallbackNone(page.fallbacks);
  }

  /** Every row of the table passed the quality gate: its body has 300 to 10000 characters. */
  predicate GatedRows(rows: seq<Article>) {
    forall i :: 0 <= i < |rows| ==> MinDescription <= |rows[i].description| <= MaxLength
  }

  /** Saving a record whose body passed the gate keeps every row within the gate. */
  lemma InsertKeepsGate(rows: seq<Article>, d: ArticleData, guid: Guid, createdAt: string)
    requires MinDescription <= |d.description| <= MaxLength
    ensures GatedRows(rows) ==> GatedRows(InsertOrIgnore(rows, NewRecord(d, guid, createdAt)))
  {
    var a := NewRecord(d, guid, createdAt);
    var r := InsertOrIgnore(rows, a);
    if r != rows {
      assert forall i :: 0 <= i < |rows| ==> r[i] == rows[i];
      assert r[|rows|] == a;
    }
  }

  /**
   * `parse_primamedia_article`: returns true exactly when the page is accepted; an
   * accepted page is offered to the store, so the result is true even when the insert
   * is ignored because the url is already stored.
   */
  method ParseArticle(store: ArticleStore, url: string, visit: Visit) returns (ok: bool)
    requires store.Valid()
    modifies store
    ensures store.Valid()
    ensures ok <==> ArticleFor(url, visit.page).Some?
    ensures ArticleFor(url, visit.page).None? ==> store.rows == old(store.rows)
    ensures ArticleFor(url, visit.page).Some? ==>
      store.rows == InsertOrIgnore(old(store.rows), NewRecord(ArticleFor(url, visit.page).value, visit.guid, visit.createdAt))
    ensures GatedRows(old(store.rows)) ==> GatedRows(store.rows)
  {
    var page := visit.page;
    if page.Unavailable? || page.status != 200 {
      return false;
    }
    var title := Title(page.h1);
    var parts := SelectParagraphs(page.primary, page.fallbacks);
    var description := CleanText(Join("\n\n", parts));
    if |description| < MinDescription {
      return false;
    }
    var data := ArticleData(Take(title, TitleLimit), description, url, page.dateTime, None, None);
    InsertKeepsGate(store.rows, data, visit.guid, visit.createdAt);
    var guid := store.Save(data, visit.guid, visit.createdAt);
    ok := |guid| > 0;
  }
}
