/**
 * The article table `primamedia` and its three operations: `save_to_primamedia`
 * (an `INSERT OR IGNORE`), `primamedia_url_exists` and `get_primamedia_stats`.
 * The table is held as its rows in insertion order; the SQLite connection, the
 * schema DDL and the two indexes are not modelled.
 */
module Database {
  import opened Wrappers
  import opened Strings

  /** Longest title the store keeps (`title[:255]`). */
  const TitleLimit: nat := 255

  /** `str(uuid.uuid4())`: the 36-character text form of a UUID, supplied by the environment. */
  type Guid = s: string | |s| == 36 witness "00000000-0000-0000-0000-000000000000"

  /**
   * The dictionary handed to `save_to_primamedia`. `title`, `description` and `url`
   * are read with `[...]`; the other three keys may be absent.
   */
  datatype ArticleData = ArticleData(
    title: string,
    description: string,
    url: string,
    publishedAt: Option<string>,
    commentsCount: Option<int>,
    rating: Option<int>)

  /** One row of the table (columns of lines 9-16). */
  datatype Article = Article(
    guid: string,
    title: string,
    description: string,
    url: string,
    publishedAt: Option<string>,
    commentsCount: int,
    createdAt: string,
    rating: int)

  /** The row that lines 28-39 ask SQLite to insert. */
  function NewRecord(d: ArticleData, guid: Guid, createdAt: string): (a: Article)
    ensures a.title == Take(d.title, TitleLimit) && |a.title| <= TitleLimit
    ensures |d.title| <= TitleLimit ==> a.title == d.title
    ensures a.description == d.description && a.url == d.url && a.guid == guid
    ensures a.publishedAt == d.publishedAt && a.createdAt == createdAt
    ensures d.commentsCount.Some? ==> a.commentsCount == d.commentsCount.value
    ensures d.commentsCount.None? ==> a.commentsCount == 0
    ensures d.rating.Some? ==> a.rating == d.rating.value
    ensures d.rating.None? ==> a.rating == 0
  {
    Article(guid, Take(d.title, TitleLimit), d.description, d.url, d.publishedAt,
            d.commentsCount.GetOr(0), createdAt, d.rating.GetOr(0))
  }

  predicate HasUrl(rows: seq<Article>, url: string) {
    exists i :: 0 <= i < |rows| && rows[i].url == url
  }

  predicate HasGuid(rows: seq<Article>, guid: string) {
    exists i :: 0 <= i < |rows| && rows[i].guid == guid
  }

  /** The `UNIQUE` constraint on `url` (line 12). */
  predicate UniqueUrls(rows: seq<Article>) {
    forall i, j :: 0 <= i < j < |rows| ==> rows[i].url != rows[j].url
  }

  /** The `PRIMARY KEY` constraint on `guid` (line 9). */
  predicate UniqueGuids(rows: seq<Article>) {
    forall i, j :: 0 <= i < j < |rows| ==> rows[i].guid != rows[j].guid
  }

  /** What every state of the table satisfies: both keys unique and titles within the limit. */
  predicate TableInvariant(rows: seq<Article>) {
    && UniqueUrls(rows)
    && UniqueGuids(rows)
    && forall i :: 0 <= i < |rows| ==> |rows[i].title| <= TitleLimit
  }

  /** `INSERT OR IGNORE`: the row is dropped when it clashes with an existing url or guid. */
  function InsertOrIgnore(rows: seq<Article>, a: Article): seq<Article>
  {
    if HasUrl(rows, a.url) || HasGuid(rows, a.guid) then rows else rows + [a]
  }

  /**
   * An insert keeps every old row in place and adds at most the new one; after it the
   * url is present unless the new guid clashed, and a clash on the url changes nothing.
   */
  lemma InsertOrIgnoreSpec(rows: seq<Article>, a: Article)
    ensures var r := InsertOrIgnore(rows, a);
      && |rows| <= |r| <= |rows| + 1
      && r[..|rows|] == rows
      && (|r| == |rows| + 1 ==> r[|rows|] == a)
      && (HasUrl(rows, a.url) ==> r == rows)
      && (!HasGuid(rows, a.guid) ==> HasUrl(r, a.url))
      && (forall u :: HasUrl(r, u) <==> HasUrl(rows, u) || (u == a.url && r != rows))
  {
    var r := InsertOrIgnore(rows, a);
    if r != rows {
      assert r == rows + [a];
      assert r[|rows|].url == a.url;
      forall u | HasUrl(r, u) ensures HasUrl(rows, u) || u == a.url {
        var i :| 0 <= i < |r| && r[i].url == u;
        if i < |rows| {
          assert rows[i].url == u;
        }
      }
      forall u | HasUrl(rows, u) ensures HasUrl(r, u) {
        var i :| 0 <= i < |rows| && rows[i].url == u;
        assert r[i].url == u;
      }
    }
    assert r[..|rows|] == rows;
  }

  /** Every insert keeps the table invariant, whatever row is offered. */
  lemma InsertOrIgnoreKeepsInvariant(rows: seq<Article>, a: Article)
    requires TableInvariant(rows)
    requires |a.title| <= TitleLimit
    ensures TableInvariant(InsertOrIgnore(rows, a))
  {
    if !(HasUrl(rows, a.url) || HasGuid(rows, a.guid)) {
      var r := rows + [a];
      forall i, j | 0 <= i < j < |r| ensures r[i].url != r[j].url && r[i].guid != r[j].guid {
        if j == |rows| {
          assert r[i] == rows[i];
        }
      }
    }
  }

  /** Offering the same row twice is the same as offering it once. */
  lemma InsertOrIgnoreIdempotent(rows: seq<Article>, a: Article)
    ensures InsertOrIgnore(InsertOrIgnore(rows, a), a) == InsertOrIgnore(rows, a)
  {
    var r := InsertOrIgnore(rows, a);
    if r != rows {
      assert r[|rows|].url == a.url;
    }
  }

  /**
   * SQLite's `LENGTH(X)` of a text value: the number of characters before the first
   * NUL character, the whole length when there is none.
   */
  function SqlLength(s: string): (n: nat)
    ensures n <= |s|
    ensures n < |s| <==> '\0' in s
    ensures forall j :: 0 <= j < n ==> s[j] != '\0'
  {
    FirstIndexOf(s, '\0')
  }

  /** Sum of `LENGTH(description)` over the rows. */
  function TotalDescriptionLength(rows: seq<Article>): nat
  {
    if rows == [] then 0
    else TotalDescriptionLength(rows[..|rows| - 1]) + SqlLength(rows[|rows| - 1].description)
  }

  /** `int(AVG(LENGTH(description)) or 0)`: the integer part of the mean, 0 for an empty table. */
  function AverageDescriptionLength(rows: seq<Article>): nat
  {
    if |rows| == 0 then 0 else TotalDescriptionLength(rows) / |rows|
  }

  /** The sum lies between the count times the shortest and the count times the longest description. */
  lemma {:induction false} TotalDescriptionLengthBounds(rows: seq<Article>, lo: nat, hi: nat)
    requires forall i :: 0 <= i < |rows| ==> lo <= SqlLength(rows[i].description) <= hi
    ensures |rows| * lo <= TotalDescriptionLength(rows) <= |rows| * hi
  {
    if rows != [] {
      var init := rows[..|rows| - 1];
      assert forall i :: 0 <= i < |init| ==> init[i] == rows[i];
      TotalDescriptionLengthBounds(init, lo, hi);
      MulSucc(|init|, lo);
      MulSucc(|init|, hi);
    }
  }

  lemma MulSucc(n: nat, x: nat)
    ensures (n + 1) * x == n * x + x
  {
  }

  /** The running sum of `Stats` after one more row. */
  lemma TotalDescriptionLengthSnoc(rows: seq<Article>, i: nat)
    requires i < |rows|
    ensures TotalDescriptionLength(rows[..i + 1]) == TotalDescriptionLength(rows[..i]) + SqlLength(rows[i].description)
  {
    assert rows[..i + 1][..i] == rows[..i];
  }

  /**
   * The reported average is the floor of the mean: it times the count is at most the
   * total, and one more times the count exceeds it; it lies between the shortest and
   * the longest description.
   */
  lemma {:induction false} AverageDescriptionLengthSpec(rows: seq<Article>, lo: nat, hi: nat)
    requires forall i :: 0 <= i < |rows| ==> lo <= SqlLength(rows[i].description) <= hi
    ensures rows == [] ==> AverageDescriptionLength(rows) == 0
    ensures rows != [] ==>
      && AverageDescriptionLength(rows) * |rows| <= TotalDescriptionLength(rows)
      && TotalDescriptionLength(rows) < (AverageDescriptionLength(rows) + 1) * |rows|
      && lo <= AverageDescriptionLength(rows) <= hi
  {
    TotalDescriptionLengthBounds(rows, lo, hi);
    if rows != [] {
      FloorDivBounds(TotalDescriptionLength(rows), |rows|, lo, hi);
    }
  }

  lemma FloorDivBounds(t: nat, n: nat, lo: nat, hi: nat)
    requires n > 0 && n * lo <= t <= n * hi
    ensures (t / n) * n <= t < (t / n + 1) * n
    ensures lo <= t / n <= hi
  {
    var q := t / n;
    assert t == q * n + t % n;
    MulMonotone(q + 1, lo, n);
    MulMonotone(hi + 1, q, n);
  }

  lemma MulMonotone(a: nat, b: nat, n: nat)
    ensures a <= b ==> a * n <= b * n
  {
    if a <= b {
      assert b * n == a * n + (b - a) * n;
    }
  }

  /** The `primamedia` table of one database file. */
  class ArticleStore {
    var rows: seq<Article>

    ghost predicate Valid()
      reads this
    {
      TableInvariant(rows)
    }

    /** `init_database`: the table exists and holds no rows. */
    constructor ()
      ensures Valid() && rows == []
    {
      rows := [];
    }

    /**
     * `save_to_primamedia`: offers the record built from `d` to `INSERT OR IGNORE` and
     * returns the generated guid whether or not a row was added.
     */
    method Save(d: ArticleData, guid: Guid, createdAt: string) returns (r: Guid)
      requires Valid()
      modifies this
      ensures Valid()
      ensures rows == InsertOrIgnore(old(rows), NewRecord(d, guid, createdAt))
      ensures r == guid
    {
      var a := NewRecord(d, guid, createdAt);
      InsertOrIgnoreKeepsInvariant(rows, a);
      if !(HasUrl(rows, a.url) || HasGuid(rows, a.guid)) {
        rows := rows + [a];
      }
      r := guid;
    }

    /** `primamedia_url_exists`: `SELECT 1 ... WHERE url=?` finds a row. */
    method UrlExists(url: string) returns (b: bool)
      ensures b <==> HasUrl(rows, url)
    {
      for i := 0 to |rows|
        invariant !HasUrl(rows[..i], url)
      {
        if rows[i].url == url {
          assert rows[..i + 1][i] == rows[i];
          return true;
        }
        assert forall k :: 0 <= k < i ==> rows[..i + 1][k] == rows[..i][k];
      }
      assert rows[..|rows|] == rows;
      b := false;
    }

    /** `get_primamedia_stats`: the row count and the integer part of the mean description length. */
    method Stats() returns (total: nat, avgLen: nat)
      ensures total == |rows|
      ensures avgLen == AverageDescriptionLength(rows)
    {
      var sum := 0;
      total := 0;
      for i := 0 to |rows|
        invariant total == i
        invariant sum == TotalDescriptionLength(rows[..i])
      {
        TotalDescriptionLengthSnoc(rows, i);
        sum := sum + SqlLength(rows[i].description);
        total := total + 1;
      }
      assert rows[..|rows|] == rows;
      avgLen := if total == 0 then 0 else sum / total;
    }
  }
}
