# A verified model of the primamedia.ru news scraper

The scraper walks the archive pages `https://primamedia.ru/news/?page=N` one page
at a time. For each page it:

- collects the article links, which have the form `/news/<digits>/`;
- skips the URLs that are already stored or already processed;
- fetches the remaining articles;
- normalises each article body with seven regular-expression substitutions, `strip()` and a 10000-character cap;
- stores the articles whose body has at least 300 characters in an SQLite table, using `INSERT OR IGNORE`.

The crawl stops at the first page after page 3 that saves nothing.

This project models those rules in Dafny and proves what they guarantee. The
network, the HTML parser and the database engine are replaced by values:

- a listing page is its status and the hrefs the anchor selector found (`Links.ListingPage`);
- an article page is its status and the texts its CSS selectors found (`ArticleParser.ArticlePage`);
- the table is the sequence of its rows in insertion order, held in the class `Database.ArticleStore`.

Modules, one per concern:

- `Strings`: the Python string primitives the code uses (`s[:n]`, `find`, `in`, `split(sep, 1)`, `join`).
- `TextClean`: `clean_primamedia_text`. There is one function per substitution, each scanning left to right as `re.sub` does. Each substitution has a lemma saying what it leaves (no tag, no URL, no blank before or after a newline, no two adjacent newlines or blanks), and one saying that a text it does not change is returned as it is. The combined result is proved compact: no tab, no two adjacent blanks, no two adjacent newlines, no leading whitespace, at most 10000 characters. It also has no trailing whitespace unless the cap cut the text.
- `Links`: `get_news_links_from_page`. An href is examined into one outcome: skipped, kept with its path, or raising the `IndexError` of line 107. The collecting loop and `dict.fromkeys` deduplication are methods proved against functions. The result holds exactly the article paths of the kept hrefs, once each, in order of first occurrence. It is empty when the page fails, when the status is not 200, or when any href raises.
- `LinkExamples`: how relative and absolute hrefs are treated, and a small listing page worked through completely.
- `Database`: the table, `save_to_primamedia`, `primamedia_url_exists` and `get_primamedia_stats`. The UNIQUE url and PRIMARY KEY guid constraints are a class invariant that every insert keeps. Inserting the same row twice is idempotent. The reported average description length is the floor of the mean.
- `ArticleParser`: `parse_primamedia_article`. It covers the title fallback, the paragraph selector cascade (30 primary paragraphs, else 25 from the first non-empty fallback selector), the 300-character gate, and the record handed to the store. The method returns `True` exactly when the page is accepted. No row under the gate ever enters the table.
- `Crawl`: `process_page` and the page loop of `parse_primamedia_news_async`.
  - A URL is dispatched exactly when it is new and not yet processed, and never twice.
  - The page's saved count is the number of accepted visits. The table after the page is the result of inserting their rows in dispatch order.
  - Running the crawl a second time against an unchanged site adds no row (`CrawlTwiceAddsNothing`): the second run dispatches only URLs the first dispatched, and each of those was rejected or has its url or guid stored.
  - The loop yields the per-page counts of `CrawlFrom`. Those counts obey the stopping rule. For a given sequence of per-page counts, the prefix that obeys the rule is unique, and it is the one `Walk` takes.

Facts about the code's behaviour that the model keeps:

- `parse_primamedia_article` returns `True` whenever `save_to_primamedia` returns a guid, and it always does. So a visit whose insert is ignored still counts as saved. `ParseArticle` states this (`ok <==> ArticleFor(...).Some?`, independent of the insert).
- Only the status 200 passes, both for listing pages and for articles. Other 2xx codes are rejected.
- An absolute href that contains `/news/` but has no `://`, or no `/` after the host, makes line 107 raise `IndexError`. The `except` at lines 117-119 then discards every link of that page (`Links.NewsLinksEmpty`, `Links.ArticleHrefWithoutScheme`).
- The processed-URL set grows when a task is created, before the visit runs. So a URL that fails to save is not tried again in the same crawl.

## Model

| member | source | states |
|---|---|---|
| `Strings.Take` | parsing/primamedia_parser.py:27 | `s[:n]` is the prefix of length min(n, len(s)) |
| `Strings.StartsWith` | parsing/primamedia_parser.py:104 | `s.startswith(p)`: `p` is the prefix of `s` of its own length |
| `Strings.Find` | parsing/primamedia_parser.py:105 | the result is the first position where `p` occurs, and no earlier position holds it; `None` exactly when no position does |
| `Strings.Contains` | parsing/primamedia_parser.py:105 | `p in s`: `find` succeeds; by the contract of `Find`, exactly when some position starts with `p` |
| `Strings.BeforeFirst` | parsing/primamedia_parser.py:112 | `split(sep, 1)[0]` is a prefix containing no `sep`, followed in `s` by `sep` when `s` contains it, and all of `s` otherwise |
| `Strings.AfterFirst` | parsing/primamedia_parser.py:107 | `split(sep, 1)[1]` is missing (the `IndexError`) exactly when `sep` does not occur; otherwise `s` is the part before, `sep`, then the result |
| `Strings.FirstIndexOf` | parsing/primamedia_parser.py:112 | the position of the first `c`, or the length when there is none |
| `Strings.FindChar` | parsing/primamedia_parser.py:112 | searching for a one-character string finds the first occurrence of that character |
| `Strings.Join` | parsing/primamedia_parser.py:59 | `sep.join(parts)`; its meaning is given by `JoinHead` and `JoinSnoc` |
| `Strings.JoinHead` | parsing/primamedia_parser.py:59 | joining no parts gives the empty text, one part gives that part, and otherwise the result begins with the first part |
| `Strings.JoinSnoc` | parsing/primamedia_parser.py:59 | joining one more part appends the separator and that part, so the parts appear in order with one separator between each two |
| `TextClean.Run` | parsing/primamedia_parser.py:22-26 | a greedy character-class run: every character in it belongs to the class, and the next one does not |
| `TextClean.IsSpace` | parsing/primamedia_parser.py:24-26 | the `\s` class and what `strip()` removes: the `str.isspace` characters, with the Unicode separators written out |
| `TextClean.TagLen` | parsing/primamedia_parser.py:20 | a `<[^>]+>` match at the start is detected exactly when present, and it spans from `<` to the first `>` with at least one character between |
| `TextClean.StripTags` | parsing/primamedia_parser.py:20 | the first substitution, scanning left to right as `re.sub` does; its meaning is given by `StripTagsDeletes`, `StripTagsNoTag` and `StripTagsUnchanged` |
| `TextClean.StripTagsDeletes` | parsing/primamedia_parser.py:20 | removing tags only deletes characters: the output is a subsequence of the input |
| `TextClean.StripTagsKeepsChars` | parsing/primamedia_parser.py:20 | every output character occurs in the input |
| `TextClean.StripTagsNoTag` | parsing/primamedia_parser.py:20 | no `<[^>]+>` match is left in the output, including one formed across a removed tag |
| `TextClean.StripTagsUnchanged` | parsing/primamedia_parser.py:20 | a text with no `<[^>]+>` match is returned unchanged |
| `TextClean.UrlLen` | parsing/primamedia_parser.py:21 | a URL match at the start is detected exactly when present, and it covers the whole following non-space run |
| `TextClean.StripUrls` | parsing/primamedia_parser.py:21 | the second substitution, dropping each URL match with its whole non-space run; its meaning is given by `StripUrlsNoUrl` and `StripUrlsUnchanged` |
| `TextClean.StripUrlsNoUrl` | parsing/primamedia_parser.py:21 | no `http[s]?://\S+` or `www\.\S+` match is left in the output |
| `TextClean.StripUrlsUnchanged` | parsing/primamedia_parser.py:21 | a text with no URL match is returned unchanged |
| `TextClean.TrimBlanksBeforeNewline` | parsing/primamedia_parser.py:22 | the third substitution; its meaning is given by `TrimBlanksBeforeNewlineSound` and `TrimBlanksBeforeNewlineUnchanged` |
| `TextClean.TrimBlanksBeforeNewlineSound` | parsing/primamedia_parser.py:22 | after `[ \t]+\n` → `\n` no space or tab stands before a newline |
| `TextClean.TrimBlanksBeforeNewlineUnchanged` | parsing/primamedia_parser.py:22 | a text with no space or tab before a newline is returned unchanged |
| `TextClean.TrimBlanksAfterNewline` | parsing/primamedia_parser.py:23 | the fourth substitution; its meaning is given by `TrimBlanksAfterNewlineSound` and `TrimBlanksAfterNewlineUnchanged` |
| `TextClean.TrimBlanksAfterNewlineSound` | parsing/primamedia_parser.py:23 | after `\n[ \t]+` → `\n` no space or tab stands after a newline |
| `TextClean.TrimBlanksAfterNewlineUnchanged` | parsing/primamedia_parser.py:23 | a text with no space or tab after a newline is returned unchanged |
| `TextClean.LastNewlineInRunSpec` | parsing/primamedia_parser.py:24 | the greedy `\s+\n` match ends at the last newline of the leading whitespace run |
| `TextClean.TrimRunBeforeNewline` | parsing/primamedia_parser.py:24 | the fifth substitution for a whitespace class given as a parameter, ending each match at the last newline of its run; its meaning is given by `TrimRunBeforeNewlineSound` and `TrimRunBeforeNewlineUnchanged` |
| `TextClean.TrimRunBeforeNewlineSound` | parsing/primamedia_parser.py:24 | for any whitespace class containing `\n`, after the substitution no class character stands before a newline |
| `TextClean.TrimRunBeforeNewlineUnchanged` | parsing/primamedia_parser.py:24 | for any class, a text with no class character before a newline is returned unchanged |
| `TextClean.TrimSpaceBeforeNewline` | parsing/primamedia_parser.py:24 | the fifth substitution with `\s` as its class; its meaning is given by `TrimSpaceBeforeNewlineSound` and `TrimSpaceBeforeNewlineUnchanged` |
| `TextClean.TrimSpaceBeforeNewlineSound` | parsing/primamedia_parser.py:24 | after `\s+\n` → `\n` no whitespace character stands before a newline |
| `TextClean.TrimSpaceBeforeNewlineUnchanged` | parsing/primamedia_parser.py:24 | a text with no whitespace before a newline is returned unchanged |
| `TextClean.CollapseNewlines` | parsing/primamedia_parser.py:25 | the sixth substitution; its meaning is given by `CollapseNewlinesSound` and `CollapseNewlinesUnchanged` |
| `TextClean.CollapseNewlinesSound` | parsing/primamedia_parser.py:25 | after `\n+` → `\n` no two newlines are adjacent |
| `TextClean.CollapseNewlinesUnchanged` | parsing/primamedia_parser.py:25 | a text without two adjacent newlines is returned unchanged |
| `TextClean.CollapseBlanks` | parsing/primamedia_parser.py:26 | the seventh substitution; its meaning is given by `CollapseBlanksSound` and `CollapseBlanksUnchanged` |
| `TextClean.CollapseBlanksSound` | parsing/primamedia_parser.py:26 | after `[ \t]+` → ` ` there is no tab and no two adjacent blanks, and no two adjacent newlines are created |
| `TextClean.CollapseBlanksUnchanged` | parsing/primamedia_parser.py:26 | a text without tabs and without two adjacent spaces is returned unchanged |
| `TextClean.StripLeading` | parsing/primamedia_parser.py:26 | `lstrip()` removes exactly the leading whitespace |
| `TextClean.StripTrailing` | parsing/primamedia_parser.py:26 | `rstrip()` removes exactly the trailing whitespace |
| `TextClean.Strip` | parsing/primamedia_parser.py:26 | `strip()` leaves no whitespace at either end |
| `TextClean.StripIsSlice` | parsing/primamedia_parser.py:26 | the stripped text is a contiguous slice of its input |
| `TextClean.StripShape` | parsing/primamedia_parser.py:26 | stripping keeps a compact text compact |
| `TextClean.StripUnchanged` | parsing/primamedia_parser.py:26 | a text without whitespace at either end is returned unchanged by `strip()` |
| `TextClean.Trimmed` | parsing/primamedia_parser.py:20-24 | the first five substitutions in source order |
| `TextClean.Finished` | parsing/primamedia_parser.py:25-26 | the last two substitutions and `strip()`; its meaning is given by `FinishShape` and `FinishedUnchanged` |
| `TextClean.Tidy` | parsing/primamedia_parser.py:20-26 | everything before the 10000-character cap; its meaning is given by `CleanTextShape` and `TidyUnchanged` |
| `TextClean.FinishShape` | parsing/primamedia_parser.py:25-26 | whatever the first five substitutions leave, the last two and `strip()` make it compact, with no whitespace at either end |
| `TextClean.FinishedUnchanged` | parsing/primamedia_parser.py:25-26 | a compact text without whitespace at either end is returned unchanged |
| `TextClean.TidyUnchanged` | parsing/primamedia_parser.py:20-26 | a text already in clean form (no tag, no URL, no whitespace before a newline, no blank after one, compact, no whitespace at either end) is returned unchanged by the seven substitutions and `strip()` |
| `TextClean.CollapsedShape` | parsing/primamedia_parser.py:25-26 | the two collapsing substitutions leave the text compact |
| `TextClean.CapShape` | parsing/primamedia_parser.py:27 | the 10000-character cap keeps a compact, trimmed text compact and without leading whitespace |
| `TextClean.CleanText` | parsing/primamedia_parser.py:18-27 | the cleaned text has at most 10000 characters |
| `TextClean.CleanTextShape` | parsing/primamedia_parser.py:18-27 | the cleaned text has at most 10000 characters, no tab, no two adjacent blanks, no two adjacent newlines, no leading whitespace, and no trailing whitespace unless the cap cut it |
| `TextClean.CleanTextUnchanged` | parsing/primamedia_parser.py:18-27 | the normaliser keeps every character of a text that is already in clean form and within 10000 characters: it returns that text unchanged |
| `TextClean.CleanExampleFixed` | parsing/primamedia_parser.py:18-27 | `"a\nb x"`, the documented result of cleaning `"  a\n\n\nb  <b>x</b> http://y.com  "` (that step itself is not proved), is returned unchanged |
| `Links.Examine` | parsing/primamedia_parser.py:103-114 | a kept path fully matches `/news/\d+/`; an href raises exactly when it starts with `http`, contains `/news/`, and lacks `://` or a `/` after the host |
| `Links.IsDigit` | parsing/primamedia_parser.py:113 | `\d`, restricted to the ASCII digits |
| `Links.IsNewsPath` | parsing/primamedia_parser.py:113 | `re.fullmatch(r"/news/\d+/", path)` with ASCII digits |
| `Links.HrefPath` | parsing/primamedia_parser.py:104-110 | an absolute href reduced to `/` plus the text after its host, `None` where line 107 raises; its meaning is given by `LinkExamples.AbsoluteHrefIsItsPath` |
| `Links.CollectedByFails` | parsing/primamedia_parser.py:102-114 | for any per-href outcome, the loop fails exactly when some href raises |
| `Links.CollectedBy` | parsing/primamedia_parser.py:99-114 | the list the href loop builds for a given examination of one href; its meaning is given by `CollectedByFails` and `CollectedByKeeps` |
| `Links.Collected` | parsing/primamedia_parser.py:99-114 | the same loop with the real examination of lines 103-114; its meaning is given by `CollectedSpec` |
| `Links.CollectedByKeeps` | parsing/primamedia_parser.py:102-114 | for any per-href outcome, a completed loop holds the same paths as the kept hrefs (membership in both directions; order and multiplicity are stated by `CollectPaths` and `CollectedSnoc`) |
| `Links.CollectedSpec` | parsing/primamedia_parser.py:102-114 | the loop fails exactly when some href raises; otherwise it holds exactly the kept paths, all of them article paths |
| `Links.CollectedRaises` | parsing/primamedia_parser.py:107 | one raising href makes the whole loop fail |
| `Links.DedupSpec` | parsing/primamedia_parser.py:116 | `dict.fromkeys` keeps the same elements, each once, in the order of first occurrence |
| `Links.Dedup` | parsing/primamedia_parser.py:116 | `list(dict.fromkeys(xs))`; its meaning is given by `DedupSpec` |
| `Links.IndexOf` | parsing/primamedia_parser.py:116 | the first occurrence: the element is there and not earlier |
| `Links.CollectPaths` | parsing/primamedia_parser.py:100-114 | the loop over the hrefs computes exactly the collected list, or the failure |
| `Links.Deduplicate` | parsing/primamedia_parser.py:116 | the loop with a seen set computes exactly `Dedup` |
| `Links.GetNewsLinks` | parsing/primamedia_parser.py:87-119 | the links of a page are exactly `NewsLinks` |
| `Links.NewsLinks` | parsing/primamedia_parser.py:87-119 | the value `get_news_links_from_page` returns; its meaning is given by `NewsLinksShape` and `NewsLinksEmpty` |
| `Links.NewsLinksShape` | parsing/primamedia_parser.py:99-116 | every returned path is an article path, none repeats, they are exactly the kept paths, and they come in order of first occurrence |
| `Links.NewsLinksEmpty` | parsing/primamedia_parser.py:92-119 | no links when the page is unreachable, when its status is not 200, or when any href raises |
| `Links.ArticleHrefWithoutScheme` | parsing/primamedia_parser.py:104-107 | an `http…` href naming an article but lacking `://` raises |
| `LinkExamples.RelativeHref` | parsing/primamedia_parser.py:109-113 | a relative href is cut at its first `?` and kept exactly when the rest is an article path |
| `LinkExamples.RelativeHrefCut` | parsing/primamedia_parser.py:109-113 | the same rule with the position of the first `?` given |
| `LinkExamples.AbsoluteHrefIsItsPath` | parsing/primamedia_parser.py:104-108 | `http(s)://host/path` naming an article is examined exactly like `/path` |
| `LinkExamples.AbsoluteHref` | parsing/primamedia_parser.py:104-113 | an absolute article href is cut like `/` followed by the text after its host |
| `LinkExamples.SameCut` | parsing/primamedia_parser.py:104-112 | an absolute href and the path it reduces to have the same outcome |
| `LinkExamples.SchemePart` | parsing/primamedia_parser.py:107 | `split('://', 1)[1]` of `http(s)://tail` is `tail` |
| `LinkExamples.HostPart` | parsing/primamedia_parser.py:107 | `split('/', 1)[1]` of `host/path` for a host with no `/` is the path without its `/` |
| `LinkExamples.ArticleKept` | parsing/primamedia_parser.py:113-114 | an article path is kept unchanged |
| `LinkExamples.QueryDropped` | parsing/primamedia_parser.py:112-114 | an article path followed by a query string is kept without the query |
| `LinkExamples.NonDigitSkipped` | parsing/primamedia_parser.py:113 | a non-digit between `/news/` and the final `/` makes a relative href skipped |
| `LinkExamples.OtherSectionSkipped` | parsing/primamedia_parser.py:113 | a relative href outside `/news/` is skipped |
| `LinkExamples.ExampleHrefs` | parsing/primamedia_parser.py:103-114 | `/news/123/` and `/news/123/?ref=1` are kept as `/news/123/`; `/news/abc/` and `/category/news/` are skipped |
| `LinkExamples.CollectedSnoc` | parsing/primamedia_parser.py:102-114 | the collected list after one more href |
| `LinkExamples.CollectedFour` | parsing/primamedia_parser.py:102-114 | two kept hrefs with the same path and two skipped ones collect that path twice |
| `LinkExamples.DedupTwice` | parsing/primamedia_parser.py:116 | a path collected twice is returned once |
| `LinkExamples.KeptSkippedKeptSkipped` | parsing/primamedia_parser.py:102-116 | such a page returns that single path |
| `LinkExamples.RelativeHrefsExample` | parsing/primamedia_parser.py:99-116 | the page with the four hrefs above returns exactly `["/news/123/"]` |
| `Database.NewRecord` | parsing/database.py:28-39 | the row stores the title cut to 255 characters, the description, url and date unchanged, the given guid and creation time, and the comment and rating counts when given, 0 otherwise |
| `Database.TableInvariant` | parsing/database.py:8-17 | the `UNIQUE` url, the `PRIMARY KEY` guid, and titles within 255 characters; kept by `InsertOrIgnoreKeepsInvariant` |
| `Database.InsertOrIgnore` | parsing/database.py:28-39 | `INSERT OR IGNORE`; its meaning is given by `InsertOrIgnoreSpec` |
| `Database.InsertOrIgnoreSpec` | parsing/database.py:28-39 | old rows stay in place and at most the new row is appended; a clash on url changes nothing; without a guid clash the url is then present; the stored urls are the old ones plus the new one exactly when a row was added |
| `Database.InsertOrIgnoreKeepsInvariant` | parsing/database.py:8-39 | every insert keeps urls unique, guids unique, and titles within 255 characters |
| `Database.InsertOrIgnoreIdempotent` | parsing/database.py:28-39 | offering the same row twice is the same as offering it once |
| `Database.SqlLength` | parsing/database.py:53 | SQLite `LENGTH` of a text: the characters before the first NUL, the whole length when it has none |
| `Database.TotalDescriptionLength` | parsing/database.py:53 | the sum of `LENGTH(description)`; bounded by `TotalDescriptionLengthBounds` |
| `Database.AverageDescriptionLength` | parsing/database.py:53-54 | `int(AVG(LENGTH(description)) or 0)`; its meaning is given by `AverageDescriptionLengthSpec` |
| `Database.TotalDescriptionLengthBounds` | parsing/database.py:53 | the summed `LENGTH` lies between the count times the shortest and the count times the longest |
| `Database.AverageDescriptionLengthSpec` | parsing/database.py:53-54 | the reported average is 0 for an empty table, and otherwise the floor of the mean, lying between the shortest and longest length |
| `Database.FloorDivBounds` | parsing/database.py:54 | `int()` of a non-negative mean is the floor quotient, within the bounds of its operands |
| `Database.ArticleStore.constructor` | parsing/database.py:5-20 | the new table is empty and satisfies the key constraints |
| `Database.ArticleStore.Save` | parsing/database.py:23-41 | the table becomes the `INSERT OR IGNORE` of the new record, the invariant is kept, and the generated guid is returned |
| `Database.ArticleStore.UrlExists` | parsing/database.py:43-47 | true exactly when some row has the url |
| `Database.ArticleStore.Stats` | parsing/database.py:49-54 | the row count and the floor of the mean `LENGTH` of the descriptions |
| `ArticleParser.Title` | parsing/primamedia_parser.py:43-44 | the `h1` text, or `Без заголовка` when there is no `h1` |
| `ArticleParser.FirstFallback` | parsing/primamedia_parser.py:51-57 | the fallback loop over the four selectors; its meaning is given by `FirstFallbackAt` and `FirstFallbackNone` |
| `ArticleParser.Cascade` | parsing/primamedia_parser.py:47-57 | the paragraphs that make up the body; its meaning is given by `CascadeSpec` |
| `ArticleParser.Description` | parsing/primamedia_parser.py:59 | the cleaned `\n\n`-join of the selected paragraphs; its shape is given by `TextClean.CleanTextShape` |
| `ArticleParser.FirstFallbackAt` | parsing/primamedia_parser.py:52-57 | the first non-empty fallback selection is used, capped at 25 |
| `ArticleParser.FirstFallbackNone` | parsing/primamedia_parser.py:52-57 | with every fallback empty there are no paragraphs |
| `ArticleParser.CascadeSpec` | parsing/primamedia_parser.py:47-57 | the first 30 primary paragraphs, else the first 25 of the first non-empty fallback, else none |
| `ArticleParser.SelectParagraphs` | parsing/primamedia_parser.py:47-57 | the selector loop computes exactly the cascade |
| `ArticleParser.ArticleFor` | parsing/primamedia_parser.py:36-74 | a record is produced exactly for a delivered page with status 200 whose cleaned body has at least 300 characters; its body is that cleaned `\n\n`-join of the selected paragraphs (300 to 10000 characters), its title is the `h1` text or the placeholder cut to 255, and it holds the url, the date attribute and no counts |
| `ArticleParser.ArticleBodyShape` | parsing/primamedia_parser.py:59-74 | the stored body of an accepted article is the cleaned join of its paragraphs, so it has no tab, no two adjacent blanks or newlines, no leading whitespace, and no trailing whitespace unless the cap cut it |
| `ArticleParser.ShortBodyRejected` | parsing/primamedia_parser.py:62-63 | a status-200 page whose cleaned body is under 300 characters is not saved |
| `ArticleParser.ArticleTitle` | parsing/primamedia_parser.py:43-70 | the stored title is the `h1` text cut to 255 characters, or the placeholder |
| `ArticleParser.EmptyPageRejected` | parsing/primamedia_parser.py:47-63 | a page whose selectors all come back empty has the empty description and is not saved |
| `ArticleParser.GatedRows` | parsing/primamedia_parser.py:62-63 | every row has a body of 300 to 10000 characters; kept by `InsertKeepsGate` |
| `ArticleParser.InsertKeepsGate` | parsing/primamedia_parser.py:62-76 | saving a record that passed the gate keeps every row within 300 to 10000 characters |
| `ArticleParser.ParseArticle` | parsing/primamedia_parser.py:30-84 | returns true exactly when the page is accepted, even if the insert is ignored; a rejected page leaves the table unchanged; an accepted one is offered to `INSERT OR IGNORE`; the gate invariant is kept |
| `Crawl.DispatchedSpec` | parsing/primamedia_parser.py:137-143 | a URL is dispatched exactly when it is the URL of a collected path and is neither stored nor processed; none is dispatched twice |
| `Crawl.ArticleUrl` | parsing/primamedia_parser.py:133 | `urljoin(base_url, path)` for a path starting with `/` |
| `Crawl.Dispatched` | parsing/primamedia_parser.py:137-143 | the URLs the loop creates tasks for, in order; its meaning is given by `DispatchedSpec` |
| `Crawl.Dispatch` | parsing/primamedia_parser.py:137-143 | the dispatch loop creates exactly those tasks, and records their URLs as processed |
| `Crawl.Offer` | parsing/primamedia_parser.py:59-76 | a visit offers a row exactly when its page is accepted; the row has the visited url, the visit's guid, and a body within the gate |
| `Crawl.SaveAll` | parsing/primamedia_parser.py:146 | the table after the offered rows are inserted one after another; its meaning is given by `SaveAllSnoc` and `SaveAllKeepsGate` |
| `Crawl.CountAccepted` | parsing/primamedia_parser.py:147 | `sum(1 for r in results if r is True)`; bounded by `CountAcceptedBound` |
| `Crawl.CountAcceptedBound` | parsing/primamedia_parser.py:147 | no more visits are counted as saved than were made |
| `Crawl.SaveAllSnoc` | parsing/primamedia_parser.py:146 | proof helper: unfolds `SaveAll` by one visit |
| `Crawl.CountAcceptedSnoc` | parsing/primamedia_parser.py:147 | proof helper: unfolds `CountAccepted` by one visit |
| `Crawl.Gather` | parsing/primamedia_parser.py:146-147 | running the tasks in dispatch order inserts their offered rows one after another and counts the visits that returned true; the gate is kept |
| `Crawl.SaveAllKeepsGate` | parsing/primamedia_parser.py:146-147 | no sequence of visits lets a row under the gate into the table |
| `Crawl.TwoOfThreeSaved` | parsing/primamedia_parser.py:137-147 | three new URLs, two with bodies of at least 300 characters and one shorter: the page counts 2 saved and exactly those two rows are appended |
| `Crawl.TwoOfThreeCounted` | parsing/primamedia_parser.py:147 | for any offers, two accepted visits and one rejected one count 2 |
| `Crawl.TwoOfThreeRows` | parsing/primamedia_parser.py:146 | for any offers, two fresh rows are appended in order and the rejected visit adds none |
| `Crawl.ProcessedPageEmpty` | parsing/primamedia_parser.py:130-132 | a page without article links saves 0 and changes neither the table nor the processed set |
| `Crawl.ProcessedPage` | parsing/primamedia_parser.py:130-150 | the result of `process_page` once its listing page is known; computed by `ProcessListing` |
| `Crawl.Processor` | parsing/primamedia_parser.py:122-150 | `process_page(page_num)` on the listing page of each number; `ProcessPage` is proved to yield what it yields |
| `Crawl.ProcessListing` | parsing/primamedia_parser.py:129-150 | the page's result is exactly `ProcessedPage`: saved count, table and processed set |
| `Crawl.ProcessPage` | parsing/primamedia_parser.py:122-150 | `process_page` yields what the crawl's page step yields |
| `Crawl.SumSnoc` | parsing/primamedia_parser.py:174 | proof helper: the running total after one more page |
| `Crawl.Sum` | parsing/primamedia_parser.py:174 | the running `total_saved` |
| `Crawl.CrawlFrom` | parsing/primamedia_parser.py:172-178 | the page loop as a function of a page step; its meaning is given by `CrawlFromStops` and `WalkUnique` |
| `Crawl.StopsFrom` | parsing/primamedia_parser.py:172-178 | the stopping rule as a property of the per-page counts |
| `Crawl.CrawlFromStops` | parsing/primamedia_parser.py:172-178 | every crawl processes at most `max_pages` pages, does not stop before its last page, and when it ends early, its last page is after page 3 and saved 0 |
| `Crawl.StopsFromCons` | parsing/primamedia_parser.py:176 | a page that does not stop the crawl, followed by a run obeying the rule, obeys the rule |
| `Crawl.CrawlFromKeepsGate` | parsing/primamedia_parser.py:172-178 | a crawl whose every page keeps the gate keeps it throughout |
| `Crawl.ResumesEnd` | parsing/primamedia_parser.py:172 | past the last page the crawl is complete |
| `Crawl.CrawlAdvance` | parsing/primamedia_parser.py:173-178 | the loop invariant carried over one page: the break ends the crawl, otherwise the crawl resumes at the next page |
| `Crawl.CrawlFromUnfold` | parsing/primamedia_parser.py:172-178 | proof helper: unfolds `CrawlFrom` by one page, then either the stop or the rest |
| `Crawl.CrawlLoop` | parsing/primamedia_parser.py:172-181 | the loop produces exactly the per-page counts and final table of `CrawlFrom`, and the total is their sum |
| `Crawl.CrawlPages` | parsing/primamedia_parser.py:153-184 | the crawl's counts and table are those of `CrawlFrom`, the total is their sum, the counts obey the stopping rule, and the gate is kept; a second crawl adds no row (`CrawlTwiceAddsNothing`) |
| `Crawl.SaveAllExtends` | parsing/primamedia_parser.py:146-147 | inserting the visits' rows only appends to the table |
| `Crawl.SaveAllSettles` | parsing/primamedia_parser.py:146-147 | once the visits of a page are saved, each of them offers no row or has its url or guid stored |
| `Crawl.SaveAllSettled` | parsing/primamedia_parser.py:146-147 | visits that all offer no row or have their url or guid stored leave the table unchanged (`INSERT OR IGNORE`) |
| `Crawl.CountAcceptedZero` | parsing/primamedia_parser.py:147 | a page saves nothing exactly when none of its visits returns `True` |
| `Crawl.RerunPage` | parsing/primamedia_parser.py:130-150 | a second `process_page` of a page, against a table that extends the first's result and with a processed set that covers the first's unstored URLs, dispatches only URLs the first dispatched, leaves the table unchanged, saves nothing where the first saved nothing, and keeps the processed sets related |
| `Crawl.ProcessorReruns` | parsing/primamedia_parser.py:130-150 | `process_page` only appends to the table and has the property of `RerunPage` on every page |
| `Crawl.CrawlFromExtends` | parsing/primamedia_parser.py:172-178 | a crawl only appends to the table |
| `Crawl.RerunFrom` | parsing/primamedia_parser.py:172-178 | from any page on, a second crawl over the first's final table leaves it unchanged, and stops no later than the first |
| `Crawl.CrawlTwiceAddsNothing` | parsing/primamedia_parser.py:130-178 | running the crawl twice against an unchanged site adds no row on the second run |
| `Crawl.Walk` | parsing/primamedia_parser.py:172-178 | the stopping rule never processes more pages than exist |
| `Crawl.WalkIsPrefix` | parsing/primamedia_parser.py:172-178 | the processed pages are a prefix of the pages |
| `Crawl.WalkObeysRule` | parsing/primamedia_parser.py:172-178 | the processed pages obey the stopping rule |
| `Crawl.WalkStops` | parsing/primamedia_parser.py:172-178 | both of the above |
| `Crawl.WalkUnique` | parsing/primamedia_parser.py:172-178 | any prefix of the pages that obeys the rule is the one `Walk` processes |
| `Crawl.StopsFromTail` | parsing/primamedia_parser.py:176 | a run obeying the rule that goes past its first page obeys it from the next page |
| `Crawl.StopsFromAt` | parsing/primamedia_parser.py:176 | proof helper: instantiates `StopsFrom` at one page, so no page before the last is an empty page after page 3 |
| `Crawl.ZeroRunLength` | parsing/primamedia_parser.py:172-178 | a crawl that saves nothing processes exactly pages 1 to 4, or all pages when there are fewer |
| `Crawl.WalkExample` | parsing/primamedia_parser.py:176 | with counts 5, 5, 5, 5, 0, 5, 5 the crawl stops after the fifth page |
| `Crawl.WalkZerosExample` | parsing/primamedia_parser.py:176 | empty pages 1 to 3 do not stop the crawl, and the empty fourth page does |

## Left out

- HTTP: the aiohttp session, the timeouts and the User-Agent header are replaced by the page values `ListingPage` and `ArticlePage`. A request that fails or times out is the `Unreachable` or `Unavailable` page.
- HTML: BeautifulSoup and the CSS selectors are not modelled. A page arrives as the already-stripped texts (`get_text(strip=True)`) or hrefs that the selectors found. A missing `href` attribute (`link.get('href') or ''`) arrives as the empty string.
- Concurrency: the semaphore and `max_concurrent` are not modelled. `asyncio.gather` is modelled as running the tasks one after another in dispatch order; two visits racing on the same key are not.
- `asyncio.sleep(2)`, all logging, and the `print` of `init_database`.
- `parsing/main.py` is not part of this model.
- SQLite: the connection, the commits, the two indexes, the `NOT NULL` constraints and the `IF NOT EXISTS` of the schema are not modelled. The table is its rows in insertion order.
- `uuid.uuid4()` and `datetime.now(timezone.utc)` are inputs: each visit carries the guid and the creation time that would be drawn. A guid collision is possible in the model but has no practical counterpart.
- Exceptions: `save_to_primamedia` failing, and exceptions at lines 82-84 other than a failed request, are not modelled. In `get_news_links_from_page` only the `IndexError` of line 107 is modelled exactly; any other failure is the `Unreachable` page. `return_exceptions=True` at line 146 adds nothing, because `parse_primamedia_article` catches everything itself.
- `Links.IsDigit`: `\d` is limited to ASCII digits, while a Python `str` pattern also accepts other Unicode decimal digits.
- `Crawl.ArticleUrl`: `urljoin(base_url, path)` is modelled as concatenation. That is exact for the paths that reach it, which all start with `/news/`.
- `Database.AverageDescriptionLength`: `AVG` is a floating-point mean that `int()` truncates. It is modelled as the integer floor of the exact mean, which is what `int()` yields for a non-negative mean once rounding is ignored. `LENGTH` itself is modelled exactly (`Database.SqlLength`): SQLite counts the characters before the first NUL, and `clean_primamedia_text` keeps U+0000 because it is not whitespace.
- `ProcessListing` returns the new processed set instead of mutating `processed_urls` in place. The crawl loop passes it on to the next page, which has the same effect.
- `TextClean.CleanTextShape`: there is no lemma that runs the normaliser on a concrete input such as `"  a\n\n\nb  <b>x</b> http://y.com  "`, because a literal evaluation of the regex steps is too expensive for the verifier. For every input, the shape lemma says what the output can no longer contain, and `CleanTextUnchanged` says that a text already in clean form keeps all its characters (`CleanExampleFixed` applies it to `"a\nb x"`). What is removed from an arbitrary input is stated step by step: `StripTagsDeletes` for tags, and the per-step `Sound` lemmas for the rest.
- `max_pages` is the parameter `maxPages` of `CrawlPages`. The default of 300 is not fixed in the model.
