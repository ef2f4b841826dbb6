# VaLog generator core, modelled in Dafny

VaLog turns the open issues of a repository into a static blog. One run
fetches one page of the open issues (at most 100 entries, pull requests
included, which it then drops) and works out what to do with them. It decides
which article pages to (re)generate and which local articles to delete,
and updates its timestamp cache (`O-MD/articles.json`). It then builds the
home-page listing.

This project models the decision logic of that run as pure functions and
proves what it guarantees:

- **Fetch** (`fetch.dfy`): which issues the request returns: the first
  page of the listing, pull requests dropped, against the whole listing.
- **Reconciler** (`reconcile.dfy`): the three-way check between the fetched
  issues, the cache of `updated_at` strings, and the set of identifiers
  that have a generated `docs/article/<id>.html`. It covers the four
  per-issue branches (page lost, new, updated, unchanged), the deletion
  set, and the cache after both passes.
- **Extractor** (`extractor.dfy`): `extract_metadata_and_body`. Among the
  first five lines, a line that starts with the sentinel `!vml-` (once
  stripped) and has a `<span…>…</span>` gives the summary or the vertical
  title, and is removed from the body. The regular expression
  `<span[^>]*>(.*?)</span>` is modelled as a match tried at each index,
  leftmost first: the tag runs to the first `>`, the group to the first
  `</span>` after it, and there is no match when the group would hold a
  line feed.
- **Listing** (`listing.dfy`): one list item per fetched issue. It covers the
  display-title fallback `vertical_title or title or "Blog"`, the
  `created_at[:10]` date, and the split into special and regular items.
  It also covers the fallback special card built from `special.view`, and
  the stable newest-first sort of the regular items.
- **Generator** (`generator.dfy`): the run as a whole, `Run`, with its
  listing part `Home`.
- **Supporting modules.**
  - `text.dfy`: Python's `str.strip`, `startswith`, `find`, `in`,
    `split('\n')`, `'\n'.join` and clamped slicing, with the full
    `str.isspace` character set.
  - `order.dfy`: Python's code-point ordering of strings.
  - `numerals.dfy`: `str(n)` for integers.
  - `issues.dfy`: the issue record, its identifier `str(number)`, and
    `remote_ids`.
  - `samples.dfy`: worked examples on concrete inputs.

## Model

| member | source | states |
|---|---|---|
| Reconciler.Decide | VaLog.py:176-191 | Each branch holds exactly under its own condition. An issue is new iff it is absent from the cache. It is updated iff cached with a different timestamp. It is "page lost" iff cached with the same timestamp but has no page. Otherwise it is unchanged. |
| Reconciler.ToProcess | VaLog.py:163-191 | `to_process` holds only fetched identifiers. It holds every issue the loop schedules, and each member comes from such an issue. |
| Reconciler.ToDelete | VaLog.py:166-196 | `to_delete` is disjoint from the fetched identifiers. It contains every cached or paged identifier without a fetched issue, and nothing that is neither cached nor paged. |
| Reconciler.RecordProcessed | VaLog.py:233-258 | The cache update loop ends with the keys it started with plus every scheduled identifier of a fetched issue. |
| Reconciler.Reconcile | VaLog.py:160-258 | After both passes, an identifier has a page exactly when it was scheduled, or it had a page and is still fetched. The cache holds the fetched identifiers it held before plus the scheduled ones. |
| Reconciler.NewIssueProcessed | VaLog.py:186-188 | A fetched issue missing from the cache is always scheduled, whether or not its page exists. |
| Reconciler.ProcessDecision | VaLog.py:176-191 | With unique issue numbers, an issue is scheduled iff it is new, its cached timestamp differs, or its page is missing (self-heal). A matching timestamp with an existing page is skipped. |
| Reconciler.DeleteAndProcessDisjoint | VaLog.py:160-196 | `to_delete` equals (cache keys ∪ page ids) − fetched ids, and it never meets `to_process`. |
| Reconciler.RecordProcessedElsewhere | VaLog.py:233-258 | The cache update loop leaves unchanged every key that no scheduled issue carries, including its absence. |
| Reconciler.RecordProcessedLast | VaLog.py:233-258 | After the loop, a scheduled issue's identifier maps to that issue's `updated_at`, when no later issue has the same identifier. |
| Reconciler.RecordNothing | VaLog.py:233-258 | A loop that schedules nothing leaves the cache as it was. |
| Reconciler.UnscheduledSettled | VaLog.py:176-191 | A fetched issue the loop does not schedule is already cached at its current `updated_at` and has a page. |
| Reconciler.OpenScheduledOrKnown | VaLog.py:176-191 | Every fetched identifier is scheduled, or already cached and paged. |
| Reconciler.CacheFrameAfterRun | VaLog.py:199-258 | After a run, whether or not issue numbers repeat, deleted identifiers are gone from the cache, and every entry neither deleted nor scheduled is unchanged, present or absent. |
| Reconciler.CacheAfterRun | VaLog.py:199-258 | With unique issue numbers, after a run deleted identifiers are gone from the cache. Every scheduled identifier holds its issue's `updated_at`. Every other entry, present or absent, is unchanged. |
| Reconciler.OpenIssuesSettled | VaLog.py:160-258 | With unique issue numbers, after a run every fetched issue is cached at its current `updated_at` and has a page. |
| Reconciler.CacheKeysAfterRun | VaLog.py:160-258 | After a run the cache keys are exactly the fetched identifiers. |
| Reconciler.PagesAfterRun | VaLog.py:160-258 | After a run exactly the fetched identifiers have a page. |
| Reconciler.StateAfterRun | VaLog.py:160-258 | After a run, the cache keys and the page set both equal the fetched identifiers. Every fetched issue is cached at its current `updated_at`. |
| Reconciler.NothingStale | VaLog.py:176-191 | When every fetched issue is cached at its current timestamp and has a page, nothing is scheduled. |
| Reconciler.ReconcileSettled | VaLog.py:160-258 | A state whose cache and pages describe exactly the fetched issues is a fixed point: nothing is scheduled or deleted, and cache and pages stay as they are. |
| Reconciler.ReconcileIdempotent | VaLog.py:160-258 | A second run with the same issues against the first run's resulting state schedules nothing, deletes nothing, and reproduces the same cache and page set. |
| Issues.IdOfMeaning | VaLog.py:216 | `str(issue['number'])` identifies the issue: two issues share an identifier exactly when they share a number. A non-negative number's identifier is its decimal digits, which parse back to the number. |
| Issues.RemoteIds | VaLog.py:160 | `remote_ids` holds exactly the `str(number)` of the fetched issues. |
| Issues.UniqueIds | VaLog.py:160 | Issues with distinct numbers have distinct identifiers. |
| Numerals.IntToString | VaLog.py:177 | `str(n)` is non-empty and starts with a minus sign exactly when n is negative. |
| Numerals.ParseNatToString | VaLog.py:177 | Reading back the decimal digits of `str(n)` gives n, for natural n. |
| Numerals.IntToStringInjective | VaLog.py:177 | Distinct issue numbers render to distinct identifiers. |
| Text.Strip | VaLog.py:83 | `str.strip()` returns a slice of the input with only whitespace around it, neither starting nor ending with whitespace. It is empty exactly when the input is all whitespace. |
| Text.StripIdempotent | VaLog.py:83 | Stripping twice is stripping once. |
| Text.StripUnchanged | VaLog.py:83 | A string without whitespace at either end strips to itself. |
| Text.IsSpaceMeaning | VaLog.py:83 | The whitespace test of `strip` holds exactly for the characters for which `str.isspace()` holds, listed in `AsciiWhitespace` and `OtherWhitespace`. The range tests in `Text.IsSpace` only skip lookups that cannot succeed. |
| Text.OneOfMeans | VaLog.py:83 | The table lookup used by `Text.IsSpace` is membership. |
| Text.StartsWithMeaning | VaLog.py:84 | `line.startswith(p)` holds exactly when the line is `p` followed by something. |
| Text.IndexFrom | VaLog.py:85-91 | `find` returns the first occurrence at or after the start index, or reports that there is none. |
| Text.Contains | VaLog.py:88-91 | `p in s` holds exactly when `p` occurs at some index of `s`. |
| Text.AbsentCharNotContained | VaLog.py:88-91 | A string lacking one of the characters of `p` does not contain `p`. |
| Text.Prefix | VaLog.py:226 | `s[:10]` has length min(\|s\|, 10) and is a prefix of `s`. |
| Text.Split | VaLog.py:77 | `split('\n')` yields at least one piece, and no piece holds a line feed. |
| Text.Join | VaLog.py:98 | `'\n'.join` of no pieces is empty, and two or more pieces are separated by a line feed. With `Text.JoinSplit` it is the inverse of the split. |
| Text.JoinSplit | VaLog.py:77-98 | Joining the pieces of a split with line feeds gives back the original string. |
| Text.SplitJoin | VaLog.py:77-98 | Splitting a join of line-feed-free pieces gives back the pieces. |
| StringOrder.LexLeMeaning | VaLog.py:291 | `StringOrder.LexLe` is Python's `<=` on strings: it holds exactly when a is a prefix of b, or a has the smaller code point where they first differ. |
| StringOrder.PrefixLexLe | VaLog.py:291 | A prefix sorts no later than the string it begins. |
| StringOrder.SmallerAtLexLe | VaLog.py:291 | A smaller code point at the first difference sorts first. |
| StringOrder.LexLeCases | VaLog.py:291 | `a <= b` holds only when a is a prefix of b or smaller at their first difference. |
| StringOrder.LexLeReflexive | VaLog.py:291 | Python's string `<=` is reflexive. |
| StringOrder.LexLeAntisymmetric | VaLog.py:291 | Python's string `<=` is antisymmetric. |
| StringOrder.LexLeTransitive | VaLog.py:291 | Python's string `<=` is transitive. |
| StringOrder.LexLeTotal | VaLog.py:291 | Any two dates are comparable, so the sort key is a total order. |
| Extractor.SpanAtSound | VaLog.py:85 | A match at index i starts with `<span` there. Its group has no line feed and sits between a `>` and a `</span>`. |
| Extractor.SpanAtMeaning | VaLog.py:85 | With `<span` at i, the first `>` from i+5 at g and the first `</span>` after g at e, the match at i is the text between g and e, or none when that text holds a line feed. |
| Extractor.SpanAtUnterminatedTag | VaLog.py:85 | With `<span` at i and no `>` after it, nothing matches at i. |
| Extractor.SpanAtUnclosed | VaLog.py:85 | With `<span` at i, its first `>` at g and no `</span>` after g, nothing matches at i. |
| Extractor.SpanAt | VaLog.py:85 | A match tried at index i needs `<span` at i, and its group holds no line feed. `Extractor.SpanAtSound` places the group between `>` and `</span>`. |
| Extractor.SearchSpan | VaLog.py:85 | A match found by the search needs `<span` somewhere in the line, and its group holds no line feed. |
| Extractor.SearchSpanSound | VaLog.py:85 | `re.search` finds a match starting at some index, or none starts anywhere. |
| Extractor.SearchSpanLeftmost | VaLog.py:85 | `re.search` returns the match at the leftmost start index that has one. |
| Extractor.SpanMatchPlain | VaLog.py:85 | On `pre<span>c</span>post`, with no `<` in `pre` or `c` and no line feed in `c`, the captured group is exactly `c`. |
| Extractor.SpanMatch | VaLog.py:85 | A line without `<span` never matches the pattern. |
| Extractor.SpanMatchSound | VaLog.py:85 | A match needs `<span` in the line, and its group appears in the line between `>` and `</span>`. Without `<span` there is no match. |
| Extractor.ClassifyKeywords | VaLog.py:83-92 | States what `Extractor.Classify` means, together with `Extractor.ClassifyMeta`. A metadata line is a summary line only if the stripped line contains "summary". It is a title line only if it contains "title" but not "summary". Otherwise it sets nothing. A summary or title line carries the stripped group of the span match. |
| Extractor.ClassifyMeta | VaLog.py:83-92 | A header line is treated as metadata exactly when, once stripped, it starts with `!vml-` and the span pattern matches. |
| Extractor.ScanKinds | VaLog.py:82-92 | `meta_indices` holds exactly the positions of the metadata lines among those scanned. |
| Extractor.ScanSummaryDefault | VaLog.py:78-89 | Without a summary line, the summary keeps its default "暂无简介". |
| Extractor.ScanSummaryLast | VaLog.py:82-89 | The last summary line decides the summary: later lines override earlier ones. |
| Extractor.ScanTitleDefault | VaLog.py:79-91 | Without a title line, the vertical title stays empty. |
| Extractor.ScanTitleLast | VaLog.py:82-91 | The last title line decides the vertical title. |
| Extractor.KeepLines | VaLog.py:94 | Exactly one line is dropped per removed index in range: the lines kept plus the removed indices below the number of lines add up to the number of lines. All lines are returned when no removed index is in range. |
| Extractor.KeepLinesPrefix | VaLog.py:94 | The lines kept from any prefix of the input are a prefix of the lines kept from the whole. |
| Extractor.KeepLinesAt | VaLog.py:94 | A line whose index is not removed sits in the result right after the lines kept before it. With `Extractor.KeepLines`' count this fixes the result position by position, repeated lines included. |
| Extractor.KeepLinesMembers | VaLog.py:94 | Every line whose index is not in `meta_indices` is kept, and only lines of the input appear. |
| Extractor.KeepLinesTail | VaLog.py:94 | When every removed index lies below h, the lines from h on are kept unchanged and in order. |
| Extractor.HeaderCount | VaLog.py:82 | The loop looks at min(number of lines, 5) lines. |
| Extractor.HeaderKinds | VaLog.py:82-83 | The classification covers exactly the scanned lines, each classified from its own text. |
| Extractor.Extract | VaLog.py:72-99 | An empty body gives the default summary, an empty title and an empty body. The returned body never starts or ends with whitespace. |
| Extractor.ExtractRemovesOnlyHeader | VaLog.py:82-98 | A line among the first five is removed exactly when it is a metadata line. Every later line stays in the returned body, in order. |
| Extractor.UnparsedSentinelStays | VaLog.py:84-94 | A sentinel line whose span cannot be matched is not recorded as metadata and stays in the body. |
| Extractor.ExtractSummaryDefault | VaLog.py:78-89 | Without a summary line among the first five, the summary is the default "暂无简介". |
| Extractor.ExtractSummaryLast | VaLog.py:82-89 | The summary is the content of the last summary line among the first five. |
| Extractor.ExtractTitleDefault | VaLog.py:79-91 | Without a title line among the first five, the vertical title is empty. |
| Extractor.ExtractTitleLast | VaLog.py:82-91 | The vertical title is the content of the last title line among the first five. |
| Listing.IsSpecial | VaLog.py:218 | An issue is special exactly when one of its tags is `special`, `top` or a configured special tag. |
| Listing.DisplayTitle | VaLog.py:222 | The display title is never empty. It is the vertical title when that is non-empty. Otherwise it is the issue title when that is non-empty, and "Blog" when both are empty. |
| Listing.ItemOf | VaLog.py:221-231 | The list item carries the issue's identifier, title and tags. Its date is the prefix of `created_at` of length min(\|created_at\|, 10). Its content is the extracted summary, and its url is `article/<id>.html`. Its display title is `DisplayTitle` of the extracted vertical title and the issue title, so it is never empty. |
| Listing.Items | VaLog.py:215-231 | One item per fetched issue, in issue order, each built from its own issue. |
| Listing.FilterSnoc | VaLog.py:261-264 | Filtering by specialness distributes over appending an item at the end. |
| Listing.Partition | VaLog.py:215-264 | The special list is exactly the special items in input order, and the regular list is exactly the others in input order. Every item lands in exactly one of them, and their lengths add up to the number of items. |
| Listing.PartitionExclusive | VaLog.py:218-264 | An item is in the special list iff it is special, and in the regular list iff it is not. |
| Listing.PartitionNoSpecials | VaLog.py:261-267 | The special list is empty exactly when no item is special. |
| Listing.ViewField | VaLog.py:281-284 | A key missing from `special.view` reads as the empty string instead of raising, so the card is built whatever keys the view holds. |
| Listing.FallbackItem | VaLog.py:275-288 | The fallback card has identifier "0", display title "Special" and four content lines, the third being the days line. Having no link, it is never the list item of an issue. |
| Listing.WithFallback | VaLog.py:267-288 | A fallback card is added only when no item is special and `special.view` is non-empty. It is then the only special entry: identifier "0" and four lines (RF_Information, Copyright, the days line, Others). Otherwise the special list is unchanged. |
| Listing.InsertByDate | VaLog.py:291 | Inserting one item yields the old items plus that item, as a multiset. |
| Listing.InsertByDateSorted | VaLog.py:291 | Inserting into a newest-first list keeps it newest first. |
| Listing.RestBelowHead | VaLog.py:291 | When an item goes below the head of a sorted list, no item after the head is dated later than the head. |
| Listing.InsertBelowHead | VaLog.py:291 | When an item goes below the head of a sorted list, the result is still newest first. |
| Listing.ConsSorted | VaLog.py:291 | A newest-first list stays newest first under a head dated no earlier than any of its items. |
| Listing.WithDateCons | VaLog.py:291 | Filtering by date distributes over putting an item in front. |
| Listing.InsertByDateWithDate | VaLog.py:291 | The inserted item goes in front of the items that share its date. Items of other dates are untouched. |
| Listing.InsertKeepsDateOrder | VaLog.py:291 | One insertion step keeps, for every date, the items of that date in the order the unsorted list gives them. |
| Listing.SortByDateDesc | VaLog.py:291 | The sorted list is a permutation of the input and is newest first. Items sharing a date keep their input order, which is Python's stable sort with `reverse=True`. |
| Generator.Home | VaLog.py:215-291 | The home page's articles are a permutation of the non-special issues' items and come newest first. Among articles sharing a date, the order is the order of their issues. |
| Generator.Run | VaLog.py:160-291 | After a run nothing scheduled is deleted. `to_delete` is the local identifiers without a fetched issue, and every fetched identifier is scheduled or already cached and paged. The cache holds the fetched identifiers it held plus the scheduled ones, and the articles come newest first. |
| Generator.RunOnListing | VaLog.py:151-208 | A run over every page of the open listing, pull requests dropped, never deletes an open issue's page, and every open issue has a page afterwards. |
| Generator.HomeListsEachIssueOnce | VaLog.py:215-264 | Every fetched issue's item appears among the specials iff special, and among the articles iff not. |
| Generator.HomeFallback | VaLog.py:266-288 | With no special issue and a non-empty view, the specials are exactly one card with identifier "0" and four lines, the third being the days line. |
| Generator.HomeNoFallback | VaLog.py:266-288 | Otherwise every special entry is a fetched issue's item whose tags make it special. |
| Generator.RunIdempotent | VaLog.py:160-291 | Running again on the state a run left behind schedules and deletes nothing and reproduces the same cache, pages and listing. |
| Fetch.DropPullRequests | VaLog.py:154 | Dropping pull requests keeps one issue per entry that is not a pull request: the issues kept plus the pull requests make up the listing. Every such entry's issue is kept, and only issues of such entries appear. |
| Fetch.DropPullRequestsPrefix | VaLog.py:154 | The issues kept from a prefix of the listing start the issues kept from the whole listing. |
| Fetch.DropPullRequestsAt | VaLog.py:154 | The issue of an entry that is not a pull request sits right after the issues kept from the entries before it, so the result is fixed position by position in listing order. |
| Fetch.FirstPage | VaLog.py:151-154 | The one request yields at most 100 issues, all from the first 100 entries of the listing, and includes the issue of every entry among those 100 that is not a pull request. |
| Fetch.FirstPagePrefix | VaLog.py:151-154 | The issues of the first page start the full list of fetched issues. |
| Fetch.OpenIssues | VaLog.py:151-160 | Following the pages to the end, the identifier of every entry that is not a pull request is among the remote identifiers, and every issue comes from such an entry. |
| Fetch.FirstPageDeletesOpenIssue | VaLog.py:151-196 | A fetched issue past the first 100 entries, whose number appears on no entry of the first page and which has a page or a cache entry, lands in `to_delete`. |
| Fetch.OldestIssueDeleted | VaLog.py:151-208 | With 101 open issues listed newest first (101 down to 1) and issue 1 cached and paged, "1" is an open identifier yet lands in `to_delete`, and after the run it is in neither the cache nor the page set. |
| Fetch.OpenIssuesKept | VaLog.py:160-208 | Reconciled against every open issue, no open issue's identifier is deleted, and each has a page after the run. |
| Samples.ClassifyPlain | VaLog.py:83-92 | A sentinel line `pre<span>c</span>` is classified by the keywords it contains, with content `strip(c)`. |
| Samples.ClassifyShortSummary | VaLog.py:83-92 | `!vml-s<span>Short summary</span>` is a summary line with content "Short summary". The keyword is found inside the span. |
| Samples.ClassifyMyTitle | VaLog.py:83-92 | `!vml-t<span>My Title</span>` is a metadata line that sets neither summary nor title. The keyword test is case-sensitive. |
| Samples.ScanThreeLineExample | VaLog.py:77-94 | On `!vml-s<span>Short summary</span>`, `!vml-t<span>My Title</span>`, `Hello world`, the header loop records lines 0 and 1, takes the summary from line 0, and keeps only line 2. |
| Samples.ExtractThreeLineExample | VaLog.py:72-99 | The three-line example body yields summary "Short summary", an empty vertical title, and the body "Hello world". |
| Samples.DateOrderExample | VaLog.py:291 | `YYYY-MM-DD` strings compare in calendar order. |
| Samples.SortExample | VaLog.py:291 | Dates 01-02, 01-05, 01-02 sort to 01-05, then the two 01-02 items in input order. |

## Behaviour worth knowing

- **The keyword test is case-sensitive and looks at the whole line.**
  The code looks for the lower-case substrings "summary" and "title"
  anywhere in the stripped line, the span content included. In the body
  `!vml-s<span>Short summary</span>`, `!vml-t<span>My Title</span>`,
  `Hello world`, the first line is a summary line because its content holds
  "summary". The second line holds "Title", not "title": it is removed as
  metadata but sets no title. `Samples.ExtractThreeLineExample` proves the
  resulting output.
- **A sentinel line can stay in the body.** A sentinel line with no
  matchable span, or one after the first five lines, is kept as ordinary
  body text (`Extractor.UnparsedSentinelStays`,
  `Extractor.ExtractRemovesOnlyHeader`).
- **A failed fetch deletes nothing.** When the request fails, the code
  prints an error and returns before reconciling.
- **The cache is flat.** It maps each identifier to an `updated_at` string,
  with no per-entry type tag and no migration of older formats.

## Findings

| source | as written | input that shows it | evidently intended | confidence | as-written member | corrected member |
|---|---|---|---|---|---|---|
| VaLog.py:151-154 | One request with `per_page=100` and no pagination; pull requests count towards the 100 before they are dropped. The tracker lists newest first by default, so the open issues that fall outside that page are the oldest. Each is missing from `remote_ids`. If it was published earlier, its identifier lands in `to_delete` (VaLog.py:194-196) and its page and `.md` backup are removed (VaLog.py:199-208). That happens once: afterwards it is in neither the cache nor the pages, so later runs neither regenerate nor list it while it stays outside the first page. | 101 open issues, listed 101 down to 1, with issue 1 cached and paged by an earlier run. | Reconcile against every open issue, following the pages. | not executed; medium (the tracker returns at most 100 entries per request) | Fetch.FirstPageDeletesOpenIssue, Fetch.OldestIssueDeleted | Fetch.OpenIssuesKept, Generator.RunOnListing |

## Left out

- Environment variables, the HTTP request and the abort on failure (VaLog.py:141-158). The issues a run works on are a parameter of `Reconciler.Reconcile` and `Generator.Run`: they stand for whatever the request returned. `Fetch` models only which entries that is, and the pagination defect is under "Findings". Every "fetched issue" in the table above means an issue of that parameter.
- The filesystem: `os.listdir` and `os.path.exists` on the article directory become the set `htmlIds`. Page writes, `.md` backups and `os.remove` appear only through that set and the cache.
- Markdown rendering, `process_body` (VaLog.py:101-138), and Jinja template rendering: page contents are not modelled.
- Reading and writing `config.yml`, `articles.json`, `base.yaml` and the index page (VaLog.py:42-62, 293 onward): I/O around the state the model computes.
- The days-running text (VaLog.py:269-274): it reads the clock, so `daysText` is a parameter of `Home` and `Run`.
- A `null` body or title from the tracker is modelled as the empty string. Extraction and the display title treat the two alike, since both are falsy. The listing's raw `title` field would differ, and so would the backup write described next.
- The template lookup, the render and the page write (VaLog.py:249-251) and the `.md` backup write (VaLog.py:254-255) are assumed to succeed; none of them is guarded. A raise there (a missing template, a failing render, or `f.write(None)` for a scheduled issue whose body is `null`) comes after the deletions and before the cache is saved (VaLog.py:294-295), so `articles.json` keeps its old contents. Every later run then schedules that issue again and can fail again, so `Reconciler.StateAfterRun`, `Reconciler.ReconcileIdempotent` and `Generator.RunIdempotent` do not describe the program on such an input.
- `htmlIds` assumes each listed `.html` file name contains ".html" only at its end. `f.replace('.html', '')` (VaLog.py:169) removes every occurrence, so a stray `7.html.html` lists as identifier "7". `os.path.exists` (VaLog.py:179) and the deletion (VaLog.py:202-206) then look at `7.html`, which is not that file. The stray file is never removed. While issue 7 is not open, "7" lands in `to_delete` on every run, and the idempotence lemmas do not hold for such a directory.
- Values of `special.view` are modelled as strings, and an absent `special.view` as an empty map; both are falsy in the code.
- Reconciler.ProcessDecision: assumes issue numbers are unique, as the tracker guarantees; the code does not check it.
- Reconciler.CacheAfterRun: assumes issue numbers are unique, as the tracker guarantees; the code does not check it. `Reconciler.CacheFrameAfterRun` states the deletion and frame parts without that assumption.
- Reconciler.OpenIssuesSettled: assumes issue numbers are unique, as the tracker guarantees; the code does not check it.
- Reconciler.StateAfterRun: assumes issue numbers are unique, as the tracker guarantees; the code does not check it.
- Reconciler.ReconcileIdempotent: assumes issue numbers are unique, as the tracker guarantees; the code does not check it.
- Generator.RunIdempotent: assumes issue numbers are unique, as the tracker guarantees. It proves the idempotence of the state (cache, page set, listing), not byte-identical page files, since rendering is not modelled.
