/** One run of the generator, as a pure function of the fetched issues, the
    cache, the identifiers that have a generated page, and the configuration.
    The clock-dependent "days running" line is a parameter. */
module Generator {
  import opened Issues
  import opened Reconciler
  import opened Listing
  import opened Fetch

  /** The configuration the decision logic reads: `special_tags`, and the
      `special.view` block (absent and empty are the same: no fallback). */
  datatype Config = Config(specialTags: seq<string>, specialView: map<string, string>)

  datatype RunResult = RunResult(
    toProcess: set<string>,
    toDelete: set<string>,
    cache: map<string, string>,
    htmlIds: set<string>,
    articles: seq<ListItem>,
    specials: seq<ListItem>)

  /** The two lists handed to the index page. */
  datatype HomePage = HomePage(articles: seq<ListItem>, specials: seq<ListItem>)

  /** The listing part of a run: every fetched issue's item, split, the
      fallback card added, and the regular articles sorted. The articles are
      the regular items in issue order, rearranged newest first, and articles
      sharing a date keep the order their issues were listed in. */
  function Home(issues: seq<Issue>, config: Config, daysText: string): (h: HomePage)
    ensures var regular := Filter(Items(issues), config.specialTags, false);
            && SortedByDateDesc(h.articles)
            && multiset(h.articles) == multiset(regular)
            && forall d :: WithDate(h.articles, d) == WithDate(regular, d)
  {
    var lists := Partition(Items(issues), config.specialTags);
    HomePage(SortByDateDesc(lists.regular), WithFallback(lists.specials, config.specialView, daysText))
  }

  /** `VaLogGenerator.run` without its input and output: after it, every
      fetched issue is either scheduled or already cached with a page, nothing
      scheduled is deleted, and the articles come out newest first. */
  function Run(issues: seq<Issue>, cache: map<string, string>, htmlIds: set<string>, config: Config, daysText: string): (r: RunResult)
    ensures r.toProcess !! r.toDelete
    ensures r.toDelete == (cache.Keys + htmlIds) - RemoteIds(issues)
    ensures forall id :: id in RemoteIds(issues) ==> id in r.toProcess || (id in cache && id in htmlIds)
    ensures r.cache.Keys == (cache.Keys * RemoteIds(issues)) + r.toProcess
    ensures SortedByDateDesc(r.articles)
  {
    var rec := Reconcile(issues, cache, htmlIds);
    var home := Home(issues, config, daysText);
    DeleteAndProcessDisjoint(issues, cache, htmlIds);
    OpenScheduledOrKnown(issues, cache, htmlIds);
    RunResult(rec.toProcess, rec.toDelete, rec.cache, rec.htmlIds, home.articles, home.specials)
  }

  /** A run over the tracker's whole open listing, every page of it, with
      the pull requests dropped: no open issue's page is deleted, and every
      open issue has a page afterwards. */
  function RunOnListing(entries: seq<Entry>, cache: map<string, string>, htmlIds: set<string>, config: Config, daysText: string): (r: RunResult)
    ensures forall k :: 0 <= k < |entries| && !entries[k].isPullRequest ==>
              IdOf(entries[k].issue) !in r.toDelete && IdOf(entries[k].issue) in r.htmlIds
  {
    var rec := Reconcile(OpenIssues(entries), cache, htmlIds);
    forall k | 0 <= k < |entries| && !entries[k].isPullRequest
      ensures IdOf(entries[k].issue) !in rec.toDelete && IdOf(entries[k].issue) in rec.htmlIds
    {
      OpenIssuesKept(entries, cache, htmlIds, k);
    }
    Run(OpenIssues(entries), cache, htmlIds, config, daysText)
  }

  /** Every fetched issue is listed exactly once: among the specials when its
      tags make it special, among the regular articles otherwise. */
  lemma HomeListsEachIssueOnce(issues: seq<Issue>, config: Config, daysText: string, i: int)
    requires 0 <= i < |issues|
    ensures var r := Home(issues, config, daysText);
            var special := IsSpecial(issues[i].tags, config.specialTags);
            && (ItemOf(issues[i]) in r.specials <==> special)
            && (ItemOf(issues[i]) in r.articles <==> !special)
  {
    var items := Items(issues);
    var lists := Partition(items, config.specialTags);
    var x := ItemOf(issues[i]);
    assert x == items[i];
    PartitionExclusive(items, config.specialTags, x);
    assert x != FallbackItem(config.specialView, daysText);
    var sorted := SortByDateDesc(lists.regular);
    assert x in sorted <==> x in lists.regular by {
      assert x in multiset(sorted) <==> x in multiset(lists.regular);
    }
  }

  /** The fallback card appears exactly when no issue is special and a
      `special.view` block is configured; it is then the only special entry,
      has identifier "0" and four lines of content. */
  lemma HomeFallback(issues: seq<Issue>, config: Config, daysText: string)
    ensures var r := Home(issues, config, daysText);
            (forall i :: 0 <= i < |issues| ==> !IsSpecial(issues[i].tags, config.specialTags)) &&
            |config.specialView| > 0 ==>
              && |r.specials| == 1
              && r.specials[0].id == FallbackId
              && r.specials[0].content.Panel?
              && |r.specials[0].content.lines| == 4
              && r.specials[0].content.lines[2] == daysText
  {
    var items := Items(issues);
    var specials := Partition(items, config.specialTags).specials;
    PartitionNoSpecials(items, config.specialTags);
  }

  /** Otherwise every special entry is a fetched issue's item whose tags make
      it special. */
  lemma HomeNoFallback(issues: seq<Issue>, config: Config, daysText: string)
    ensures var r := Home(issues, config, daysText);
            (exists i :: 0 <= i < |issues| && IsSpecial(issues[i].tags, config.specialTags)) ||
            |config.specialView| == 0 ==>
              forall x :: x in r.specials ==> x in Items(issues) && IsSpecial(x.tags, config.specialTags)
  {
    var items := Items(issues);
    var specials := Partition(items, config.specialTags).specials;
    PartitionNoSpecials(items, config.specialTags);
  }

  /** Running again with the same issues against the state a run left
      behind generates nothing, deletes nothing, and reproduces the same
      cache, pages and listing. */
  lemma RunIdempotent(issues: seq<Issue>, cache: map<string, string>, htmlIds: set<string>, config: Config, daysText: string)
    requires UniqueNumbers(issues)
    ensures var r := Run(issues, cache, htmlIds, config, daysText);
            var again := Run(issues, r.cache, r.htmlIds, config, daysText);
            && again.toProcess == {} && again.toDelete == {}
            && again == r.(toProcess := {}, toDelete := {})
  {
    ReconcileIdempotent(issues, cache, htmlIds);
  }
}
