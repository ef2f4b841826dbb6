/** The request for the open issues. The tracker lists open pull requests
    among the open issues and returns the listing a page at a time; the
    generator asks for one page and drops the pull requests from it. */
module Fetch {
  import opened Numerals
  import opened Issues
  import opened Reconciler

  /** `per_page=100`: the most entries one request returns. */
  const PerPage: nat := 100

  /** One entry of the tracker's open-issue listing. */
  datatype Entry = Entry(issue: Issue, isPullRequest: bool)

  /** The positions of the pull requests in a listing. */
  function PullRequestsIn(entries: seq<Entry>): set<int>
  {
    set k | 0 <= k < |entries| && entries[k].isPullRequest
  }

  /** `[i for i in entries if not i.get("pull_request")]`: the issues of the
      entries that are not pull requests, in listing order. One issue is
      kept for each entry that is not a pull request; `DropPullRequestsAt`
      says where each lands. */
  function DropPullRequests(entries: seq<Entry>): (issues: seq<Issue>)
    ensures |issues| + |PullRequestsIn(entries)| == |entries|
    ensures forall k :: 0 <= k < |entries| && !entries[k].isPullRequest ==> entries[k].issue in issues
    ensures forall x :: x in issues ==> exists k :: 0 <= k < |entries| && !entries[k].isPullRequest && entries[k].issue == x
  {
    if |entries| == 0 then []
    else
      var n := |entries| - 1;
      var prev := DropPullRequests(entries[..n]);
      assert forall k :: 0 <= k < n ==> entries[..n][k] == entries[k];
      assert PullRequestsIn(entries) == PullRequestsIn(entries[..n]) + (if entries[n].isPullRequest then {n} else {});
      assert n !in PullRequestsIn(entries[..n]);
      if entries[n].isPullRequest then prev else prev + [entries[n].issue]
  }

  /** The last entry adds its issue at the end, unless it is a pull
      request. */
  lemma DropPullRequestsLast(entries: seq<Entry>)
    requires |entries| > 0
    ensures DropPullRequests(entries) ==
              DropPullRequests(entries[..|entries| - 1]) + (if entries[|entries| - 1].isPullRequest then [] else [entries[|entries| - 1].issue])
  {
  }

  /** A prefix of a prefix is a prefix. */
  lemma PrefixOfPrefix<T>(a: seq<T>, b: seq<T>, c: seq<T>)
    requires a <= b && b <= c
    ensures a <= c
  {
    assert a == b[..|a|] && b == c[..|b|];
    assert c[..|b|][..|a|] == c[..|a|];
  }

  /** The issues kept from a prefix of the listing start the issues kept
      from the whole listing. */
  lemma {:induction false} DropPullRequestsPrefix(entries: seq<Entry>, k: nat)
    requires k <= |entries|
    ensures DropPullRequests(entries[..k]) <= DropPullRequests(entries)
    decreases |entries|
  {
    if k < |entries| {
      var n := |entries| - 1;
      assert entries[..n][..k] == entries[..k];
      DropPullRequestsPrefix(entries[..n], k);
      DropPullRequestsLast(entries);
      PrefixOfPrefix(DropPullRequests(entries[..k]), DropPullRequests(entries[..n]), DropPullRequests(entries));
    } else {
      assert entries[..k] == entries;
    }
  }

  /** The issue of the entry at `k`, not a pull request, lands right after
      the issues kept from the entries before it: the result keeps the
      listing order, repeated issues included. */
  lemma DropPullRequestsAt(entries: seq<Entry>, k: int)
    requires 0 <= k < |entries| && !entries[k].isPullRequest
    ensures |DropPullRequests(entries[..k])| < |DropPullRequests(entries)|
    ensures DropPullRequests(entries)[|DropPullRequests(entries[..k])|] == entries[k].issue
  {
    assert entries[..k + 1][..k] == entries[..k];
    DropPullRequestsLast(entries[..k + 1]);
    DropPullRequestsPrefix(entries, k + 1);
  }

  /** The code as written: the issues of the first page only. */
  function FirstPage(entries: seq<Entry>): (issues: seq<Issue>)
    ensures |issues| <= PerPage
    ensures forall k :: 0 <= k < |entries| && k < PerPage && !entries[k].isPullRequest ==> entries[k].issue in issues
    ensures forall x :: x in issues ==> exists k :: 0 <= k < |entries| && k < PerPage && entries[k].issue == x
  {
    var page := if |entries| <= PerPage then entries else entries[..PerPage];
    var issues := DropPullRequests(page);
    assert forall k :: 0 <= k < |page| ==> page[k] == entries[k];
    assert forall x :: x in issues ==> exists k :: 0 <= k < |page| && page[k].issue == x;
    issues
  }

  /** Every fetched issue, the pages followed to the end: the list the
      reconciliation is meant to run against. */
  function OpenIssues(entries: seq<Entry>): (issues: seq<Issue>)
    ensures forall k :: 0 <= k < |entries| && !entries[k].isPullRequest ==> IdOf(entries[k].issue) in RemoteIds(issues)
    ensures forall x :: x in issues ==> exists k :: 0 <= k < |entries| && !entries[k].isPullRequest && entries[k].issue == x
  {
    DropPullRequests(entries)
  }

  /** The first page's issues start the full list: the code as written sees
      a prefix of what it should see. */
  lemma FirstPagePrefix(entries: seq<Entry>)
    ensures FirstPage(entries) <= OpenIssues(entries)
  {
    if PerPage < |entries| {
      DropPullRequestsPrefix(entries, PerPage);
    } else {
      assert entries[..|entries|] == entries;
    }
  }

  /** With more than a page of entries, a fetched issue past the first page
      that already has a page or a cache entry is deleted by the run. */
  lemma FirstPageDeletesOpenIssue(entries: seq<Entry>, cache: map<string, string>, htmlIds: set<string>, k: int)
    requires PerPage <= k < |entries| && !entries[k].isPullRequest
    requires forall j :: 0 <= j < PerPage ==> entries[j].issue.number != entries[k].issue.number
    requires IdOf(entries[k].issue) in cache || IdOf(entries[k].issue) in htmlIds
    ensures IdOf(entries[k].issue) in RemoteIds(OpenIssues(entries))
    ensures IdOf(entries[k].issue) in ToDelete(FirstPage(entries), cache, htmlIds)
  {
    var id := IdOf(entries[k].issue);
    var page := FirstPage(entries);
    forall i | 0 <= i < |page|
      ensures IdOf(page[i]) != id
    {
      assert page[i] in page;
      var j :| 0 <= j < |entries| && j < PerPage && entries[j].issue == page[i];
      IdOfMeaning(page[i], entries[k].issue);
    }
  }

  /** A repository with 101 open issues, listed as the tracker lists them by
      default, newest first: entry `k` is issue `101 - k`, so the first page
      holds issues 101 down to 2. */
  function HundredAndOne(): (entries: seq<Entry>)
    ensures |entries| == 101
    ensures forall k :: 0 <= k < 101 ==> entries[k] == Entry(Issue(101 - k, "", "", "", "", []), false)
  {
    seq(101, k => Entry(Issue(101 - k, "", "", "", "", []), false))
  }

  /** On that repository, with issue 1 published by an earlier run, the run
      deletes the page and cache entry of issue 1 although it is open, and
      leaves neither behind: a later run no longer sees it in the cache or
      among the pages, so it never regenerates or lists it. */
  lemma OldestIssueDeleted()
    ensures "1" in RemoteIds(OpenIssues(HundredAndOne()))
    ensures var r := Reconcile(FirstPage(HundredAndOne()), map["1" := "2024-01-01T00:00:00Z"], {"1"});
            "1" in r.toDelete && "1" !in r.cache && "1" !in r.htmlIds
  {
    var entries := HundredAndOne();
    var cache := map["1" := "2024-01-01T00:00:00Z"];
    RenderOne();
    assert IdOf(entries[100].issue) == "1";
    FirstPageDeletesOpenIssue(entries, cache, {"1"}, 100);
  }

  /** `str(1)` is "1". */
  lemma RenderOne()
    ensures IntToString(1) == "1"
  {
    assert NatToString(1) == [DigitChar(1)];
  }

  /** Against every fetched issue, no fetched issue's page is deleted and
      every fetched issue has a page after the run. */
  lemma OpenIssuesKept(entries: seq<Entry>, cache: map<string, string>, htmlIds: set<string>, k: int)
    requires 0 <= k < |entries| && !entries[k].isPullRequest
    ensures var r := Reconcile(OpenIssues(entries), cache, htmlIds);
            IdOf(entries[k].issue) !in r.toDelete && IdOf(entries[k].issue) in r.htmlIds
  {
    OpenScheduledOrKnown(OpenIssues(entries), cache, htmlIds);
  }
}
