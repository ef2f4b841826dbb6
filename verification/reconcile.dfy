/** Three-way reconciliation of the fetched issues, the timestamp cache and the
    generated pages: which articles to (re)generate, which to delete, and the
    cache and page set once both passes are done. The cache maps an article
    identifier to the `updated_at` string it was last generated at; `htmlIds`
    are the identifiers that have a generated `<id>.html`. */
module Reconciler {
  import opened Issues

  /** Why the loop over fetched issues does, or does not, schedule an article. */
  datatype Decision = HtmlLost | New | Updated | Unchanged

  /** The branch the loop takes for one fetched issue, in the loop's order. */
  function Decide(id: string, updatedAt: string, cache: map<string, string>, htmlIds: set<string>): (d: Decision)
    ensures d == New <==> id !in cache
    ensures d == Updated <==> id in cache && cache[id] != updatedAt
    ensures d == HtmlLost <==> id in cache && cache[id] == updatedAt && id !in htmlIds
    ensures d == Unchanged <==> id in cache && cache[id] == updatedAt && id in htmlIds
  {
    var inCache := id in cache;
    var timeMatches := inCache && cache[id] == updatedAt;
    if inCache && timeMatches && id !in htmlIds then HtmlLost
    else if !inCache then New
    else if !timeMatches then Updated
    else Unchanged
  }

  /** The issue is scheduled for generation. */
  predicate Stale(issue: Issue, cache: map<string, string>, htmlIds: set<string>) {
    Decide(IdOf(issue), issue.updatedAt, cache, htmlIds) != Unchanged
  }

  /** `to_process`: the identifiers of the issues the loop schedules. */
  function ToProcess(issues: seq<Issue>, cache: map<string, string>, htmlIds: set<string>): (p: set<string>)
    ensures p <= RemoteIds(issues)
    ensures forall i :: 0 <= i < |issues| && Stale(issues[i], cache, htmlIds) ==> IdOf(issues[i]) in p
    ensures forall id :: id in p ==>
              exists i :: 0 <= i < |issues| && IdOf(issues[i]) == id && Stale(issues[i], cache, htmlIds)
  {
    set i | 0 <= i < |issues| && Stale(issues[i], cache, htmlIds) :: IdOf(issues[i])
  }

  /** `to_delete`: every identifier known locally, from the cache or from a
      generated page, that no fetched issue has. */
  function ToDelete(issues: seq<Issue>, cache: map<string, string>, htmlIds: set<string>): (d: set<string>)
    ensures d !! RemoteIds(issues)
    ensures forall id :: id in cache && id !in RemoteIds(issues) ==> id in d
    ensures forall id :: id in htmlIds && id !in RemoteIds(issues) ==> id in d
    ensures forall id :: id in d ==> id in cache || id in htmlIds
  {
    var localIds := cache.Keys + htmlIds;
    set id | id in localIds && id !in RemoteIds(issues)
  }

  /** The cache updates of the generation loop, applied in issue order: each
      scheduled issue records its `updated_at`. */
  function RecordProcessed(issues: seq<Issue>, toProcess: set<string>, cache: map<string, string>): (m: map<string, string>)
    ensures m.Keys == cache.Keys + (toProcess * RemoteIds(issues))
  {
    if |issues| == 0 then cache
    else
      var id := IdOf(issues[0]);
      var next := if id in toProcess then cache[id := issues[0].updatedAt] else cache;
      RemoteIdsCons(issues);
      RecordProcessed(issues[1..], toProcess, next)
  }

  /** Keys that no scheduled issue carries keep their entry, or their absence. */
  lemma {:induction false} RecordProcessedElsewhere(issues: seq<Issue>, toProcess: set<string>, cache: map<string, string>, k: string)
    requires k !in toProcess || k !in RemoteIds(issues)
    ensures k in RecordProcessed(issues, toProcess, cache) <==> k in cache
    ensures k in cache ==> RecordProcessed(issues, toProcess, cache)[k] == cache[k]
  {
    if |issues| > 0 {
      RemoteIdsCons(issues);
      var id := IdOf(issues[0]);
      var next := if id in toProcess then cache[id := issues[0].updatedAt] else cache;
      RecordProcessedElsewhere(issues[1..], toProcess, next, k);
    }
  }

  /** A scheduled issue's identifier ends up mapped to its `updated_at`, when
      no later issue carries the same identifier. */
  lemma {:induction false} RecordProcessedLast(issues: seq<Issue>, toProcess: set<string>, cache: map<string, string>, i: int)
    requires 0 <= i < |issues| && IdOf(issues[i]) in toProcess
    requires forall j :: i < j < |issues| ==> IdOf(issues[j]) != IdOf(issues[i])
    ensures IdOf(issues[i]) in RecordProcessed(issues, toProcess, cache)
    ensures RecordProcessed(issues, toProcess, cache)[IdOf(issues[i])] == issues[i].updatedAt
  {
    var id := IdOf(issues[0]);
    var next := if id in toProcess then cache[id := issues[0].updatedAt] else cache;
    var rest := issues[1..];
    if i == 0 {
      forall j | 0 <= j < |rest|
        ensures IdOf(rest[j]) != id
      {
        assert rest[j] == issues[j + 1];
      }
      RecordProcessedElsewhere(rest, toProcess, next, id);
    } else {
      forall j | i - 1 < j < |rest|
        ensures IdOf(rest[j]) != IdOf(rest[i - 1])
      {
        assert rest[j] == issues[j + 1];
      }
      RecordProcessedLast(rest, toProcess, next, i - 1);
      assert rest[i - 1] == issues[i];
    }
  }

  /** The state after one run. */
  datatype Reconciliation = Reconciliation(
    toProcess: set<string>,
    toDelete: set<string>,
    cache: map<string, string>,
    htmlIds: set<string>)

  /** Both passes of a run: pages and cache entries of `to_delete` are
      removed, then every scheduled article is generated and its cache entry
      set. All decisions read the cache as it was before the run. Afterwards
      a page exists for a scheduled identifier and for a fetched one that had a
      page, and the cache holds the fetched identifiers it held plus the
      scheduled ones. */
  function Reconcile(issues: seq<Issue>, cache: map<string, string>, htmlIds: set<string>): (r: Reconciliation)
    ensures forall id :: id in r.htmlIds <==> id in r.toProcess || (id in htmlIds && id in RemoteIds(issues))
    ensures r.cache.Keys == (cache.Keys * RemoteIds(issues)) + r.toProcess
  {
    var toProcess := ToProcess(issues, cache, htmlIds);
    var toDelete := ToDelete(issues, cache, htmlIds);
    Reconciliation(
      toProcess,
      toDelete,
      RecordProcessed(issues, toProcess, cache - toDelete),
      (htmlIds - toDelete) + toProcess)
  }

  /** A fetched issue missing from the cache is scheduled, whether or not its
      page exists. */
  lemma NewIssueProcessed(issues: seq<Issue>, cache: map<string, string>, htmlIds: set<string>, i: int)
    requires 0 <= i < |issues| && IdOf(issues[i]) !in cache
    ensures IdOf(issues[i]) in Reconcile(issues, cache, htmlIds).toProcess
  {
  }

  /** With unique issue numbers, a fetched issue is scheduled exactly when it
      is new, its cached timestamp differs, or its page is missing
      (self-healing); an issue whose timestamp matches and whose page exists
      is skipped. */
  lemma ProcessDecision(issues: seq<Issue>, cache: map<string, string>, htmlIds: set<string>, i: int)
    requires UniqueNumbers(issues)
    requires 0 <= i < |issues|
    ensures var id := IdOf(issues[i]);
            id in Reconcile(issues, cache, htmlIds).toProcess <==>
              (id !in cache || cache[id] != issues[i].updatedAt || id !in htmlIds)
  {
    var id := IdOf(issues[i]);
    if id in ToProcess(issues, cache, htmlIds) {
      var j :| 0 <= j < |issues| && IdOf(issues[j]) == id && Stale(issues[j], cache, htmlIds);
      UniqueIds(issues, i, j);
    }
  }

  /** `to_delete` is exactly the local identifiers without a fetched issue, so
      it never meets `to_process`, which only holds fetched identifiers. */
  lemma DeleteAndProcessDisjoint(issues: seq<Issue>, cache: map<string, string>, htmlIds: set<string>)
    ensures var r := Reconcile(issues, cache, htmlIds);
            && r.toDelete == (cache.Keys + htmlIds) - RemoteIds(issues)
            && r.toProcess <= RemoteIds(issues)
            && r.toProcess !! r.toDelete
  {
  }

  /** After a run deleted identifiers are gone from the cache and every
      entry neither deleted nor scheduled is as it was, whether or not issue
      numbers repeat. */
  lemma CacheFrameAfterRun(issues: seq<Issue>, cache: map<string, string>, htmlIds: set<string>)
    ensures var r := Reconcile(issues, cache, htmlIds);
            && (forall id :: id in r.toDelete ==> id !in r.cache)
            && (forall id :: id !in r.toDelete && id !in r.toProcess ==>
                  (id in r.cache <==> id in cache) && (id in cache ==> r.cache[id] == cache[id]))
  {
    var r := Reconcile(issues, cache, htmlIds);
    var base := cache - r.toDelete;
    forall id | id in r.toDelete
      ensures id !in r.cache
    {
      RecordProcessedElsewhere(issues, r.toProcess, base, id);
    }
    forall id | id !in r.toDelete && id !in r.toProcess
      ensures (id in r.cache <==> id in cache) && (id in cache ==> r.cache[id] == cache[id])
    {
      RecordProcessedElsewhere(issues, r.toProcess, base, id);
    }
  }

  /** After a run over issues with distinct numbers: deleted identifiers are
      gone from the cache, every scheduled identifier holds its issue's
      `updated_at`, and every other entry is as it was. */
  lemma CacheAfterRun(issues: seq<Issue>, cache: map<string, string>, htmlIds: set<string>)
    requires UniqueNumbers(issues)
    ensures var r := Reconcile(issues, cache, htmlIds);
            && (forall id :: id in r.toDelete ==> id !in r.cache)
            && (forall i :: 0 <= i < |issues| && IdOf(issues[i]) in r.toProcess ==>
                  IdOf(issues[i]) in r.cache && r.cache[IdOf(issues[i])] == issues[i].updatedAt)
            && (forall id :: id !in r.toDelete && id !in r.toProcess ==>
                  (id in r.cache <==> id in cache) && (id in cache ==> r.cache[id] == cache[id]))
  {
    var r := Reconcile(issues, cache, htmlIds);
    var base := cache - r.toDelete;
    CacheFrameAfterRun(issues, cache, htmlIds);
    forall i | 0 <= i < |issues| && IdOf(issues[i]) in r.toProcess
      ensures IdOf(issues[i]) in r.cache && r.cache[IdOf(issues[i])] == issues[i].updatedAt
    {
      forall j | i < j < |issues|
        ensures IdOf(issues[j]) != IdOf(issues[i])
      {
        if IdOf(issues[j]) == IdOf(issues[i]) {
          UniqueIds(issues, i, j);
        }
      }
      RecordProcessedLast(issues, r.toProcess, base, i);
    }
  }

  /** A fetched issue the loop does not schedule is already cached at its
      current `updated_at` and has a page. */
  lemma UnscheduledSettled(issues: seq<Issue>, cache: map<string, string>, htmlIds: set<string>, i: int)
    requires 0 <= i < |issues| && IdOf(issues[i]) !in ToProcess(issues, cache, htmlIds)
    ensures IdOf(issues[i]) in cache && cache[IdOf(issues[i])] == issues[i].updatedAt
    ensures IdOf(issues[i]) in htmlIds
  {
    assert !Stale(issues[i], cache, htmlIds);
  }

  /** After a run every fetched issue is cached at its current `updated_at`
      and has a page. */
  lemma OpenIssuesSettled(issues: seq<Issue>, cache: map<string, string>, htmlIds: set<string>)
    requires UniqueNumbers(issues)
    ensures var r := Reconcile(issues, cache, htmlIds);
            forall i :: 0 <= i < |issues| ==>
              && IdOf(issues[i]) in r.cache && r.cache[IdOf(issues[i])] == issues[i].updatedAt
              && IdOf(issues[i]) in r.htmlIds
  {
    var r := Reconcile(issues, cache, htmlIds);
    CacheAfterRun(issues, cache, htmlIds);
    forall i | 0 <= i < |issues|
      ensures IdOf(issues[i]) in r.cache && r.cache[IdOf(issues[i])] == issues[i].updatedAt
      ensures IdOf(issues[i]) in r.htmlIds
    {
      if IdOf(issues[i]) !in r.toProcess {
        UnscheduledSettled(issues, cache, htmlIds, i);
      }
    }
  }

  /** Every fetched identifier is scheduled, or already cached and paged. */
  lemma OpenScheduledOrKnown(issues: seq<Issue>, cache: map<string, string>, htmlIds: set<string>)
    ensures forall id :: id in RemoteIds(issues) ==>
              id in ToProcess(issues, cache, htmlIds) || (id in cache && id in htmlIds)
  {
    forall id | id in RemoteIds(issues)
      ensures id in ToProcess(issues, cache, htmlIds) || (id in cache && id in htmlIds)
    {
      var i :| 0 <= i < |issues| && IdOf(issues[i]) == id;
      if id !in ToProcess(issues, cache, htmlIds) {
        UnscheduledSettled(issues, cache, htmlIds, i);
      }
    }
  }

  /** After a run the cache holds exactly the fetched identifiers. */
  lemma CacheKeysAfterRun(issues: seq<Issue>, cache: map<string, string>, htmlIds: set<string>)
    ensures Reconcile(issues, cache, htmlIds).cache.Keys == RemoteIds(issues)
  {
    var r := Reconcile(issues, cache, htmlIds);
    forall id | id in RemoteIds(issues)
      ensures id in r.cache
    {
      var i :| 0 <= i < |issues| && IdOf(issues[i]) == id;
      if id !in r.toProcess {
        UnscheduledSettled(issues, cache, htmlIds, i);
      }
    }
  }

  /** After a run exactly the fetched identifiers have a page. */
  lemma PagesAfterRun(issues: seq<Issue>, cache: map<string, string>, htmlIds: set<string>)
    ensures Reconcile(issues, cache, htmlIds).htmlIds == RemoteIds(issues)
  {
    var r := Reconcile(issues, cache, htmlIds);
    forall id | id in RemoteIds(issues)
      ensures id in r.htmlIds
    {
      var i :| 0 <= i < |issues| && IdOf(issues[i]) == id;
      if id !in r.toProcess {
        UnscheduledSettled(issues, cache, htmlIds, i);
      }
    }
  }

  /** After a run the cache and the page set describe exactly the fetched
      issues, each at its current `updated_at`. */
  lemma StateAfterRun(issues: seq<Issue>, cache: map<string, string>, htmlIds: set<string>)
    requires UniqueNumbers(issues)
    ensures var r := Reconcile(issues, cache, htmlIds);
            && r.cache.Keys == RemoteIds(issues)
            && r.htmlIds == RemoteIds(issues)
            && (forall i :: 0 <= i < |issues| ==> r.cache[IdOf(issues[i])] == issues[i].updatedAt)
  {
    OpenIssuesSettled(issues, cache, htmlIds);
    CacheKeysAfterRun(issues, cache, htmlIds);
    PagesAfterRun(issues, cache, htmlIds);
  }

  /** A generation loop that schedules nothing leaves the cache alone. */
  lemma {:induction false} RecordNothing(issues: seq<Issue>, cache: map<string, string>)
    ensures RecordProcessed(issues, {}, cache) == cache
  {
    if |issues| > 0 {
      RecordNothing(issues[1..], cache);
    }
  }

  /** When the cache holds every fetched issue at its current `updated_at` and
      every fetched issue has a page, nothing is scheduled. */
  lemma NothingStale(issues: seq<Issue>, cache: map<string, string>, htmlIds: set<string>)
    requires RemoteIds(issues) <= htmlIds
    requires forall i :: 0 <= i < |issues| ==>
               IdOf(issues[i]) in cache && cache[IdOf(issues[i])] == issues[i].updatedAt
    ensures ToProcess(issues, cache, htmlIds) == {}
  {
    forall i | 0 <= i < |issues|
      ensures !Stale(issues[i], cache, htmlIds)
    {
    }
  }

  /** A settled state, where cache and pages describe exactly the fetched
      issues at their current `updated_at`, is a fixed point of a run. */
  lemma ReconcileSettled(issues: seq<Issue>, cache: map<string, string>, htmlIds: set<string>)
    requires cache.Keys == RemoteIds(issues) && htmlIds == RemoteIds(issues)
    requires forall i :: 0 <= i < |issues| ==> cache[IdOf(issues[i])] == issues[i].updatedAt
    ensures Reconcile(issues, cache, htmlIds) == Reconciliation({}, {}, cache, htmlIds)
  {
    NothingStale(issues, cache, htmlIds);
    var d := ToDelete(issues, cache, htmlIds);
    assert d == {};
    assert cache - d == cache;
    RecordNothing(issues, cache);
  }

  /** Idempotence: reconciling again against the state a run left behind,
      with the same fetched issues, schedules nothing, deletes nothing and
      leaves cache and pages as they are. */
  lemma ReconcileIdempotent(issues: seq<Issue>, cache: map<string, string>, htmlIds: set<string>)
    requires UniqueNumbers(issues)
    ensures var r := Reconcile(issues, cache, htmlIds);
            var again := Reconcile(issues, r.cache, r.htmlIds);
            && again.toProcess == {}
            && again.toDelete == {}
            && again.cache == r.cache
            && again.htmlIds == r.htmlIds
  {
    var r := Reconcile(issues, cache, htmlIds);
    StateAfterRun(issues, cache, htmlIds);
    ReconcileSettled(issues, r.cache, r.htmlIds);
  }
}
