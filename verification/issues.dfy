/** The issues fetched from the tracker, as the generator sees them, and
    the identifiers derived from them. */
module Issues {
  import opened Numerals

  /** One fetched issue (pull requests already filtered out); `tags` are the
      label names in the order the tracker lists them. */
  datatype Issue = Issue(
    number: int,
    title: string,
    body: string,
    createdAt: string,
    updatedAt: string,
    tags: seq<string>)

  /** The article identifier `str(issue['number'])`. */
  function IdOf(issue: Issue): string {
    IntToString(issue.number)
  }

  /** Two issues share an identifier exactly when they share a number, and
      the identifier of a non-negative number is its decimal digits, which
      parse back to it. */
  lemma IdOfMeaning(a: Issue, b: Issue)
    ensures IdOf(a) == IdOf(b) <==> a.number == b.number
    ensures a.number >= 0 ==> (forall k :: 0 <= k < |IdOf(a)| ==> IsDigit(IdOf(a)[k])) && ParseDigits(IdOf(a)) == a.number
  {
    if IdOf(a) == IdOf(b) {
      IntToStringInjective(a.number, b.number);
    }
    if a.number >= 0 {
      ParseNatToString(a.number);
    }
  }

  /** `remote_ids`: the identifiers of all fetched issues. */
  function RemoteIds(issues: seq<Issue>): (ids: set<string>)
    ensures forall i :: 0 <= i < |issues| ==> IdOf(issues[i]) in ids
    ensures forall id :: id in ids ==> exists i :: 0 <= i < |issues| && IdOf(issues[i]) == id
  {
    set i | 0 <= i < |issues| :: IdOf(issues[i])
  }

  /** The remote identifiers split into the first issue's and the rest's. */
  lemma RemoteIdsCons(issues: seq<Issue>)
    requires |issues| > 0
    ensures RemoteIds(issues) == {IdOf(issues[0])} + RemoteIds(issues[1..])
  {
    var rest := issues[1..];
    forall id | id in RemoteIds(issues)
      ensures id in {IdOf(issues[0])} + RemoteIds(rest)
    {
      var i :| 0 <= i < |issues| && IdOf(issues[i]) == id;
      if i > 0 {
        assert rest[i - 1] == issues[i];
      }
    }
    forall id | id in RemoteIds(rest)
      ensures id in RemoteIds(issues)
    {
      var i :| 0 <= i < |rest| && IdOf(rest[i]) == id;
      assert rest[i] == issues[i + 1];
    }
  }

  /** The tracker numbers issues uniquely. */
  predicate UniqueNumbers(issues: seq<Issue>) {
    forall i, j :: 0 <= i < j < |issues| ==> issues[i].number != issues[j].number
  }

  /** Uniquely numbered issues have unique identifiers. */
  lemma UniqueIds(issues: seq<Issue>, i: int, j: int)
    requires UniqueNumbers(issues)
    requires 0 <= i < |issues| && 0 <= j < |issues|
    requires IdOf(issues[i]) == IdOf(issues[j])
    ensures i == j
  {
    IntToStringInjective(issues[i].number, issues[j].number);
  }
}
