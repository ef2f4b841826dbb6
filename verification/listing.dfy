/** The home-page listing: one list item per fetched issue, split into
    "special" (pinned) items and regular ones, a configured fallback special
    card when nothing is pinned, and the regular items sorted newest first. */
module Listing {
  import opened Text
  import opened StringOrder
  import opened Issues
  import Extractor

  /** A regular item shows its summary; the fallback card shows four lines. */
  datatype Content = Summary(text: string) | Panel(lines: seq<string>)

  datatype ListItem = ListItem(
    id: string,
    title: string,
    date: string,
    tags: seq<string>,
    content: Content,
    url: string,
    verticalTitle: string)

  /** `created_at[:10]`: the `YYYY-MM-DD` part of an ISO timestamp. */
  const DateLength: nat := 10

  /** The display title of last resort. */
  const PlaceholderTitle: string := "Blog"

  /** The identifier of the fallback card. */
  const FallbackId: string := "0"

  /** Tagged `special`, `top`, or any configured special tag: some tag of
      the issue is one of those. */
  function IsSpecial(tags: seq<string>, specialTags: seq<string>): (b: bool)
    ensures b <==> exists t :: t in tags && (t == "special" || t == "top" || t in specialTags)
  {
    if "special" in tags then
      assert "special" in tags && "special" == "special";
      true
    else if "top" in tags then
      assert "top" in tags && "top" == "top";
      true
    else
      exists t :: t in specialTags && t in tags
  }

  /** `vertical_title or title or "Blog"`: the first non-empty candidate. */
  function DisplayTitle(verticalTitle: string, title: string): (t: string)
    ensures t != ""
    ensures t == verticalTitle || t == title || t == PlaceholderTitle
    ensures verticalTitle != "" ==> t == verticalTitle
    ensures verticalTitle == "" && title != "" ==> t == title
    ensures verticalTitle == "" && title == "" ==> t == PlaceholderTitle
  {
    if verticalTitle != "" then verticalTitle
    else if title != "" then title
    else PlaceholderTitle
  }

  /** The list item built for every fetched issue, generated this run or not. */
  function ItemOf(issue: Issue): (item: ListItem)
    ensures item.id == IdOf(issue) && item.tags == issue.tags
    ensures StartsWith(issue.createdAt, item.date)
    ensures |item.date| == if |issue.createdAt| < DateLength then |issue.createdAt| else DateLength
    ensures item.verticalTitle != ""
    ensures item.title == issue.title
    ensures item.content == Summary(Extractor.Extract(issue.body).summary)
    ensures item.verticalTitle == DisplayTitle(Extractor.Extract(issue.body).verticalTitle, issue.title)
    ensures item.url == "article/" + IdOf(issue) + ".html"
  {
    var meta := Extractor.Extract(issue.body);
    ListItem(
      IdOf(issue),
      issue.title,
      Prefix(issue.createdAt, DateLength),
      issue.tags,
      Summary(meta.summary),
      "article/" + IdOf(issue) + ".html",
      DisplayTitle(meta.verticalTitle, issue.title))
  }

  /** The list item of every issue, in issue order. */
  function Items(issues: seq<Issue>): (items: seq<ListItem>)
    ensures |items| == |issues|
    ensures forall i :: 0 <= i < |issues| ==> items[i] == ItemOf(issues[i])
  {
    seq(|issues|, i requires 0 <= i < |issues| => ItemOf(issues[i]))
  }

  datatype Lists = Lists(specials: seq<ListItem>, regular: seq<ListItem>)

  /** The items whose tags are special (`want`) or not (`!want`), in the
      order given. */
  function Filter(items: seq<ListItem>, specialTags: seq<string>, want: bool): seq<ListItem> {
    if |items| == 0 then []
    else (if IsSpecial(items[0].tags, specialTags) == want then [items[0]] else []) + Filter(items[1..], specialTags, want)
  }

  /** Filtering distributes over appending an item at the end. */
  lemma {:induction false} FilterSnoc(items: seq<ListItem>, specialTags: seq<string>, want: bool, x: ListItem)
    ensures Filter(items + [x], specialTags, want) ==
            Filter(items, specialTags, want) + (if IsSpecial(x.tags, specialTags) == want then [x] else [])
  {
    if |items| == 0 {
      assert items + [x] == [x];
      assert [x][1..] == [];
    } else {
      assert (items + [x])[0] == items[0];
      assert (items + [x])[1..] == items[1..] + [x];
      FilterSnoc(items[1..], specialTags, want, x);
    }
  }

  /** The listing loop: every item is appended, in order, to the special
      list when its tags make it special and to the regular list otherwise. */
  function Partition(items: seq<ListItem>, specialTags: seq<string>): (l: Lists)
    ensures l.specials == Filter(items, specialTags, true)
    ensures l.regular == Filter(items, specialTags, false)
    ensures |l.specials| + |l.regular| == |items|
    ensures forall x :: x in items && IsSpecial(x.tags, specialTags) ==> x in l.specials
    ensures forall x :: x in items && !IsSpecial(x.tags, specialTags) ==> x in l.regular
    ensures forall x :: x in l.specials ==> x in items && IsSpecial(x.tags, specialTags)
    ensures forall x :: x in l.regular ==> x in items && !IsSpecial(x.tags, specialTags)
  {
    if |items| == 0 then Lists([], [])
    else
      var n := |items| - 1;
      var prev := Partition(items[..n], specialTags);
      assert items == items[..n] + [items[n]];
      FilterSnoc(items[..n], specialTags, true, items[n]);
      FilterSnoc(items[..n], specialTags, false, items[n]);
      if IsSpecial(items[n].tags, specialTags) then Lists(prev.specials + [items[n]], prev.regular)
      else Lists(prev.specials, prev.regular + [items[n]])
  }

  /** Each item lands in exactly one of the two lists: the special list
      exactly when its tags make it special. */
  lemma PartitionExclusive(items: seq<ListItem>, specialTags: seq<string>, x: ListItem)
    requires x in items
    ensures var l := Partition(items, specialTags);
            && (x in l.specials <==> IsSpecial(x.tags, specialTags))
            && (x in l.regular <==> !IsSpecial(x.tags, specialTags))
  {
  }

  /** The special list is empty exactly when no item is special. */
  lemma PartitionNoSpecials(items: seq<ListItem>, specialTags: seq<string>)
    ensures |Partition(items, specialTags).specials| == 0 <==>
            forall i :: 0 <= i < |items| ==> !IsSpecial(items[i].tags, specialTags)
  {
    var l := Partition(items, specialTags);
    if |l.specials| > 0 {
      assert l.specials[0] in l.specials;
    }
    if |l.specials| == 0 {
      forall i | 0 <= i < |items|
        ensures !IsSpecial(items[i].tags, specialTags)
      {
        assert items[i] in items;
      }
    }
  }

  /** `view.get(key, '')`. */
  function ViewField(view: map<string, string>, key: string): (v: string)
    ensures key in view ==> v == view[key]
    ensures key !in view ==> v == ""
  {
    if key in view then view[key] else ""
  }

  /** The synthetic special card built from the `special.view` configuration;
      `daysText` is the "days running" line, which depends on the clock. It
      has no link, so it is never the list item of an issue. */
  function FallbackItem(view: map<string, string>, daysText: string): (item: ListItem)
    ensures item.id == FallbackId && item.verticalTitle == "Special"
    ensures item.content.Panel? && |item.content.lines| == 4 && item.content.lines[2] == daysText
    ensures forall issue :: ItemOf(issue) != item
  {
    ListItem(
      FallbackId, "", "", [],
      Panel([ViewField(view, "RF_Information"), ViewField(view, "Copyright"), daysText, ViewField(view, "Others")]),
      "", "Special")
  }

  /** The special list once the fallback rule has run: when nothing is
      special and a non-empty view is configured, exactly one card is added. */
  function WithFallback(specials: seq<ListItem>, view: map<string, string>, daysText: string): (r: seq<ListItem>)
    ensures |specials| > 0 || |view| == 0 ==> r == specials
    ensures |specials| == 0 && |view| > 0 ==>
              && |r| == 1
              && r[0].id == FallbackId
              && r[0].content.Panel? && |r[0].content.lines| == 4
              && r[0].content.lines[2] == daysText
              && r[0].content.lines[0] == ViewField(view, "RF_Information")
              && r[0].content.lines[1] == ViewField(view, "Copyright")
              && r[0].content.lines[3] == ViewField(view, "Others")
  {
    if |specials| == 0 && |view| > 0 then [FallbackItem(view, daysText)] else specials
  }

  /** Newest first: no item is dated after an item before it. */
  predicate SortedByDateDesc(s: seq<ListItem>) {
    forall i, j :: 0 <= i < j < |s| ==> LexLe(s[j].date, s[i].date)
  }

  /** The items of `s` dated `d`, in order. */
  function WithDate(s: seq<ListItem>, d: string): seq<ListItem> {
    if |s| == 0 then []
    else (if s[0].date == d then [s[0]] else []) + WithDate(s[1..], d)
  }

  /** Places `x` before the first item not dated after it, so `x` goes ahead
      of the items sharing its date. */
  function InsertByDate(x: ListItem, s: seq<ListItem>): (r: seq<ListItem>)
    ensures multiset(r) == multiset(s) + multiset{x}
  {
    if |s| == 0 then [x]
    else if LexLe(s[0].date, x.date) then
      assert [x] + s == [x] + s[..0] + s;
      [x] + s
    else
      assert s == [s[0]] + s[1..];
      [s[0]] + InsertByDate(x, s[1..])
  }

  /** Inserting into a list sorted newest first keeps it sorted. */
  lemma {:induction false} InsertByDateSorted(x: ListItem, s: seq<ListItem>)
    requires SortedByDateDesc(s)
    ensures SortedByDateDesc(InsertByDate(x, s))
  {
    var r := InsertByDate(x, s);
    if |s| == 0 {
    } else if LexLe(s[0].date, x.date) {
      assert r[1..] == s;
      forall j | 0 < j < |r|
        ensures LexLe(r[j].date, x.date)
      {
        if j > 1 {
          LexLeTransitive(s[j - 1].date, s[0].date, x.date);
        }
      }
    } else {
      assert SortedByDateDesc(s[1..]);
      InsertByDateSorted(x, s[1..]);
      InsertBelowHead(x, s);
    }
  }

  /** When `x` goes below the head of a sorted list, the head stays in front
      of a sorted remainder no item of which is dated after it. */
  lemma InsertBelowHead(x: ListItem, s: seq<ListItem>)
    requires |s| > 0 && !LexLe(s[0].date, x.date)
    requires SortedByDateDesc(s) && SortedByDateDesc(InsertByDate(x, s[1..]))
    ensures SortedByDateDesc(InsertByDate(x, s))
  {
    var rest := InsertByDate(x, s[1..]);
    assert InsertByDate(x, s) == [s[0]] + rest;
    RestBelowHead(x, s);
    ConsSorted(s[0], rest);
  }

  /** A sorted list stays sorted under a head dated no earlier than any of
      its items. */
  lemma ConsSorted(h: ListItem, rest: seq<ListItem>)
    requires SortedByDateDesc(rest)
    requires forall j :: 0 <= j < |rest| ==> LexLe(rest[j].date, h.date)
    ensures SortedByDateDesc([h] + rest)
  {
    var r := [h] + rest;
    forall i, j | 0 <= i < j < |r|
      ensures LexLe(r[j].date, r[i].date)
    {
      if i > 0 {
        assert r[i] == rest[i - 1] && r[j] == rest[j - 1];
      } else {
        assert r[j] == rest[j - 1];
      }
    }
  }

  /** No item of the remainder an item goes into is dated after the head
      that stays in front of it. */
  lemma RestBelowHead(x: ListItem, s: seq<ListItem>)
    requires |s| > 0 && !LexLe(s[0].date, x.date)
    requires SortedByDateDesc(s)
    ensures forall j :: 0 <= j < |InsertByDate(x, s[1..])| ==> LexLe(InsertByDate(x, s[1..])[j].date, s[0].date)
  {
    var rest := InsertByDate(x, s[1..]);
    LexLeTotal(s[0].date, x.date);
    forall j | 0 <= j < |rest|
      ensures LexLe(rest[j].date, s[0].date)
    {
      assert rest[j] in multiset(rest);
      if rest[j] != x {
        assert rest[j] in multiset(s[1..]);
        var k :| 0 <= k < |s[1..]| && s[1..][k] == rest[j];
        assert s[k + 1] == rest[j];
      }
    }
  }

  /** Filtering by date distributes over putting an item in front. */
  lemma WithDateCons(a: ListItem, s: seq<ListItem>, d: string)
    ensures WithDate([a] + s, d) == (if a.date == d then [a] else []) + WithDate(s, d)
  {
    assert ([a] + s)[1..] == s;
  }

  /** The inserted item goes ahead of every item sharing its date, and the
      items of any other date are untouched. */
  lemma {:induction false} InsertByDateWithDate(x: ListItem, s: seq<ListItem>, d: string)
    ensures WithDate(InsertByDate(x, s), d) == (if x.date == d then [x] else []) + WithDate(s, d)
  {
    if |s| == 0 {
      WithDateCons(x, [], d);
      assert [x] + [] == [x];
    } else if LexLe(s[0].date, x.date) {
      WithDateCons(x, s, d);
    } else {
      InsertByDateWithDate(x, s[1..], d);
      InsertBelowWithDate(x, s, d);
    }
  }

  /** The step of `InsertByDateWithDate` where `x` goes below the head: the
      head and `x` never share the date `d`, so their order among the items
      of date `d` does not arise. */
  lemma InsertBelowWithDate(x: ListItem, s: seq<ListItem>, d: string)
    requires |s| > 0 && !LexLe(s[0].date, x.date)
    requires WithDate(InsertByDate(x, s[1..]), d) == (if x.date == d then [x] else []) + WithDate(s[1..], d)
    ensures WithDate(InsertByDate(x, s), d) == (if x.date == d then [x] else []) + WithDate(s, d)
  {
    var rest := InsertByDate(x, s[1..]);
    assert InsertByDate(x, s) == [s[0]] + rest;
    LexLeReflexive(x.date);
    SwapUnshared(s[0], x, rest, s[1..], d);
    assert [s[0]] + s[1..] == s;
  }

  /** Putting `a` in front commutes with putting `x` in front among the
      items of date `d` when `a` and `x` do not both have that date. */
  lemma SwapUnshared(a: ListItem, x: ListItem, rest: seq<ListItem>, tail: seq<ListItem>, d: string)
    requires a.date != d || x.date != d
    requires WithDate(rest, d) == (if x.date == d then [x] else []) + WithDate(tail, d)
    ensures WithDate([a] + rest, d) == (if x.date == d then [x] else []) + WithDate([a] + tail, d)
  {
    WithDateCons(a, rest, d);
    WithDateCons(a, tail, d);
    var head := if a.date == d then [a] else [];
    var ins := if x.date == d then [x] else [];
    assert head + (ins + WithDate(tail, d)) == ins + (head + WithDate(tail, d));
  }

  /** One insertion step of the sort keeps, for every date, the items of
      that date in the order `[x] + rest` lists them. */
  lemma InsertKeepsDateOrder(x: ListItem, rest: seq<ListItem>, sorted: seq<ListItem>)
    requires forall d :: WithDate(sorted, d) == WithDate(rest, d)
    ensures forall d :: WithDate(InsertByDate(x, sorted), d) == WithDate([x] + rest, d)
  {
    forall d
      ensures WithDate(InsertByDate(x, sorted), d) == WithDate([x] + rest, d)
    {
      InsertByDateWithDate(x, sorted, d);
      WithDateCons(x, rest, d);
    }
  }

  /** `all_articles.sort(key=date, reverse=True)`: Python's stable sort, so
      the result is a permutation, newest first, and items sharing a date
      keep the order they were listed in. */
  function SortByDateDesc(xs: seq<ListItem>): (r: seq<ListItem>)
    ensures multiset(r) == multiset(xs)
    ensures SortedByDateDesc(r)
    ensures forall d :: WithDate(r, d) == WithDate(xs, d)
  {
    if |xs| == 0 then []
    else
      var sorted := SortByDateDesc(xs[1..]);
      var r := InsertByDate(xs[0], sorted);
      InsertByDateSorted(xs[0], sorted);
      assert xs == [xs[0]] + xs[1..];
      InsertKeepsDateOrder(xs[0], xs[1..], sorted);
      r
  }
}
