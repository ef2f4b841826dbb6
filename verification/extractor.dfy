/** The metadata extractor: pulls the summary and the vertical title out of
    sentinel lines among the first five lines of an issue body, and returns
    the body without them. */
module Extractor {
  import opened Options
  import opened Text

  /** The summary used when the body carries none ("no summary yet"). */
  const DefaultSummary: string := "暂无简介"

  /** Metadata lines start with this, once stripped. */
  const Sentinel: string := "!vml-"

  /** Only this many leading lines are looked at. */
  const HeaderLines: nat := 5

  datatype Metadata = Metadata(summary: string, verticalTitle: string, body: string)

  /** The regular expression `<span[^>]*>(.*?)</span>` tried at index `i` of
      `s`: `[^>]*>` runs to the first `>` after `<span`, and the lazy group
      ends at the first `</span>` after that, provided no line feed comes
      first (`.` does not match a line feed). */
  function SpanAt(s: string, i: nat): (r: Option<string>)
    ensures r.Some? ==> OccursAt(s, "<span", i) && '\n' !in r.value
  {
    if !OccursAt(s, "<span", i) then None
    else match IndexFrom(s, ">", i + 5)
      case None => None
      case Some(g) =>
        match IndexFrom(s, "</span>", g + 1)
        case None => None
        case Some(e) => if '\n' in s[g + 1..e] then None else Some(s[g + 1..e])
  }

  /** The match at `i` spelled out: `[^>]*>` runs to the first `>` after
      the tag name, at `g`, and the lazy `(.*?)</span>` stops at the first
      `</span>` after it, at `e`. The group is what lies between, and there
      is no match when that holds a line break, since `.` stops there. */
  lemma SpanAtMeaning(s: string, i: nat, g: nat, e: nat)
    requires OccursAt(s, "<span", i)
    requires i + 5 <= g < |s| && s[g] == '>'
    requires forall m :: i + 5 <= m < g ==> s[m] != '>'
    requires g < e && OccursAt(s, "</span>", e)
    requires forall m :: g < m < e ==> !OccursAt(s, "</span>", m)
    ensures SpanAt(s, i) == (if '\n' in s[g + 1..e] then None else Some(s[g + 1..e]))
  {
    assert OccursAt(s, ">", g) by {
      assert s[g..g + 1] == [s[g]];
    }
    var a := IndexFrom(s, ">", i + 5);
    assert a.Some?;
    assert a.value == g by {
      assert s[a.value..a.value + 1][0] == s[a.value];
    }
    var b := IndexFrom(s, "</span>", g + 1);
    assert b.value == e;
  }

  /** No `>` after the tag name: no match at `i`. */
  lemma SpanAtUnterminatedTag(s: string, i: nat)
    requires OccursAt(s, "<span", i)
    requires forall m :: i + 5 <= m < |s| ==> s[m] != '>'
    ensures SpanAt(s, i).None?
  {
    forall m | i + 5 <= m
      ensures !OccursAt(s, ">", m)
    {
      if m + 1 <= |s| {
        assert s[m..m + 1][0] == s[m];
      }
    }
  }

  /** A tag whose first `>` at `g` is followed by no `</span>`: no match
      at `i`. */
  lemma SpanAtUnclosed(s: string, i: nat, g: nat)
    requires OccursAt(s, "<span", i)
    requires i + 5 <= g < |s| && s[g] == '>'
    requires forall m :: i + 5 <= m < g ==> s[m] != '>'
    requires forall m :: g < m ==> !OccursAt(s, "</span>", m)
    ensures SpanAt(s, i).None?
  {
    assert OccursAt(s, ">", g) by {
      assert s[g..g + 1] == [s[g]];
    }
    var a := IndexFrom(s, ">", i + 5);
    assert a.Some?;
    assert a.value == g by {
      assert s[a.value..a.value + 1][0] == s[a.value];
    }
  }

  /** Python `re.search`: the match at the leftmost start index at or after `i`. */
  function SearchSpan(s: string, i: nat): (r: Option<string>)
    ensures r.Some? ==> Contains(s, "<span") && '\n' !in r.value
    decreases |s| - i
  {
    if i + 5 > |s| then None
    else
      match SpanAt(s, i)
      case Some(c) => Some(c)
      case None => SearchSpan(s, i + 1)
  }

  /** The group captured by the first `<span…>…</span>` of `s`, if any. */
  function SpanMatch(s: string): (r: Option<string>)
    ensures !Contains(s, "<span") ==> r.None?
  {
    SearchSpan(s, 0)
  }

  /** A match at `i` starts with `<span` there, and its group sits between a
      `>` and a `</span>` with no line feed in it. */
  lemma SpanAtSound(s: string, i: nat)
    ensures SpanAt(s, i).Some? ==> OccursAt(s, "<span", i)
    ensures SpanAt(s, i).Some? ==> '\n' !in SpanAt(s, i).value
    ensures SpanAt(s, i).Some? ==>
              exists g :: OccursAt(s, ">" + SpanAt(s, i).value + "</span>", g)
  {
    if SpanAt(s, i).Some? {
      var g := IndexFrom(s, ">", i + 5).value;
      var e := IndexFrom(s, "</span>", g + 1).value;
      var c := s[g + 1..e];
      assert SpanAt(s, i) == Some(c);
      assert s[g..g + 1] == ">";
      assert s[e..e + 7] == "</span>";
      assert g + |c| + 8 == e + 7;
      assert s[g..e + 7] == s[g..g + 1] + c + s[e..e + 7] by {
        assert s[g..e + 7] == s[g..g + 1] + s[g + 1..e + 7];
        assert s[g + 1..e + 7] == c + s[e..e + 7];
      }
      assert OccursAt(s, ">" + c + "</span>", g);
    }
  }

  /** The search finds a match at some start index at or after `i`, or there
      is none at any. */
  lemma {:induction false} SearchSpanSound(s: string, i: nat)
    ensures SearchSpan(s, i).Some? ==> exists k :: i <= k && SpanAt(s, k) == SearchSpan(s, i)
    ensures SearchSpan(s, i).None? ==> forall k :: i <= k ==> SpanAt(s, k).None?
    decreases |s| - i
  {
    if i + 5 > |s| {
      forall k | i <= k
        ensures SpanAt(s, k).None?
      {
        assert |"<span"| == 5;
      }
    } else if SpanAt(s, i).None? {
      SearchSpanSound(s, i + 1);
    }
  }

  /** The search returns the match at the leftmost start index that has one. */
  lemma {:induction false} SearchSpanLeftmost(s: string, i: nat, j: nat)
    requires i <= j && SpanAt(s, j).Some?
    requires forall k :: i <= k < j ==> SpanAt(s, k).None?
    ensures SearchSpan(s, i) == SpanAt(s, j)
    decreases j - i
  {
    SpanAtSound(s, j);
    if i < j {
      SearchSpanLeftmost(s, i + 1, j);
    }
  }

  /** A line of the plain form `pre<span>c</span>post`, with no `<` before
      the span or inside it, yields `c`. */
  lemma SpanMatchPlain(pre: string, c: string, post: string)
    requires '<' !in pre && '<' !in c && '\n' !in c
    ensures SpanMatch(pre + "<span>" + c + "</span>" + post) == Some(c)
  {
    var s := pre + "<span>" + c + "</span>" + post;
    var p := |pre|;
    var e := p + 6 + |c|;
    forall k | 0 <= k < p
      ensures SpanAt(s, k).None?
    {
      assert s[k] == pre[k];
      assert !OccursAt(s, "<span", k);
    }
    assert s[p..p + 5] == "<span";
    assert s[p + 5] == '>';
    forall k | p + 6 <= k < e
      ensures !OccursAt(s, "</span>", k)
    {
      assert s[k] == c[k - p - 6];
      if k + 7 <= |s| {
        assert s[k..k + 7][0] == s[k];
      }
    }
    assert s[e..e + 7] == "</span>";
    assert s[p + 6..e] == c;
    SpanAtMeaning(s, p, p + 5, e);
    SearchSpanLeftmost(s, 0, p);
  }

  /** What the regular-expression search promises: a match needs `<span`
      in the line, and the group is text found between `>` and `</span>`. */
  lemma SpanMatchSound(s: string)
    ensures SpanMatch(s).Some? ==> Contains(s, "<span") && '\n' !in SpanMatch(s).value
    ensures SpanMatch(s).Some? ==> Contains(s, ">" + SpanMatch(s).value + "</span>")
    ensures !Contains(s, "<span") ==> SpanMatch(s).None?
  {
    SearchSpanSound(s, 0);
    if SpanMatch(s).Some? {
      var k :| 0 <= k && SpanAt(s, k) == SpanMatch(s);
      SpanAtSound(s, k);
    }
  }

  /** What one header line contributes. */
  datatype LineKind =
    | SummaryLine(text: string)
    | TitleLine(text: string)
    | OtherMetaLine
    | BodyLine

  /** A line is metadata when, stripped, it starts with the sentinel and
      contains a span; the keyword test looks at the whole stripped line. */
  function Classify(line: string): (k: LineKind) {
    var l := Strip(line);
    if !StartsWith(l, Sentinel) then BodyLine
    else match SpanMatch(l)
      case None => BodyLine
      case Some(c) =>
        if Contains(l, "summary") then SummaryLine(Strip(c))
        else if Contains(l, "title") then TitleLine(Strip(c))
        else OtherMetaLine
  }

  /** The line is removed from the body. */
  predicate IsMetaLine(line: string) {
    StartsWith(Strip(line), Sentinel) && SpanMatch(Strip(line)).Some?
  }

  /** A metadata line mentioning "summary" is a summary line; one that
      mentions "title" but not "summary" is a title line; either carries the
      stripped span content. */
  lemma ClassifyKeywords(line: string)
    ensures var k := Classify(line);
            && (k.SummaryLine? ==> Contains(Strip(line), "summary"))
            && (k.TitleLine? ==> !Contains(Strip(line), "summary") && Contains(Strip(line), "title"))
            && (k.OtherMetaLine? ==> !Contains(Strip(line), "summary") && !Contains(Strip(line), "title"))
            && ((k.SummaryLine? || k.TitleLine?) ==>
                  SpanMatch(Strip(line)).Some? && k.text == Strip(SpanMatch(Strip(line)).value))
  {
  }

  lemma ClassifyMeta(line: string)
    ensures !Classify(line).BodyLine? <==> IsMetaLine(line)
  {
  }

  /** The state of the header loop. */
  datatype Scan = Scan(summary: string, verticalTitle: string, metaIndices: set<nat>)

  /** The header loop over lines already classified: the index of every
      metadata line is recorded; a summary (title) line sets the summary
      (title). */
  function ScanKinds(kinds: seq<LineKind>): (sc: Scan)
    ensures forall i: int :: i in sc.metaIndices <==> 0 <= i < |kinds| && !kinds[i].BodyLine?
  {
    if |kinds| == 0 then Scan(DefaultSummary, "", {})
    else
      var n := |kinds| - 1;
      var sc := ScanKinds(kinds[..n]);
      match kinds[n]
      case BodyLine => sc
      case SummaryLine(c) => sc.(summary := c, metaIndices := sc.metaIndices + {n})
      case TitleLine(c) => sc.(verticalTitle := c, metaIndices := sc.metaIndices + {n})
      case OtherMetaLine => sc.(metaIndices := sc.metaIndices + {n})
  }

  /** Without a summary line the summary keeps its default. */
  lemma {:induction false} ScanSummaryDefault(kinds: seq<LineKind>)
    requires forall j :: 0 <= j < |kinds| ==> !kinds[j].SummaryLine?
    ensures ScanKinds(kinds).summary == DefaultSummary
  {
    if |kinds| > 0 {
      ScanSummaryDefault(kinds[..|kinds| - 1]);
    }
  }

  /** The last summary line decides the summary: later lines override
      earlier ones. */
  lemma {:induction false} ScanSummaryLast(kinds: seq<LineKind>, j: nat)
    requires j < |kinds| && kinds[j].SummaryLine?
    requires forall k :: j < k < |kinds| ==> !kinds[k].SummaryLine?
    ensures ScanKinds(kinds).summary == kinds[j].text
  {
    var n := |kinds| - 1;
    if j < n {
      ScanSummaryLast(kinds[..n], j);
    }
  }

  /** Without a title line the vertical title stays empty. */
  lemma {:induction false} ScanTitleDefault(kinds: seq<LineKind>)
    requires forall j :: 0 <= j < |kinds| ==> !kinds[j].TitleLine?
    ensures ScanKinds(kinds).verticalTitle == ""
  {
    if |kinds| > 0 {
      ScanTitleDefault(kinds[..|kinds| - 1]);
    }
  }

  /** The last title line decides the vertical title. */
  lemma {:induction false} ScanTitleLast(kinds: seq<LineKind>, j: nat)
    requires j < |kinds| && kinds[j].TitleLine?
    requires forall k :: j < k < |kinds| ==> !kinds[k].TitleLine?
    ensures ScanKinds(kinds).verticalTitle == kinds[j].text
  {
    var n := |kinds| - 1;
    if j < n {
      ScanTitleLast(kinds[..n], j);
    }
  }

  /** The removed indices below `n`. */
  function RemovedBelow(meta: set<nat>, n: nat): set<nat> {
    set i | i in meta && i < n
  }

  /** Python `[l for i, l in enumerate(lines) if i not in meta]`: exactly one
      line is dropped per removed index in range. */
  function KeepLines(lines: seq<string>, meta: set<nat>): (r: seq<string>)
    ensures |r| + |RemovedBelow(meta, |lines|)| == |lines|
    ensures (forall i :: i in meta ==> i >= |lines|) ==> r == lines
    ensures (exists i :: i in meta && i < |lines|) ==> |r| < |lines|
  {
    if |lines| == 0 then
      assert RemovedBelow(meta, 0) == {};
      []
    else
      var n := |lines| - 1;
      var prev := KeepLines(lines[..n], meta);
      assert lines[..n] + [lines[n]] == lines;
      assert RemovedBelow(meta, n + 1) == RemovedBelow(meta, n) + (if n in meta then {n} else {});
      assert n !in RemovedBelow(meta, n);
      if n in meta then prev else prev + [lines[n]]
  }

  /** The lines kept from any prefix are a prefix of the lines kept from
      the whole: kept lines stay in their original order. */
  lemma {:induction false} KeepLinesPrefix(lines: seq<string>, meta: set<nat>, k: nat)
    requires k <= |lines|
    ensures KeepLines(lines[..k], meta) <= KeepLines(lines, meta)
    decreases |lines|
  {
    if k < |lines| {
      var n := |lines| - 1;
      KeepLinesPrefix(lines[..n], meta, k);
      assert lines[..n][..k] == lines[..k];
    } else {
      assert lines[..k] == lines;
    }
  }

  /** A line that is not a metadata line lands right after the lines kept
      before it, so the kept lines are the input's in input order, repeated
      lines included. */
  lemma KeepLinesAt(lines: seq<string>, meta: set<nat>, k: nat)
    requires k < |lines| && k !in meta
    ensures |KeepLines(lines[..k], meta)| < |KeepLines(lines, meta)|
    ensures KeepLines(lines, meta)[|KeepLines(lines[..k], meta)|] == lines[k]
  {
    assert lines[..k + 1][..k] == lines[..k];
    KeepLinesPrefix(lines, meta, k + 1);
  }

  /** Every line whose index is not removed is kept, and nothing else
      appears. */
  lemma {:induction false} KeepLinesMembers(lines: seq<string>, meta: set<nat>)
    ensures forall i :: 0 <= i < |lines| && i !in meta ==> lines[i] in KeepLines(lines, meta)
    ensures forall x :: x in KeepLines(lines, meta) ==> x in lines
  {
    if |lines| > 0 {
      var n := |lines| - 1;
      KeepLinesMembers(lines[..n], meta);
      assert forall i :: 0 <= i < n ==> lines[..n][i] == lines[i];
    }
  }

  /** When every removed index is below `h`, the lines from `h` on are kept
      unchanged and in order. */
  lemma {:induction false} KeepLinesTail(lines: seq<string>, meta: set<nat>, h: nat)
    requires h <= |lines|
    requires forall i :: i in meta ==> i < h
    ensures KeepLines(lines, meta) == KeepLines(lines[..h], meta) + lines[h..]
    decreases |lines|
  {
    if |lines| > h {
      var n := |lines| - 1;
      var front := lines[..n];
      KeepLinesTail(front, meta, h);
      assert n !in meta;
      assert front[..h] == lines[..h];
      assert front[h..] + [lines[n]] == lines[h..];
    } else {
      assert lines[..h] == lines;
    }
  }

  /** The number of lines the header loop looks at: `min(len(lines), 5)`. */
  function HeaderCount(lines: seq<string>): (h: nat)
    ensures h <= |lines| && h <= HeaderLines
    ensures h == HeaderLines || h == |lines|
  {
    if |lines| < HeaderLines then |lines| else HeaderLines
  }

  /** The classification of each header line. */
  function HeaderKinds(lines: seq<string>): (kinds: seq<LineKind>)
    ensures |kinds| == HeaderCount(lines)
    ensures forall i :: 0 <= i < |kinds| ==> kinds[i] == Classify(lines[i])
  {
    seq(HeaderCount(lines), i requires 0 <= i < HeaderCount(lines) => Classify(lines[i]))
  }

  /** The header loop run over a whole body. */
  function ScanBody(body: string): Scan {
    ScanKinds(HeaderKinds(Split(body)))
  }

  /** `extract_metadata_and_body`. */
  function Extract(body: string): (m: Metadata)
    ensures body == "" ==> m == Metadata(DefaultSummary, "", "")
    ensures |m.body| == 0 || (!IsSpace(m.body[0]) && !IsSpace(m.body[|m.body| - 1]))
  {
    if body == "" then Metadata(DefaultSummary, "", "")
    else
      var sc := ScanBody(body);
      Metadata(sc.summary, sc.verticalTitle, Strip(Join(KeepLines(Split(body), sc.metaIndices))))
  }

  /** Only header lines are ever removed: a line among the first five goes
      exactly when it is a metadata line, and every later line stays, in
      order, in the returned body. */
  lemma ExtractRemovesOnlyHeader(body: string)
    requires body != ""
    ensures var lines := Split(body);
            var h := HeaderCount(lines);
            var meta := ScanBody(body).metaIndices;
            && (forall i: int :: i in meta <==> 0 <= i < h && IsMetaLine(lines[i]))
            && Extract(body).body == Strip(Join(KeepLines(lines[..h], meta) + lines[h..]))
  {
    var lines := Split(body);
    var h := HeaderCount(lines);
    var kinds := HeaderKinds(lines);
    var meta := ScanBody(body).metaIndices;
    forall i: int
      ensures i in meta <==> 0 <= i < h && IsMetaLine(lines[i])
    {
      if 0 <= i < h {
        ClassifyMeta(lines[i]);
      }
    }
    KeepLinesTail(lines, meta, h);
  }

  /** A sentinel line whose span cannot be matched is ordinary body text. */
  lemma UnparsedSentinelStays(body: string, i: nat)
    requires body != "" && i < |Split(body)|
    requires StartsWith(Strip(Split(body)[i]), Sentinel)
    requires SpanMatch(Strip(Split(body)[i])).None?
    ensures i !in ScanBody(body).metaIndices
    ensures Split(body)[i] in KeepLines(Split(body), ScanBody(body).metaIndices)
  {
    var lines := Split(body);
    if i < HeaderCount(lines) {
      ClassifyMeta(lines[i]);
    }
    KeepLinesMembers(lines, ScanBody(body).metaIndices);
  }

  /** The summary and the vertical title come from scanning the header lines. */
  lemma ExtractScan(body: string)
    requires body != ""
    ensures Extract(body).summary == ScanBody(body).summary
    ensures Extract(body).verticalTitle == ScanBody(body).verticalTitle
  {
  }

  /** Header lines without a summary line leave the summary at its default. */
  lemma HeaderNoSummary(lines: seq<string>)
    requires forall k :: 0 <= k < HeaderCount(lines) ==> !Classify(lines[k]).SummaryLine?
    ensures ScanKinds(HeaderKinds(lines)).summary == DefaultSummary
  {
    var kinds := HeaderKinds(lines);
    assert forall k :: 0 <= k < |kinds| ==> !kinds[k].SummaryLine?;
    ScanSummaryDefault(kinds);
  }

  /** Header lines without a title line leave the vertical title empty. */
  lemma HeaderNoTitle(lines: seq<string>)
    requires forall k :: 0 <= k < HeaderCount(lines) ==> !Classify(lines[k]).TitleLine?
    ensures ScanKinds(HeaderKinds(lines)).verticalTitle == ""
  {
    var kinds := HeaderKinds(lines);
    assert forall k :: 0 <= k < |kinds| ==> !kinds[k].TitleLine?;
    ScanTitleDefault(kinds);
  }

  /** Without a summary line among the header lines the summary is the default. */
  lemma ExtractSummaryDefault(body: string)
    requires body != ""
    ensures (forall k :: 0 <= k < HeaderCount(Split(body)) ==> !Classify(Split(body)[k]).SummaryLine?) ==>
              Extract(body).summary == DefaultSummary
  {
    if forall k :: 0 <= k < HeaderCount(Split(body)) ==> !Classify(Split(body)[k]).SummaryLine? {
      HeaderNoSummary(Split(body));
      ExtractScan(body);
    }
  }

  /** The summary is the content of the last summary line among the header lines. */
  lemma ExtractSummaryLast(body: string, j: nat)
    requires body != ""
    ensures (j < HeaderCount(Split(body)) && Classify(Split(body)[j]).SummaryLine? &&
             forall k :: j < k < HeaderCount(Split(body)) ==> !Classify(Split(body)[k]).SummaryLine?) ==>
              Extract(body).summary == Classify(Split(body)[j]).text
  {
    var kinds := HeaderKinds(Split(body));
    if j < |kinds| && kinds[j].SummaryLine? && forall k :: j < k < |kinds| ==> !kinds[k].SummaryLine? {
      ScanSummaryLast(kinds, j);
      ExtractScan(body);
    }
  }

  /** Without a title line among the header lines the vertical title is empty. */
  lemma ExtractTitleDefault(body: string)
    requires body != ""
    ensures (forall k :: 0 <= k < HeaderCount(Split(body)) ==> !Classify(Split(body)[k]).TitleLine?) ==>
              Extract(body).verticalTitle == ""
  {
    if forall k :: 0 <= k < HeaderCount(Split(body)) ==> !Classify(Split(body)[k]).TitleLine? {
      HeaderNoTitle(Split(body));
      ExtractScan(body);
    }
  }

  /** The vertical title is the content of the last title line among the header lines. */
  lemma ExtractTitleLast(body: string, j: nat)
    requires body != ""
    ensures (j < HeaderCount(Split(body)) && Classify(Split(body)[j]).TitleLine? &&
             forall k :: j < k < HeaderCount(Split(body)) ==> !Classify(Split(body)[k]).TitleLine?) ==>
              Extract(body).verticalTitle == Classify(Split(body)[j]).text
  {
    var kinds := HeaderKinds(Split(body));
    if j < |kinds| && kinds[j].TitleLine? && forall k :: j < k < |kinds| ==> !kinds[k].TitleLine? {
      ScanTitleLast(kinds, j);
      ExtractScan(body);
    }
  }
}
