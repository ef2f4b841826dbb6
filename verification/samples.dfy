/** Worked examples on concrete inputs: sentinel lines and how they are
    classified, the span match on a plain tag, the extraction from a
    three-line body, and the date order and sort of concrete items. */
module Samples {
  import opened Options
  import opened Text
  import opened StringOrder
  import opened Extractor
  import opened Listing

  /** A sentinel line of the plain form `pre<span>c</span>` is a metadata
      line, classified by the keywords it contains. */
  lemma ClassifyPlain(l: string, pre: string, c: string)
    requires StartsWith(pre, Sentinel) && '<' !in pre && '<' !in c && '\n' !in c
    requires l == pre + "<span>" + c + "</span>"
    ensures Classify(l) ==
              if Contains(l, "summary") then SummaryLine(Strip(c))
              else if Contains(l, "title") then TitleLine(Strip(c))
              else OtherMetaLine
  {
    assert l[0] == pre[0] == Sentinel[0] == '!';
    assert l[|l| - 1] == '>';
    StripUnchanged(l);
    assert l[..|Sentinel|] == pre[..|Sentinel|];
    SpanMatchPlain(pre, c, "");
    assert l + "" == l;
  }

  /** The word "summary" occurs inside the span of the first header line of
      the three-line example. */
  lemma ShortSummaryKeyword(s: string)
    requires s == "!vml-s<span>Short summary</span>"
    ensures Contains(s, "summary")
  {
    var a, b, d := "!vml-s<span>Short ", "summary", "</span>";
    assert s == a + b + d;
    assert (a + b + d)[18..25] == b;
    assert OccursAt(s, "summary", 18);
  }

  /** The first header line of the three-line example: the word "summary"
      occurs only inside the span, and that is enough. */
  lemma ClassifyShortSummary(s: string, c: string)
    requires s == "!vml-s<span>Short summary</span>" && c == "Short summary"
    ensures Classify(s) == SummaryLine(c)
  {
    ShortSummaryShape(s, "!vml-s", c);
    ClassifyPlain(s, "!vml-s", c);
    ShortSummaryKeyword(s);
    StripShortSummary(c);
  }

  /** The first header line of the three-line example has the plain form. */
  lemma ShortSummaryShape(s: string, pre: string, c: string)
    requires s == "!vml-s<span>Short summary</span>" && pre == "!vml-s" && c == "Short summary"
    ensures s == pre + "<span>" + c + "</span>"
    ensures StartsWith(pre, Sentinel) && '<' !in pre && '<' !in c && '\n' !in c
  {
  }

  /** The span content of the first header line has no surrounding spaces. */
  lemma StripShortSummary(c: string)
    requires c == "Short summary"
    ensures Strip(c) == c
  {
    assert !IsSpace(c[0]) && !IsSpace(c[|c| - 1]);
    StripUnchanged(c);
  }

  /** "summary" does not occur in the second header line of the three-line
      example: it has no `u`. */
  lemma MyTitleNoSummary(s: string)
    requires s == "!vml-t<span>My Title</span>"
    ensures !Contains(s, "summary")
  {
    assert "summary"[1] !in s;
    AbsentCharNotContained(s, "summary", 1);
  }

  /** "title" does not occur in the second header line of the three-line
      example: its only `i` follows a capital `T`. */
  lemma MyTitleNoTitle(s: string)
    requires s == "!vml-t<span>My Title</span>"
    ensures !Contains(s, "title")
  {
    var a, b := "!vml-t<span>My T", "itle</span>";
    assert s == a + b;
    assert 'i' !in a && a[15] == 'T' && 'i' !in b[1..];
    forall k
      ensures !OccursAt(s, "title", k)
    {
      if 0 <= k && k + 5 <= |s| {
        assert s[k..k + 5][0] == s[k] && s[k..k + 5][1] == s[k + 1];
        if k + 1 < 16 {
          assert s[k + 1] == a[k + 1];
        } else if k == 15 {
          assert s[k] == a[15];
        } else {
          assert s[k + 1] == b[1..][k - 16];
        }
      }
    }
  }

  /** The second header line of the three-line example: it is removed, but
      "Title" is not "title", so it sets nothing. */
  lemma ClassifyMyTitle(s: string)
    requires s == "!vml-t<span>My Title</span>"
    ensures Classify(s) == OtherMetaLine
  {
    var pre, c := "!vml-t", "My Title";
    assert s == pre + "<span>" + c + "</span>";
    assert '<' !in pre && '<' !in c && '\n' !in c;
    ClassifyPlain(s, pre, c);
    MyTitleNoSummary(s);
    MyTitleNoTitle(s);
  }

  /** A line without the sentinel is body text. */
  lemma ClassifyHelloWorld(s: string)
    requires s == "Hello world"
    ensures Classify(s) == BodyLine
  {
    assert !IsSpace(s[0]) && !IsSpace(s[|s| - 1]);
    StripUnchanged(s);
    assert !StartsWith(s, Sentinel);
  }

  /** The header loop classifies each of three lines. */
  lemma HeaderKindsThree(a: string, b: string, c: string)
    ensures HeaderKinds([a, b, c]) == [Classify(a), Classify(b), Classify(c)]
  {
  }

  /** Three lines joined by line feeds. */
  lemma JoinThree(a: string, b: string, c: string)
    ensures Join([a, b, c]) == a + "\n" + b + "\n" + c
  {
    assert [a, b, c][1..] == [b, c];
    assert [b, c][1..] == [c];
    assert Join([b, c]) == b + "\n" + c;
    assert Join([a, b, c]) == a + "\n" + (b + "\n" + c);
    assert a + "\n" + (b + "\n" + c) == a + "\n" + b + "\n" + c;
  }

  /** Three line-feed-free lines joined by line feeds split back into them. */
  lemma SplitThree(a: string, b: string, c: string)
    requires '\n' !in a && '\n' !in b && '\n' !in c
    ensures Split(a + "\n" + b + "\n" + c) == [a, b, c]
  {
    JoinThree(a, b, c);
    SplitJoin([a, b, c]);
  }

  /** The header loop over a summary line, another metadata line and a body
      line records the first two and takes the summary from the first. */
  lemma ScanSummaryOtherBody(summary: string)
    ensures ScanKinds([SummaryLine(summary), OtherMetaLine, BodyLine]) == Scan(summary, "", {0, 1})
  {
    var kinds := [SummaryLine(summary), OtherMetaLine, BodyLine];
    assert kinds[..2][..1] == [SummaryLine(summary)];
    assert kinds[..2][..1][..0] == [];
    assert kinds[..2] == [SummaryLine(summary), OtherMetaLine];
    assert ScanKinds(kinds[..2][..1]) == Scan(summary, "", {0});
    assert ScanKinds(kinds[..2]) == Scan(summary, "", {0, 1});
  }

  /** Removing the first two of three lines keeps the third. */
  lemma KeepThird(a: string, b: string, c: string)
    ensures KeepLines([a, b, c], {0, 1}) == [c]
  {
    var lines := [a, b, c];
    assert lines[..2] == [a, b] && lines[..2][..1] == [a] && lines[..2][..1][..0] == [];
    assert KeepLines(lines[..2], {0, 1}) == [];
  }

  /** The header loop over the three-line example: both sentinel lines are
      recorded, only the first sets anything, and the third line is kept. */
  lemma ScanThreeLineExample(l0: string, l1: string, l2: string, body: string, summary: string)
    requires l0 == "!vml-s<span>Short summary</span>"
    requires l1 == "!vml-t<span>My Title</span>"
    requires l2 == "Hello world"
    requires body == l0 + "\n" + l1 + "\n" + l2
    requires summary == "Short summary"
    ensures ScanBody(body) == Scan(summary, "", {0, 1})
    ensures KeepLines(Split(body), {0, 1}) == [l2]
  {
    assert '\n' !in l0 && '\n' !in l1 && '\n' !in l2;
    SplitThree(l0, l1, l2);
    HeaderKindsThree(l0, l1, l2);
    ClassifyShortSummary(l0, summary);
    ClassifyMyTitle(l1);
    ClassifyHelloWorld(l2);
    ScanSummaryOtherBody(summary);
    KeepThird(l0, l1, l2);
  }

  /** A three-line body: both sentinel lines are dropped and the summary is
      found, but the vertical title stays empty, because the keyword test is
      case-sensitive and the second line says "Title", not "title". */
  lemma ExtractThreeLineExample(l0: string, l1: string, l2: string, body: string, summary: string)
    requires l0 == "!vml-s<span>Short summary</span>"
    requires l1 == "!vml-t<span>My Title</span>"
    requires l2 == "Hello world"
    requires body == l0 + "\n" + l1 + "\n" + l2
    requires summary == "Short summary"
    ensures Extract(body) == Metadata(summary, "", l2)
  {
    ScanThreeLineExample(l0, l1, l2, body, summary);
    assert Join([l2]) == l2;
    assert !IsSpace(l2[0]) && !IsSpace(l2[|l2| - 1]);
    StripUnchanged(l2);
  }

  /** `YYYY-MM-DD` dates compare as strings in calendar order. */
  lemma DateOrderExample(earlier: string, later: string)
    requires earlier == "2024-01-02" && later == "2024-01-05"
    ensures LexLe(earlier, later) && !LexLe(later, earlier)
  {
    assert LexLe("2", "5") && !LexLe("5", "2");
    assert LexLe("02", "05") && !LexLe("05", "02");
    assert LexLe("-02", "-05") && !LexLe("-05", "-02");
    assert LexLe("1-02", "1-05") && !LexLe("1-05", "1-02");
    assert LexLe("01-02", "01-05") && !LexLe("01-05", "01-02");
    assert LexLe("-01-02", "-01-05") && !LexLe("-01-05", "-01-02");
    assert LexLe("4-01-02", "4-01-05") && !LexLe("4-01-05", "4-01-02");
    assert LexLe("24-01-02", "24-01-05") && !LexLe("24-01-05", "24-01-02");
    assert LexLe("024-01-02", "024-01-05") && !LexLe("024-01-05", "024-01-02");
  }

  /** An article dated after the one below it goes in front. */
  lemma SortTwoExample(b: ListItem, c: ListItem)
    requires b.date == "2024-01-05" && c.date == "2024-01-02"
    ensures SortByDateDesc([b, c]) == [b, c]
  {
    DateOrderExample(c.date, b.date);
    assert [b, c][1..] == [c] && [c][1..] == [];
    assert SortByDateDesc([c]) == [c];
    assert InsertByDate(b, [c]) == [b, c];
  }

  /** Newest first, and the two articles of the same day keep their order. */
  lemma SortExample(a: ListItem, b: ListItem, c: ListItem)
    requires a.date == "2024-01-02" && b.date == "2024-01-05" && c.date == "2024-01-02"
    ensures SortByDateDesc([a, b, c]) == [b, a, c]
  {
    LexLeReflexive(a.date);
    DateOrderExample(a.date, b.date);
    SortTwoExample(b, c);
    assert [a, b, c][1..] == [b, c];
    assert [b, c][1..] == [c];
    assert InsertByDate(a, [c]) == [a, c];
    assert InsertByDate(a, [b, c]) == [b] + InsertByDate(a, [c]);
  }
}
