/** Python's ordering of `str` values: lexicographic by code point, a proper
    prefix sorting first. (Dafny's own `<` on sequences means "proper prefix",
    so the order is defined here.) */
module StringOrder {

  /** Python `a <= b` on strings. */
  predicate LexLe(a: string, b: string) {
    if |a| == 0 then true
    else if |b| == 0 then false
    else if a[0] != b[0] then a[0] < b[0]
    else LexLe(a[1..], b[1..])
  }

  /** `a` and `b` agree before index `k`, where `a` has the smaller code point. */
  predicate SmallerAt(a: string, b: string, k: int) {
    0 <= k < |a| && k < |b| && a[..k] == b[..k] && a[k] < b[k]
  }

  /** A prefix sorts no later than the string it begins. */
  lemma {:induction false} PrefixLexLe(a: string, b: string)
    requires a <= b
    ensures LexLe(a, b)
  {
    if |a| > 0 {
      assert a[1..] <= b[1..];
      PrefixLexLe(a[1..], b[1..]);
    }
  }

  /** A smaller code point at the first difference sorts first. */
  lemma {:induction false} SmallerAtLexLe(a: string, b: string, k: int)
    requires SmallerAt(a, b, k)
    ensures LexLe(a, b)
    decreases k
  {
    if k > 0 {
      assert a[0] == a[..k][0] && b[0] == b[..k][0];
      assert a[1..][..k - 1] == a[..k][1..] && b[1..][..k - 1] == b[..k][1..];
      SmallerAtLexLe(a[1..], b[1..], k - 1);
    }
  }

  /** `a <= b` only when `a` is a prefix of `b` or smaller at their first
      difference. */
  lemma {:induction false} LexLeCases(a: string, b: string)
    requires LexLe(a, b)
    ensures a <= b || exists k :: SmallerAt(a, b, k)
  {
    if |a| == 0 {
    } else if a[0] != b[0] {
      assert SmallerAt(a, b, 0);
    } else {
      LexLeCases(a[1..], b[1..]);
      if a[1..] <= b[1..] {
        assert a == [a[0]] + a[1..] && b[..|a|] == [b[0]] + b[1..][..|a| - 1];
      } else {
        var k :| SmallerAt(a[1..], b[1..], k);
        assert a[..k + 1] == [a[0]] + a[1..][..k] && b[..k + 1] == [b[0]] + b[1..][..k];
        assert SmallerAt(a, b, k + 1);
      }
    }
  }

  /** `LexLe` is Python's comparison: `a <= b` exactly when `a` is a prefix
      of `b`, or at the first position where they differ `a` has the smaller
      code point. */
  lemma LexLeMeaning(a: string, b: string)
    ensures LexLe(a, b) <==> a <= b || exists k :: SmallerAt(a, b, k)
  {
    if LexLe(a, b) {
      LexLeCases(a, b);
    } else if a <= b {
      PrefixLexLe(a, b);
    } else if k :| SmallerAt(a, b, k) {
      SmallerAtLexLe(a, b, k);
    }
  }

  lemma {:induction false} LexLeReflexive(a: string)
    ensures LexLe(a, a)
  {
    if |a| > 0 {
      LexLeReflexive(a[1..]);
    }
  }

  lemma {:induction false} LexLeAntisymmetric(a: string, b: string)
    requires LexLe(a, b) && LexLe(b, a)
    ensures a == b
  {
    if |a| > 0 && |b| > 0 {
      LexLeAntisymmetric(a[1..], b[1..]);
      assert a == [a[0]] + a[1..] && b == [b[0]] + b[1..];
    }
  }

  lemma {:induction false} LexLeTransitive(a: string, b: string, c: string)
    requires LexLe(a, b) && LexLe(b, c)
    ensures LexLe(a, c)
  {
    if |a| > 0 && |b| > 0 && |c| > 0 && a[0] == b[0] && b[0] == c[0] {
      LexLeTransitive(a[1..], b[1..], c[1..]);
    }
  }

  lemma {:induction false} LexLeTotal(a: string, b: string)
    ensures LexLe(a, b) || LexLe(b, a)
  {
    if |a| > 0 && |b| > 0 && a[0] == b[0] {
      LexLeTotal(a[1..], b[1..]);
    }
  }
}
