/**
 * The names `internal_label` of m2c/flow_graph.py gives to generated labels: distinct labels get distinct
 * names, so looking labels up by name finds the right block.
 */
module LabelNames {
  import opened Decimals
  import opened DelaySlots

  const PREFIX := "._m2c_"

  const LIKELY_SKIP := "branchlikelyskip"

  /** The text of a label; `base` comes before what it is made for. */
  function Render(n: Name): string {
    match n
    case User(name) => name
    case SkipOf(base) => PREFIX + Render(base) + "skip"
    case LikelyOf(index, base) => PREFIX + Render(base) + LIKELY_SKIP + "_" + Decimal(index)
  }

  /** A label of the assembly; those that earlier passes made up end in "before". */
  predicate Plain(name: string) {
    PREFIX <= name ==> name[|name| - 1] == 'e'
  }

  /** A label of the assembly, or one generated from it. */
  predicate Known(n: Name) {
    match n
    case User(name) => Plain(name)
    case SkipOf(base) => base.User?
    case LikelyOf(_, base) => base.User?
  }

  /** The last separator splits a text in one way only. */
  lemma SplitAtLast(a: string, b: string, c: string, d: string, separator: char)
    requires a + [separator] + b == c + [separator] + d && separator !in b && separator !in d
    ensures a == c && b == d
  {
    var s := a + [separator] + b;
    assert s[|a|] == separator && s[|c|] == separator;
    assert forall k :: |a| < k < |s| ==> s[k] == b[k - |a| - 1] && s[k] in b;
    assert forall k :: |c| < k < |s| ==> s[k] == d[k - |c| - 1] && s[k] in d;
    assert a == s[..|a|] && c == s[..|c|];
    assert b == s[|a| + 1..] && d == s[|c| + 1..];
  }

  lemma LastOf(n: Name)
    requires Known(n)
    ensures n.SkipOf? ==> Render(n)[|Render(n)| - 1] == 'p' && PREFIX <= Render(n)
    ensures n.LikelyOf? ==> IsDigit(Render(n)[|Render(n)| - 1]) && PREFIX <= Render(n)
  {
    if n.LikelyOf? {
      var digits := Decimal(n.index);
      assert Render(n)[|Render(n)| - 1] == digits[|digits| - 1];
    }
  }

  /** Different labels have different names. */
  lemma NamesNeverCollide(m: Name, n: Name)
    requires Known(m) && Known(n) && Render(m) == Render(n)
    ensures m == n
  {
    LastOf(m);
    LastOf(n);
    if m.SkipOf? && n.SkipOf? {
      Cancel(Render(m.base), Render(n.base), "skip");
    } else if m.LikelyOf? && n.LikelyOf? {
      var a, c := PREFIX + Render(m.base) + LIKELY_SKIP, PREFIX + Render(n.base) + LIKELY_SKIP;
      SplitAtLast(a, Decimal(m.index), c, Decimal(n.index), '_');
      DecimalInjective(m.index, n.index);
      Cancel(Render(m.base), Render(n.base), LIKELY_SKIP);
    }
  }

  lemma Cancel(a: string, b: string, suffix: string)
    requires PREFIX + a + suffix == PREFIX + b + suffix
    ensures a == b
  {
    var s := PREFIX + a + suffix;
    assert a == s[|PREFIX|..|s| - |suffix|];
    assert b == s[|PREFIX|..|s| - |suffix|];
  }
}
