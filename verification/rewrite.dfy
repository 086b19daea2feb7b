/** The configured URL rewrite: the (pattern, substitute) pairs are applied one
    after another, each `replace` acting on the result of the previous one. */
module Rewrite {
  import opened StrReplace

  /** One configured rule: every occurrence of the first string is replaced by
      the second. */
  type Replacement = (string, string)

  /** Left fold of `replace` over the rules, in sequence order. */
  function ApplyReplacements(url: string, rules: seq<Replacement>): string
    decreases |rules|
  {
    if |rules| == 0 then url
    else ApplyReplacements(ReplaceAll(url, rules[0].0, rules[0].1), rules[1..])
  }

  /** Applying `a + b` is applying `a`, then `b` to what `a` produced. */
  lemma {:induction false} ApplyAppend(url: string, a: seq<Replacement>, b: seq<Replacement>)
    ensures ApplyReplacements(url, a + b) == ApplyReplacements(ApplyReplacements(url, a), b)
    decreases |a|
  {
    if |a| > 0 {
      assert (a + b)[0] == a[0];
      assert (a + b)[1..] == a[1..] + b;
      ApplyAppend(ReplaceAll(url, a[0].0, a[0].1), a[1..], b);
    } else {
      assert a + b == b;
    }
  }

  /** The last rule acts on the cumulative result of all the rules before it. */
  lemma ApplySnoc(url: string, rules: seq<Replacement>, last: Replacement)
    ensures ApplyReplacements(url, rules + [last])
         == ReplaceAll(ApplyReplacements(url, rules), last.0, last.1)
  {
    ApplyAppend(url, rules, [last]);
    assert [last][1..] == [];
  }

  /** No rules: the URL is left as it is. */
  lemma ApplyNone(url: string)
    ensures ApplyReplacements(url, []) == url
  {}

  /** Rules none of whose patterns occur in the URL leave it unchanged. */
  lemma {:induction false} ApplyWithoutOccurrences(url: string, rules: seq<Replacement>)
    requires forall k :: 0 <= k < |rules| ==> !Occurs(url, rules[k].0)
    ensures ApplyReplacements(url, rules) == url
    decreases |rules|
  {
    if |rules| > 0 {
      ReplaceAllNoMatch(url, rules[0].0, rules[0].1);
      ApplyWithoutOccurrences(url, rules[1..]);
    }
  }

  /** Rules that replace each pattern by itself leave the URL unchanged. */
  lemma {:induction false} ApplyIdentityRules(url: string, rules: seq<Replacement>)
    requires forall k :: 0 <= k < |rules| ==> rules[k].0 == rules[k].1
    ensures ApplyReplacements(url, rules) == url
    decreases |rules|
  {
    if |rules| > 0 {
      ReplaceAllSelf(url, rules[0].0);
      ApplyIdentityRules(url, rules[1..]);
    }
  }

  /** The order of the rules matters: with `a -> b` first, `b -> c` sees the `b`
      that the first rule wrote; in the other order it does not. */
  lemma ApplyOrderMatters()
    ensures ApplyReplacements("a", [("a", "b"), ("b", "c")]) == "c"
    ensures ApplyReplacements("a", [("b", "c"), ("a", "b")]) == "b"
  {
    SingleCharReplace('a', 'b');
    SingleCharReplace('b', 'c');
    SingleCharKeep('a', 'b', "c");
    SingleCharKeep('b', 'a', "b");
  }

  lemma SingleCharReplace(x: char, y: char)
    ensures ReplaceAll([x], [x], [y]) == [y]
  {
    assert MatchesAt([x], [x], 0);
    ScanTake([x], [x], [y], 0, 1);
    ScanEnd([x], [x], [y], 1);
  }

  lemma SingleCharKeep(x: char, p: char, sub: string)
    requires x != p
    ensures ReplaceAll([x], [p], sub) == [x]
  {
    assert !MatchesAt([x], [p], 0);
    ScanSkip([x], [p], sub, 0, 1);
    ScanEnd([x], [p], sub, 1);
  }
}
