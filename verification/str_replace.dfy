/** Rust's `str::replace`, which the redirect rewrite applies once per configured
    (pattern, substitute) pair. A Rust `str` is modelled as its sequence of Unicode
    scalar values, so a char boundary of the Rust string is a position of the sequence.

    `str::replace` walks the matches that `match_indices` yields: for a non-empty
    pattern these are the leftmost non-overlapping occurrences, scanning left to
    right and resuming after each match; for the empty pattern they are every char
    boundary, from the start of the string to its end inclusive. */
module StrReplace {

  /** `pat` occurs in `s` starting at position `i`, compared character by
      character (`MatchesAtSlice` gives the equivalent slice form). */
  predicate MatchesAt(s: string, pat: string, i: nat) {
    i + |pat| <= |s| && AgreeFrom(s, pat, i, 0)
  }

  /** `pat[m..]` agrees with `s` from position `i + m` on. */
  predicate AgreeFrom(s: string, pat: string, i: nat, m: nat)
    requires i + |pat| <= |s|
    decreases |pat| - m
  {
    m >= |pat| || (s[i + m] == pat[m] && AgreeFrom(s, pat, i, m + 1))
  }

  /** `pat` occurs somewhere in `s` (the empty pattern occurs in every string). */
  ghost predicate Occurs(s: string, pat: string) {
    exists i: nat :: MatchesAt(s, pat, i)
  }

  /** No occurrence of `pat` starts in `s` at a position in `[lo, hi)`. */
  ghost predicate NoMatchBetween(s: string, pat: string, lo: nat, hi: nat) {
    forall j: nat :: lo <= j < hi ==> !MatchesAt(s, pat, j)
  }

  /** `i` is the leftmost position at which `pat` occurs in `s`. */
  ghost predicate IsFirstMatch(s: string, pat: string, i: nat) {
    MatchesAt(s, pat, i) && NoMatchBetween(s, pat, 0, i)
  }

  /** No occurrence of `pat` starts in `s` at a position in `[lo, hi)`, checked
      position by position, so that it can be evaluated on given strings. */
  predicate NoMatchFrom(s: string, pat: string, lo: nat, hi: nat)
    decreases hi - lo
  {
    lo >= hi || (!MatchesAt(s, pat, lo) && NoMatchFrom(s, pat, lo + 1, hi))
  }

  /** `s.replace(pat, sub)`. */
  function ReplaceAll(s: string, pat: string, sub: string): string {
    if |pat| == 0 then InsertAtBoundaries(s, sub) else ReplaceFrom(s, pat, sub, 0)
  }

  /** The empty pattern matches at every char boundary: `sub` is written before
      each character and once more at the end. */
  function InsertAtBoundaries(s: string, sub: string): string {
    if |s| == 0 then sub else sub + [s[0]] + InsertAtBoundaries(s[1..], sub)
  }

  /** The left-to-right scan for a non-empty pattern, from position `i` of `s` on:
      a match is replaced and the scan resumes after it, so matches never overlap. */
  function ReplaceFrom(s: string, pat: string, sub: string, i: nat): string
    requires |pat| > 0 && i <= |s|
    decreases |s| - i
  {
    if |s| < i + |pat| then s[i..]
    else if MatchesAt(s, pat, i) then sub + ReplaceFrom(s, pat, sub, i + |pat|)
    else [s[i]] + ReplaceFrom(s, pat, sub, i + 1)
  }

  // ---------------------------------------------------------------------------
  // Occurrences
  // ---------------------------------------------------------------------------

  lemma {:induction false} AgreeFromSlice(s: string, pat: string, i: nat, m: nat)
    requires i + |pat| <= |s| && m <= |pat|
    ensures AgreeFrom(s, pat, i, m) <==> s[i + m..i + |pat|] == pat[m..]
    decreases |pat| - m
  {
    if m < |pat| {
      AgreeFromSlice(s, pat, i, m + 1);
      assert s[i + m..i + |pat|] == [s[i + m]] + s[i + m + 1..i + |pat|];
      assert pat[m..] == [pat[m]] + pat[m + 1..];
    }
  }

  lemma MatchesAtSlice(s: string, pat: string, i: nat)
    ensures MatchesAt(s, pat, i) <==> i + |pat| <= |s| && s[i..i + |pat|] == pat
  {
    if i + |pat| <= |s| {
      AgreeFromSlice(s, pat, i, 0);
    }
  }

  lemma EmptyPatternOccurs(s: string, pat: string)
    requires |pat| == 0
    ensures Occurs(s, pat)
  {
    assert MatchesAt(s, pat, 0);
  }

  /** Below every occurrence there is a leftmost one. */
  lemma {:induction false} FirstMatchBelow(s: string, pat: string, i: nat)
    requires MatchesAt(s, pat, i)
    ensures exists k: nat :: k <= i && IsFirstMatch(s, pat, k)
    decreases i
  {
    if NoMatchBetween(s, pat, 0, i) {
      assert IsFirstMatch(s, pat, i);
    } else {
      var j: nat :| j < i && MatchesAt(s, pat, j);
      FirstMatchBelow(s, pat, j);
    }
  }

  /** The position-by-position check agrees with the quantified definition. */
  lemma {:induction false} NoMatchFromIff(s: string, pat: string, lo: nat, hi: nat)
    ensures NoMatchFrom(s, pat, lo, hi) <==> NoMatchBetween(s, pat, lo, hi)
    decreases hi - lo
  {
    if lo < hi {
      NoMatchFromIff(s, pat, lo + 1, hi);
    }
  }

  /** Matching inside a suffix is matching in the whole string, shifted. */
  lemma MatchesInSuffix(s: string, pat: string, j: nat, k: nat)
    requires j <= |s|
    ensures MatchesAt(s[j..], pat, k) <==> MatchesAt(s, pat, j + k)
  {
    MatchesAtSlice(s[j..], pat, k);
    MatchesAtSlice(s, pat, j + k);
    if j + k + |pat| <= |s| {
      assert s[j..][k..k + |pat|] == s[j + k..j + k + |pat|];
    }
  }

  // ---------------------------------------------------------------------------
  // Sequence algebra, kept out of the larger proofs
  // ---------------------------------------------------------------------------

  lemma Assoc(a: string, b: string, c: string)
    ensures a + (b + c) == a + b + c
  {}

  lemma ConsSlice(s: string, k: nat, i: nat, tail: string)
    requires k < i <= |s|
    ensures [s[k]] + (s[k + 1..i] + tail) == s[k..i] + tail
  {
    assert [s[k]] + s[k + 1..i] == s[k..i];
  }

  lemma SplitSuffix(s: string, k: nat, m: nat)
    requires k <= m <= |s|
    ensures s[k..m] + s[m..] == s[k..]
  {}

  lemma ConsSuffix(s: string, k: nat)
    requires k < |s|
    ensures [s[k]] + s[k + 1..] == s[k..]
  {}

  // ---------------------------------------------------------------------------
  // The scan, position by position
  // ---------------------------------------------------------------------------

  lemma ScanEnd(s: string, pat: string, sub: string, k: nat)
    requires |pat| > 0 && k <= |s| < k + |pat|
    ensures ReplaceFrom(s, pat, sub, k) == s[k..]
  {}

  /** A match at `k`: `sub`, then the scan from `next`, the end of the match. */
  lemma ScanTake(s: string, pat: string, sub: string, k: nat, next: nat)
    requires |pat| > 0 && MatchesAt(s, pat, k) && next == k + |pat|
    ensures ReplaceFrom(s, pat, sub, k) == sub + ReplaceFrom(s, pat, sub, next)
  {}

  /** No match at `k`: the character at `k`, then the scan from `next == k + 1`. */
  lemma ScanSkip(s: string, pat: string, sub: string, k: nat, next: nat)
    requires |pat| > 0 && k + |pat| <= |s| && !MatchesAt(s, pat, k) && next == k + 1
    ensures ReplaceFrom(s, pat, sub, k) == [s[k]] + ReplaceFrom(s, pat, sub, next)
  {}

  lemma {:induction false} ScanWithoutMatches(s: string, pat: string, sub: string, k: nat)
    requires |pat| > 0 && k <= |s| && NoMatchBetween(s, pat, k, |s| + 1)
    ensures ReplaceFrom(s, pat, sub, k) == s[k..]
    decreases |s| - k
  {
    if k + |pat| <= |s| {
      var next := k + 1;
      ScanSkip(s, pat, sub, k, next);
      ScanWithoutMatches(s, pat, sub, next);
      ConsSuffix(s, k);
    } else {
      ScanEnd(s, pat, sub, k);
    }
  }

  lemma {:induction false} ScanUpToMatch(s: string, pat: string, sub: string, k: nat, i: nat)
    requires |pat| > 0 && k <= i && MatchesAt(s, pat, i) && NoMatchBetween(s, pat, k, i)
    ensures ReplaceFrom(s, pat, sub, k) == s[k..i] + (sub + ReplaceFrom(s, pat, sub, i + |pat|))
    decreases i - k
  {
    if k == i {
      ScanTake(s, pat, sub, k, i + |pat|);
      assert s[k..i] == [];
    } else {
      var next := k + 1;
      ScanSkip(s, pat, sub, k, next);
      ScanUpToMatch(s, pat, sub, next, i);
      ConsSlice(s, k, i, sub + ReplaceFrom(s, pat, sub, i + |pat|));
    }
  }

  lemma {:induction false} ScanLength(s: string, pat: string, sub: string, k: nat)
    requires |pat| > 0 && k <= |s|
    ensures |sub| == |pat| ==> |ReplaceFrom(s, pat, sub, k)| == |s| - k
    ensures |sub| >= |pat| ==> |ReplaceFrom(s, pat, sub, k)| >= |s| - k
    ensures |sub| <= |pat| ==> |ReplaceFrom(s, pat, sub, k)| <= |s| - k
    decreases |s| - k
  {
    if k + |pat| > |s| {
      ScanEnd(s, pat, sub, k);
    } else if MatchesAt(s, pat, k) {
      var next := k + |pat|;
      ScanTake(s, pat, sub, k, next);
      ScanLength(s, pat, sub, next);
    } else {
      var next := k + 1;
      ScanSkip(s, pat, sub, k, next);
      ScanLength(s, pat, sub, next);
    }
  }

  lemma {:induction false} ScanSelf(s: string, pat: string, k: nat)
    requires |pat| > 0 && k <= |s|
    ensures ReplaceFrom(s, pat, pat, k) == s[k..]
    decreases |s| - k
  {
    if k + |pat| > |s| {
      ScanEnd(s, pat, pat, k);
    } else if MatchesAt(s, pat, k) {
      var next := k + |pat|;
      ScanTake(s, pat, pat, k, next);
      ScanSelf(s, pat, next);
      MatchesAtSlice(s, pat, k);
      SplitSuffix(s, k, next);
    } else {
      var next := k + 1;
      ScanSkip(s, pat, pat, k, next);
      ScanSelf(s, pat, next);
      ConsSuffix(s, k);
    }
  }

  /** Scanning `s` from `j + k` is scanning the suffix `s[j..]` from `k`. */
  lemma {:induction false} ScanInSuffix(s: string, pat: string, sub: string, j: nat, k: nat)
    requires |pat| > 0 && j + k <= |s|
    ensures ReplaceFrom(s, pat, sub, j + k) == ReplaceFrom(s[j..], pat, sub, k)
    decreases |s| - (j + k)
  {
    if j + k + |pat| > |s| {
      SuffixEndStep(s, pat, sub, j, k);
    } else if MatchesAt(s, pat, j + k) {
      var next := k + |pat|;
      ScanInSuffix(s, pat, sub, j, next);
      SuffixTakeStep(s, pat, sub, j, k, next);
    } else {
      var next := k + 1;
      ScanInSuffix(s, pat, sub, j, next);
      SuffixSkipStep(s, pat, sub, j, k, next);
    }
  }

  lemma SuffixEndStep(s: string, pat: string, sub: string, j: nat, k: nat)
    requires |pat| > 0 && j + k <= |s| < j + k + |pat|
    ensures ReplaceFrom(s, pat, sub, j + k) == ReplaceFrom(s[j..], pat, sub, k)
  {
    var t := s[j..];
    ScanEnd(s, pat, sub, j + k);
    ScanEnd(t, pat, sub, k);
    assert t[k..] == s[j + k..];
  }

  lemma SuffixTakeStep(s: string, pat: string, sub: string, j: nat, k: nat, next: nat)
    requires |pat| > 0 && MatchesAt(s, pat, j + k) && next == k + |pat|
    requires ReplaceFrom(s, pat, sub, j + next) == ReplaceFrom(s[j..], pat, sub, next)
    ensures ReplaceFrom(s, pat, sub, j + k) == ReplaceFrom(s[j..], pat, sub, k)
  {
    var t := s[j..];
    MatchesInSuffix(s, pat, j, k);
    ScanTake(s, pat, sub, j + k, j + next);
    ScanTake(t, pat, sub, k, next);
  }

  lemma SuffixSkipStep(s: string, pat: string, sub: string, j: nat, k: nat, next: nat)
    requires |pat| > 0 && j + k + |pat| <= |s| && !MatchesAt(s, pat, j + k) && next == k + 1
    requires ReplaceFrom(s, pat, sub, j + next) == ReplaceFrom(s[j..], pat, sub, next)
    ensures ReplaceFrom(s, pat, sub, j + k) == ReplaceFrom(s[j..], pat, sub, k)
  {
    var t := s[j..];
    MatchesInSuffix(s, pat, j, k);
    ScanSkip(s, pat, sub, j + k, j + next);
    ScanSkip(t, pat, sub, k, next);
    assert t[k] == s[j + k];
  }

  // ---------------------------------------------------------------------------
  // What `replace` computes
  // ---------------------------------------------------------------------------

  /** A pattern that does not occur leaves the string as it is. */
  lemma ReplaceAllNoMatch(s: string, pat: string, sub: string)
    requires !Occurs(s, pat)
    ensures ReplaceAll(s, pat, sub) == s
  {
    if |pat| == 0 {
      EmptyPatternOccurs(s, pat);
      assert false;
    }
    ScanWithoutMatches(s, pat, sub, 0);
  }

  /** The leftmost occurrence is replaced, the text before it is kept, and the
      scan carries on after the end of the occurrence. Together with
      `ReplaceAllNoMatch` this determines `replace` for every non-empty pattern. */
  lemma ReplaceAllAtFirstMatch(s: string, pat: string, sub: string, i: nat)
    requires |pat| > 0
    requires IsFirstMatch(s, pat, i)
    ensures ReplaceAll(s, pat, sub) == s[..i] + sub + ReplaceAll(s[i + |pat|..], pat, sub)
  {
    ScanUpToMatch(s, pat, sub, 0, i);
    ScanInSuffix(s, pat, sub, i + |pat|, 0);
    Assoc(s[..i], sub, ReplaceAll(s[i + |pat|..], pat, sub));
  }

  /** A pattern that occurs once only, between `pre` and `post`, is replaced
      there and nowhere else. */
  lemma ReplaceAllSingleOccurrence(pre: string, pat: string, post: string, sub: string)
    requires |pat| > 0
    requires NoMatchBetween(pre + pat + post, pat, 0, |pre|)
    requires NoMatchBetween(pre + pat + post, pat, |pre| + |pat|, |pre| + |pat| + |post| + 1)
    ensures ReplaceAll(pre + pat + post, pat, sub) == pre + sub + post
  {
    var s := pre + pat + post;
    var i, next := |pre|, |pre| + |pat|;
    assert s[i..next] == pat;
    MatchesAtSlice(s, pat, i);
    ScanUpToMatch(s, pat, sub, 0, i);
    ScanWithoutMatches(s, pat, sub, next);
    assert s[0..i] == pre;
    assert s[next..] == post;
    Assoc(pre, sub, post);
  }

  /** How the length changes: not at all when `sub` is as long as `pat`, never
      shrinking when it is longer and never growing when it is shorter. */
  lemma ReplaceAllLength(s: string, pat: string, sub: string)
    requires |pat| > 0
    ensures |sub| == |pat| ==> |ReplaceAll(s, pat, sub)| == |s|
    ensures |sub| >= |pat| ==> |ReplaceAll(s, pat, sub)| >= |s|
    ensures |sub| <= |pat| ==> |ReplaceAll(s, pat, sub)| <= |s|
  {
    ScanLength(s, pat, sub, 0);
  }

  /** The empty pattern adds one copy of `sub` per char boundary. */
  lemma {:induction false} InsertAtBoundariesLength(s: string, sub: string)
    ensures |ReplaceAll(s, [], sub)| == |s| + (|s| + 1) * |sub|
    decreases |s|
  {
    if |s| > 0 {
      InsertAtBoundariesLength(s[1..], sub);
    }
  }

  /** Replacing a pattern by itself changes nothing. */
  lemma ReplaceAllSelf(s: string, pat: string)
    ensures ReplaceAll(s, pat, pat) == s
  {
    if |pat| == 0 {
      InsertNothing(s, pat);
    } else {
      ScanSelf(s, pat, 0);
    }
  }

  lemma {:induction false} InsertNothing(s: string, sub: string)
    requires |sub| == 0
    ensures InsertAtBoundaries(s, sub) == s
    decreases |s|
  {
    if |s| > 0 {
      InsertNothing(s[1..], sub);
      assert [s[0]] + s[1..] == s;
    }
  }

  /** `replace` returns its input unchanged exactly when the pattern does not occur
      or is replaced by itself. For the empty pattern, which always occurs, this
      says the result is the input exactly when `sub` is empty. */
  lemma ReplaceAllUnchangedIff(s: string, pat: string, sub: string)
    ensures ReplaceAll(s, pat, sub) == s <==> (!Occurs(s, pat) || sub == pat)
  {
    if !Occurs(s, pat) {
      ReplaceAllNoMatch(s, pat, sub);
    } else if sub == pat {
      ReplaceAllSelf(s, pat);
    } else if |pat| == 0 {
      InsertAtBoundariesLength(s, sub);
    } else {
      var i: nat :| MatchesAt(s, pat, i);
      ReplaceAllChanges(s, pat, sub, i);
    }
  }

  /** A non-empty pattern that occurs anywhere, replaced by something else,
      changes the string. */
  lemma ReplaceAllChanges(s: string, pat: string, sub: string, j: nat)
    requires |pat| > 0 && MatchesAt(s, pat, j) && sub != pat
    ensures ReplaceAll(s, pat, sub) != s
  {
    FirstMatchBelow(s, pat, j);
    var i: nat :| i <= j && IsFirstMatch(s, pat, i);
    ChangesAtFirstMatch(s, pat, sub, i);
  }

  lemma ChangesAtFirstMatch(s: string, pat: string, sub: string, i: nat)
    requires |pat| > 0 && IsFirstMatch(s, pat, i) && sub != pat
    ensures ReplaceAll(s, pat, sub) != s
  {
    ScanUpToMatch(s, pat, sub, 0, i);
    Assoc(s[..i], sub, ReplaceFrom(s, pat, sub, i + |pat|));
    ScanLength(s, pat, sub, i + |pat|);
    assert s == s[..i] + pat + s[i + |pat|..] by {
      MatchesAtSlice(s, pat, i);
    }
    PiecesDiffer(s[..i], pat, sub, s[i + |pat|..], ReplaceFrom(s, pat, sub, i + |pat|));
  }

  /** `u + sub + r` and `u + pat + rest` differ when `sub != pat` and `r` is no
      shorter (no longer) than `rest` whenever `sub` is no shorter (no longer) than
      `pat`. */
  lemma PiecesDiffer(u: string, pat: string, sub: string, rest: string, r: string)
    requires sub != pat
    requires |sub| >= |pat| ==> |r| >= |rest|
    requires |sub| <= |pat| ==> |r| <= |rest|
    ensures u + sub + r != u + pat + rest
  {
    var x := sub + r;
    var y := pat + rest;
    if |sub| == |pat| {
      assert x[..|sub|] == sub;
      assert y[..|pat|] == pat;
    }
    assert x != y;
    assert (u + x)[|u|..] == x;
    assert (u + y)[|u|..] == y;
    assert u + sub + r == u + x;
    assert u + pat + rest == u + y;
  }

  /** Layout of the empty-pattern result: block `k` (counting from zero) is `sub`
      followed by the `k`-th character of `s`. */
  lemma {:induction false} InsertAtBoundariesBlock(s: string, sub: string, k: nat)
    requires k < |s|
    ensures k * (|sub| + 1) + |sub| < |ReplaceAll(s, [], sub)|
    ensures ReplaceAll(s, [], sub)[k * (|sub| + 1)..k * (|sub| + 1) + |sub|] == sub
    ensures ReplaceAll(s, [], sub)[k * (|sub| + 1) + |sub|] == s[k]
    decreases k
  {
    var w := |sub| + 1;
    var r := InsertAtBoundaries(s, sub);
    var t := InsertAtBoundaries(s[1..], sub);
    InsertAtBoundariesLength(s, sub);
    InsertAtBoundariesLength(s[1..], sub);
    assert r == sub + [s[0]] + t;
    if k > 0 {
      InsertAtBoundariesBlock(s[1..], sub, k - 1);
      assert k * w == (k - 1) * w + w;
      assert r[k * w..k * w + |sub|] == t[(k - 1) * w..(k - 1) * w + |sub|];
      assert r[k * w + |sub|] == t[(k - 1) * w + |sub|];
    }
  }

  /** The empty-pattern result ends with `sub`, written after the last character. */
  lemma {:induction false} InsertAtBoundariesEnd(s: string, sub: string)
    ensures |s| * (|sub| + 1) <= |ReplaceAll(s, [], sub)|
    ensures ReplaceAll(s, [], sub)[|s| * (|sub| + 1)..] == sub
    decreases |s|
  {
    InsertAtBoundariesLength(s, sub);
    if |s| > 0 {
      var w := |sub| + 1;
      var t := InsertAtBoundaries(s[1..], sub);
      InsertAtBoundariesEnd(s[1..], sub);
      InsertAtBoundariesLength(s[1..], sub);
      assert |s| * w == (|s| - 1) * w + w;
      assert InsertAtBoundaries(s, sub)[|s| * w..] == t[(|s| - 1) * w..];
    }
  }

  // ---------------------------------------------------------------------------
  // The scan as the standard library writes it
  // ---------------------------------------------------------------------------

  /** `str::replace` as an imperative loop over the match positions: copy the text
      between the end of the previous match and the start of the next one, then
      `sub`; finally copy the text after the last match. */
  method ReplaceByScan(s: string, pat: string, sub: string) returns (r: string)
    ensures r == ReplaceAll(s, pat, sub)
  {
    if |pat| == 0 {
      r := ScanBoundaries(s, sub);
    } else {
      r := ScanMatches(s, pat, sub);
    }
  }

  /** The empty pattern: every char boundary 0, 1, ..., |s| is a match of length zero. */
  method ScanBoundaries(s: string, sub: string) returns (r: string)
    ensures r == ReplaceAll(s, [], sub)
  {
    r := [];
    var i := 0;
    while i < |s|
      invariant 0 <= i <= |s|
      invariant r + InsertAtBoundaries(s[i..], sub) == InsertAtBoundaries(s, sub)
    {
      BoundaryStep(s, sub, r, i);
      r := r + sub + [s[i]];
      i := i + 1;
    }
    r := r + sub;
  }

  /** One step of the empty-pattern scan: `sub` and the character at `i` move
      from the pending rest to the output. */
  lemma BoundaryStep(s: string, sub: string, r: string, i: nat)
    requires i < |s|
    ensures r + InsertAtBoundaries(s[i..], sub)
         == (r + sub + [s[i]]) + InsertAtBoundaries(s[i + 1..], sub)
  {
    assert s[i..][1..] == s[i + 1..];
  }

  /** What the scan has established: the output so far, the pending unmatched
      text `s[lastEnd..i]` and the scan of the rest make up the result. */
  ghost predicate ScanInvariant(s: string, pat: string, sub: string, r: string, lastEnd: nat, i: nat)
    requires |pat| > 0
  {
    && lastEnd <= i <= |s|
    && r + s[lastEnd..i] + ReplaceFrom(s, pat, sub, i) == ReplaceFrom(s, pat, sub, 0)
  }

  lemma ScanTakeStep(s: string, pat: string, sub: string, r: string, lastEnd: nat, i: nat)
    requires |pat| > 0 && ScanInvariant(s, pat, sub, r, lastEnd, i) && MatchesAt(s, pat, i)
    ensures ScanInvariant(s, pat, sub, r + s[lastEnd..i] + sub, i + |pat|, i + |pat|)
  {
    var j := i + |pat|;
    var tail := ReplaceFrom(s, pat, sub, j);
    assert ReplaceFrom(s, pat, sub, i) == sub + tail;
    assert s[j..j] == [];
  }

  lemma ScanSkipStep(s: string, pat: string, sub: string, r: string, lastEnd: nat, i: nat)
    requires |pat| > 0 && ScanInvariant(s, pat, sub, r, lastEnd, i)
    requires i + |pat| <= |s| && !MatchesAt(s, pat, i)
    ensures ScanInvariant(s, pat, sub, r, lastEnd, i + 1)
  {
    var tail := ReplaceFrom(s, pat, sub, i + 1);
    assert ReplaceFrom(s, pat, sub, i) == [s[i]] + tail;
    assert s[lastEnd..i + 1] == s[lastEnd..i] + [s[i]];
  }

  lemma ScanFinish(s: string, pat: string, sub: string, r: string, lastEnd: nat, i: nat)
    requires |pat| > 0 && ScanInvariant(s, pat, sub, r, lastEnd, i) && |s| < i + |pat|
    ensures r + s[lastEnd..] == ReplaceAll(s, pat, sub)
  {
    assert ReplaceFrom(s, pat, sub, i) == s[i..];
    assert s[lastEnd..i] + s[i..] == s[lastEnd..];
  }

  /** A non-empty pattern: look for a match at each position; on a match copy the
      pending text and `sub` and jump past the match. */
  method ScanMatches(s: string, pat: string, sub: string) returns (r: string)
    requires |pat| > 0
    ensures r == ReplaceAll(s, pat, sub)
  {
    r := [];
    var lastEnd: nat := 0;
    var i: nat := 0;
    assert s[0..0] == [];
    while i + |pat| <= |s|
      invariant ScanInvariant(s, pat, sub, r, lastEnd, i)
      decreases |s| - i
    {
      MatchesAtSlice(s, pat, i);
      if s[i..i + |pat|] == pat {
        ScanTakeStep(s, pat, sub, r, lastEnd, i);
        r := r + s[lastEnd..i] + sub;
        lastEnd := i + |pat|;
        i := i + |pat|;
      } else {
        ScanSkipStep(s, pat, sub, r, lastEnd, i);
        i := i + 1;
      }
    }
    ScanFinish(s, pat, sub, r, lastEnd, i);
    r := r + s[lastEnd..];
  }
}
