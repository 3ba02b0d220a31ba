/**
 Glob matching: what a pattern means, the greedy matcher both engines run, and how far the
 matcher is faithful to the meaning. A char stands for one byte.
 */
module Glob {

  // ----- what a pattern means

  /** pat[p..] matches s[i..]: '*' stands for any run of characters, '?' for any one of them. */
  predicate GlobAt(pat: string, p: nat, s: string, i: nat)
    requires p <= |pat| && i <= |s|
    decreases |pat| - p + |s| - i
  {
    if p == |pat| then i == |s|
    else if pat[p] == '*' then
      GlobAt(pat, p + 1, s, i) || (i < |s| && GlobAt(pat, p, s, i + 1))
    else
      i < |s| && (pat[p] == '?' || pat[p] == s[i]) && GlobAt(pat, p + 1, s, i + 1)
  }

  predicate Glob(pat: string, s: string) {
    GlobAt(pat, 0, s, 0)
  }

  /** cut divides s[cut[0]..] into one stretch for each character of pat[p..], each allowed there. */
  ghost predicate Division(pat: string, p: nat, s: string, cut: seq<nat>)
    requires p <= |pat|
  {
    && |cut| == |pat| - p + 1 && cut[|pat| - p] == |s|
    && forall k :: 0 <= k < |pat| - p ==> Stretch(pat[p + k], s, cut[k], cut[k + 1])
  }

  predicate Stretch(c: char, s: string, a: nat, b: nat) {
    a <= b <= |s| && (c != '*' ==> b == a + 1 && (c == '?' || c == s[a]))
  }

  lemma {:induction false} StarAbsorbs(pat: string, p: nat, s: string, i: nat, j: nat)
    requires p < |pat| && pat[p] == '*' && i <= j <= |s|
    requires GlobAt(pat, p + 1, s, j)
    ensures GlobAt(pat, p, s, i)
    decreases j - i
  {
    if i == j {
    } else {
      StarAbsorbs(pat, p, s, i + 1, j);
    }
  }

  lemma {:induction false} DivisionIsMatch(pat: string, p: nat, s: string, cut: seq<nat>)
    requires p <= |pat| && Division(pat, p, s, cut)
    ensures cut[0] <= |s| && GlobAt(pat, p, s, cut[0])
    decreases |pat| - p
  {
    if p == |pat| {
    } else {
      assert Stretch(pat[p + 0], s, cut[0], cut[1]);
      var rest := cut[1..];
      forall k | 0 <= k < |pat| - p - 1 ensures Stretch(pat[p + 1 + k], s, rest[k], rest[k + 1]) {
        assert pat[p + 1 + k] == pat[p + (k + 1)] && rest[k] == cut[k + 1] && rest[k + 1] == cut[k + 1 + 1];
      }
      DivisionIsMatch(pat, p + 1, s, rest);
      if pat[p] == '*' {
        StarAbsorbs(pat, p, s, cut[0], cut[1]);
      }
    }
  }

  lemma {:induction false} MatchHasDivision(pat: string, p: nat, s: string, i: nat) returns (cut: seq<nat>)
    requires p <= |pat| && i <= |s| && GlobAt(pat, p, s, i)
    ensures Division(pat, p, s, cut) && cut[0] == i
    decreases |pat| - p + |s| - i
  {
    if p == |pat| {
      cut := [i];
    } else if pat[p] == '*' && !GlobAt(pat, p + 1, s, i) {
      var longer := MatchHasDivision(pat, p, s, i + 1);
      cut := longer[0 := i];
      forall k | 0 <= k < |pat| - p ensures Stretch(pat[p + k], s, cut[k], cut[k + 1]) {
        assert Stretch(pat[p + k], s, longer[k], longer[k + 1]);
      }
    } else {
      var rest := MatchHasDivision(pat, p + 1, s, if pat[p] == '*' then i else i + 1);
      cut := [i] + rest;
      forall k | 0 <= k < |pat| - p ensures Stretch(pat[p + k], s, cut[k], cut[k + 1]) {
        if k > 0 {
          assert pat[p + 1 + (k - 1)] == pat[p + k];
          assert Stretch(pat[p + 1 + (k - 1)], s, rest[k - 1], rest[k - 1 + 1]);
        }
      }
    }
  }

  /** The recursive reading of a pattern and the division of the subject are the same relation. */
  lemma GlobIsDivision(pat: string, s: string)
    ensures Glob(pat, s) <==> exists cut: seq<nat> :: Division(pat, 0, s, cut) && cut[0] == 0
  {
    if Glob(pat, s) {
      var cut := MatchHasDivision(pat, 0, s, 0);
    }
    if cut: seq<nat> :| Division(pat, 0, s, cut) && cut[0] == 0 {
      DivisionIsMatch(pat, 0, s, cut);
    }
  }

  // ----- the greedy matcher

  predicate AllStars(pat: string, p: nat)
    requires p <= |pat|
  {
    forall k :: p <= k < |pat| ==> pat[k] == '*'
  }

  function SkipStars(pat: string, p: nat): (q: nat)
    requires p <= |pat|
    ensures p <= q <= |pat|
    ensures forall k :: p <= k < q ==> pat[k] == '*'
    ensures q < |pat| ==> pat[q] != '*'
    decreases |pat| - p
  {
    if p < |pat| && pat[p] == '*' then SkipStars(pat, p + 1) else p
  }

  /** The last star seen, as the position after it in the pattern and where its run started. */
  predicate StarSeen(pat: string, p: nat, s: string, i: nat, starPat: int, starStr: int) {
    p <= |pat| && i <= |s| &&
    ((starPat == -1 && starStr == -1) || (0 < starPat <= p && 0 <= starStr <= i))
  }

  /** What the matcher answers from a given state of its four variables. */
  predicate Greedy(pat: string, s: string, p: nat, i: nat, starPat: int, starStr: int)
    requires StarSeen(pat, p, s, i, starPat, starStr)
    decreases |s| - (if starStr == -1 then 0 else starStr), |pat| - p
  {
    if i == |s| then AllStars(pat, p)
    else if p < |pat| && (pat[p] == s[i] || pat[p] == '?') then
      Greedy(pat, s, p + 1, i + 1, starPat, starStr)
    else if p < |pat| && pat[p] == '*' then
      var q := SkipStars(pat, p);
      q == |pat| || Greedy(pat, s, q, i, q, i)
    else
      starPat != -1 && Greedy(pat, s, starPat, starStr + 1, starPat, starStr + 1)
  }

  predicate WildcardMatches(pat: string, s: string) {
    Greedy(pat, s, 0, 0, -1, -1)
  }

  /**
   The matcher of the Go engine, on indices. What it accepts is matched by the pattern, and all
   that is matched is accepted unless both texts hold a '*'. Its main loop takes at most
   (|s| + 1) * (|pattern| + 1) rounds.
   */
  method WildcardMatch(pattern: string, s: string) returns (r: bool, ghost rounds: nat)
    ensures r ==> Glob(pattern, s)
    ensures '*' !in pattern || '*' !in s ==> (r <==> Glob(pattern, s))
    ensures r == WildcardMatches(pattern, s)
    ensures rounds <= (|s| + 1) * (|pattern| + 1)
  {
    WildcardIsSound(pattern, s);
    if '*' !in pattern || '*' !in s {
      WildcardIsCorrect(pattern, s);
    }
    var starPat, starStr := -1, -1;
    var p, i := 0, 0;
    rounds := 0;
    ghost var width := |pattern| + 1;
    ghost var budget := |s| * width;
    while i < |s|
      invariant StarSeen(pattern, p, s, i, starPat, starStr)
      invariant Greedy(pattern, s, p, i, starPat, starStr) == WildcardMatches(pattern, s)
      invariant budget == (|s| - (if starStr == -1 then 0 else starStr)) * width
      invariant rounds + budget + |pattern| - p + 1 <= (|s| + 1) * width
      decreases |s| - (if starStr == -1 then 0 else starStr), |pattern| - p
    {
      rounds := rounds + 1;
      var before := p;
      if p < |pattern| && (pattern[p] == s[i] || pattern[p] == '?') {
        p := p + 1;
        i := i + 1;
        continue;
      }
      if p < |pattern| && pattern[p] == '*' {
        while p < |pattern| && pattern[p] == '*'
          invariant before <= p <= |pattern|
          invariant before == p ==> p < |pattern| && pattern[p] == '*'
          invariant SkipStars(pattern, p) == SkipStars(pattern, before)
        {
          p := p + 1;
        }
        if p == |pattern| {
          r := true;
          BudgetNonNegative(|s| - (if starStr == -1 then 0 else starStr), width);
          return;
        }
        assert starPat < p && starStr <= i;
        BudgetShrinks(|s| - (if starStr == -1 then 0 else starStr), |s| - i, width);
        starPat := p;
        starStr := i;
        budget := (|s| - i) * width;
        continue;
      }
      if starPat != -1 {
        BudgetStep(|s| - starStr, width);
        p := starPat;
        starStr := starStr + 1;
        i := starStr;
        budget := budget - width;
        continue;
      }
      BudgetNonNegative(|s| - (if starStr == -1 then 0 else starStr), width);
      return false, rounds;
    }
    BudgetNonNegative(|s| - (if starStr == -1 then 0 else starStr), width);
    var before := p;
    while p < |pattern| && pattern[p] == '*'
      invariant before <= p <= |pattern|
      invariant AllStars(pattern, p) == AllStars(pattern, before)
    {
      p := p + 1;
    }
    r := p == |pattern|;
  }

  lemma BudgetNonNegative(n: nat, width: nat)
    ensures n * width >= 0
  {
  }

  lemma BudgetStep(n: int, width: int)
    ensures (n - 1) * width == n * width - width
  {
  }

  lemma BudgetShrinks(n: nat, m: nat, width: nat)
    requires m <= n
    ensures m * width <= n * width
  {
  }

  // ----- soundness: a match is always a real one

  /** s[k..] or a later end of s matches pat[q..]. */
  predicate SomeSuffix(pat: string, q: nat, s: string, k: nat)
    requires q <= |pat|
  {
    exists j :: k <= j <= |s| && GlobAt(pat, q, s, j)
  }

  lemma {:induction false} StarRun(pat: string, p: nat, q: nat, s: string, i: nat)
    requires p < q <= |pat| && i <= |s|
    requires forall k :: p <= k < q ==> pat[k] == '*'
    ensures GlobAt(pat, p, s, i) <==> SomeSuffix(pat, q, s, i)
    decreases |pat| - p + |s| - i
  {
    if p + 1 < q {
      StarRun(pat, p + 1, q, s, i);
    }
    if i < |s| {
      StarRun(pat, p, q, s, i + 1);
    }
    if j :| i <= j <= |s| && GlobAt(pat, q, s, j) {
      assert j == i || SomeSuffix(pat, q, s, i + 1);
    }
  }

  lemma {:induction false} GreedyIsSound(pat: string, s: string, p: nat, i: nat, starPat: int, starStr: int)
    requires StarSeen(pat, p, s, i, starPat, starStr)
    requires Greedy(pat, s, p, i, starPat, starStr)
    ensures GlobAt(pat, p, s, i) || (starPat != -1 && SomeSuffix(pat, starPat, s, starStr + 1))
    decreases |s| - (if starStr == -1 then 0 else starStr), |pat| - p
  {
    if i == |s| {
      StarsMatchNothing(pat, p, s);
    } else if p < |pat| && (pat[p] == s[i] || pat[p] == '?') {
      GreedyIsSound(pat, s, p + 1, i + 1, starPat, starStr);
      if pat[p] == '*' && GlobAt(pat, p + 1, s, i + 1) {
        assert GlobAt(pat, p, s, i + 1);
      }
    } else if p < |pat| && pat[p] == '*' {
      var q := SkipStars(pat, p);
      StarRun(pat, p, q, s, i);
      if q == |pat| {
        assert GlobAt(pat, q, s, |s|);
      } else {
        GreedyIsSound(pat, s, q, i, q, i);
      }
    } else {
      GreedyIsSound(pat, s, starPat, starStr + 1, starPat, starStr + 1);
    }
  }

  lemma {:induction false} StarsMatchNothing(pat: string, p: nat, s: string)
    requires p <= |pat|
    ensures GlobAt(pat, p, s, |s|) == AllStars(pat, p)
    decreases |pat| - p
  {
    if p == |pat| {
    } else {
      StarsMatchNothing(pat, p + 1, s);
    }
  }

  /** Whatever the subject, an accepted one is matched by the pattern. */
  lemma WildcardIsSound(pat: string, s: string)
    ensures WildcardMatches(pat, s) ==> Glob(pat, s)
  {
    if WildcardMatches(pat, s) {
      GreedyIsSound(pat, s, 0, 0, -1, -1);
    }
  }

  // ----- completeness: greed never misses a match unless it eats a '*' of the subject

  /** No '*' of pat[q..] can be compared with a '*' of s. */
  predicate NoClash(pat: string, q: nat, s: string)
    requires q <= |pat|
  {
    '*' !in s || '*' !in pat[q..]
  }

  lemma {:induction false} FixedPart(pat: string, a: nat, b: nat, s: string, i: nat)
    requires a <= b <= |pat| && i <= |s| && GlobAt(pat, a, s, i)
    requires forall k :: a <= k < b ==> pat[k] != '*'
    ensures b - a <= |s| - i && GlobAt(pat, b, s, i + b - a)
    decreases b - a
  {
    if a == b {
    } else {
      FixedPart(pat, a + 1, b, s, i + 1);
    }
  }

  /**
   The greedy choice: between two stars the pattern has a fixed length, so the first place
   where that part fits leaves at least as much of the subject as any later one.
   */
  lemma EarliestFitIsBest(pat: string, s: string, p: nat, i: nat, starPat: nat, starStr: nat, q: nat)
    requires starPat <= p < q <= |pat| && starStr <= i <= |s| && p - starPat == i - starStr
    requires forall k :: starPat <= k < p ==> pat[k] != '*'
    requires forall k :: p <= k < q ==> pat[k] == '*'
    requires SomeSuffix(pat, starPat, s, starStr + 1)
    ensures SomeSuffix(pat, q, s, i)
  {
    var j :| starStr + 1 <= j <= |s| && GlobAt(pat, starPat, s, j);
    FixedPart(pat, starPat, p, s, j);
    StarRun(pat, p, q, s, j + p - starPat);
  }

  lemma {:induction false} GreedyIsComplete(pat: string, s: string, p: nat, i: nat, starPat: int, starStr: int)
    requires StarSeen(pat, p, s, i, starPat, starStr)
    requires starPat != -1 ==> p - starPat == i - starStr && forall k :: starPat <= k < p ==> pat[k] != '*'
    requires NoClash(pat, if starPat == -1 then p else starPat, s)
    requires GlobAt(pat, p, s, i) || (starPat != -1 && SomeSuffix(pat, starPat, s, starStr + 1))
    ensures Greedy(pat, s, p, i, starPat, starStr)
    decreases |s| - (if starStr == -1 then 0 else starStr), |pat| - p
  {
    var from: nat := if starPat == -1 then p else starPat;
    if p < |pat| {
      assert pat[p] == pat[from..][p - from];
    }
    if i == |s| {
      StarsMatchNothing(pat, p, s);
      if !GlobAt(pat, p, s, i) {
        var j :| starStr + 1 <= j <= |s| && GlobAt(pat, starPat, s, j);
        FixedPart(pat, starPat, p, s, j);
      }
    } else if p < |pat| && (pat[p] == s[i] || pat[p] == '?') {
      assert pat[p] != '*';
      if starPat == -1 {
        assert pat[p + 1..] == pat[p..][1..];
      }
      GreedyIsComplete(pat, s, p + 1, i + 1, starPat, starStr);
    } else if p < |pat| && pat[p] == '*' {
      var q := SkipStars(pat, p);
      if q < |pat| {
        if GlobAt(pat, p, s, i) {
          StarRun(pat, p, q, s, i);
        } else {
          EarliestFitIsBest(pat, s, p, i, starPat, starStr, q);
        }
        var j :| i <= j <= |s| && GlobAt(pat, q, s, j);
        assert j == i || SomeSuffix(pat, q, s, i + 1);
        assert pat[q..] == pat[from..][q - from..];
        GreedyIsComplete(pat, s, q, i, q, i);
      }
    } else {
      assert !GlobAt(pat, p, s, i);
      var j :| starStr + 1 <= j <= |s| && GlobAt(pat, starPat, s, j);
      assert j == starStr + 1 || SomeSuffix(pat, starPat, s, starStr + 2);
      GreedyIsComplete(pat, s, starPat, starStr + 1, starPat, starStr + 1);
    }
  }

  /** The matcher is correct unless both the pattern and the subject hold a '*'. */
  lemma WildcardIsCorrect(pat: string, s: string)
    requires '*' !in s || '*' !in pat
    ensures WildcardMatches(pat, s) <==> Glob(pat, s)
  {
    WildcardIsSound(pat, s);
    assert pat[0..] == pat;
    if Glob(pat, s) {
      GreedyIsComplete(pat, s, 0, 0, -1, -1);
    }
  }

  // ----- and neither condition can be weakened

  lemma {:induction false} OneEach(pat: string, p: nat, s: string, i: nat, n: nat)
    requires p + n <= |pat| && i + n <= |s| && GlobAt(pat, p + n, s, i + n)
    requires forall k :: p <= k < p + n ==> pat[k] == '*' || pat[k] == '?' || pat[k] == s[k - p + i]
    ensures GlobAt(pat, p, s, i)
    decreases n
  {
    if n == 0 {
    } else {
      OneEach(pat, p + 1, s, i + 1, n - 1);
      if pat[p] == '*' {
        StarAbsorbs(pat, p, s, i, i + 1);
      }
    }
  }

  /** Without a star the matcher pairs characters one by one. */
  lemma {:induction false} GreedyWalks(pat: string, s: string, i: nat, n: nat)
    requires i <= n <= |pat| && n <= |s|
    requires forall k :: i <= k < n ==> pat[k] == s[k] || pat[k] == '?'
    ensures Greedy(pat, s, i, i, -1, -1) == Greedy(pat, s, n, n, -1, -1)
    decreases n - i
  {
    if i == n {
    } else {
      GreedyWalks(pat, s, i + 1, n);
    }
  }

  lemma {:induction false} GreedyKeepsLength(pat: string, s: string, p: nat, i: nat)
    requires p <= |pat| && i <= |s|
    requires forall k :: p <= k < |pat| ==> pat[k] != '*'
    requires Greedy(pat, s, p, i, -1, -1)
    ensures |s| - i == |pat| - p
    decreases |pat| - p
  {
    if i == |s| {
    } else {
      GreedyKeepsLength(pat, s, p + 1, i + 1);
    }
  }

  lemma {:induction false} FirstStar(s: string) returns (k: nat)
    requires '*' in s
    ensures k < |s| && s[k] == '*' && '*' !in s[..k]
  {
    k := 0;
    while s[k] != '*'
      invariant k < |s| && '*' !in s[..k] && '*' in s[k..]
      decreases |s| - k
    {
      assert s[k..] == [s[k]] + s[k + 1..];
      k := k + 1;
      assert s[..k] == s[..k - 1] + [s[k - 1]];
    }
  }

  lemma {:induction false} LastStar(s: string) returns (k: nat)
    requires '*' in s
    ensures k < |s| && s[k] == '*' && forall j :: k < j < |s| ==> s[j] != '*'
  {
    k := |s| - 1;
    while s[k] != '*'
      invariant k < |s| && (forall j :: k < j < |s| ==> s[j] != '*') && '*' in s[..k + 1]
      decreases k
    {
      k := k - 1;
    }
  }

  function Repeat(c: char, n: nat): (s: string)
    ensures |s| == n && forall k :: 0 <= k < n ==> s[k] == c
  {
    seq(n, _ => c)
  }

  /** A subject with a '*' is missed by some pattern that means it. */
  lemma SubjectStarIsEaten(s: string) returns (pat: string)
    requires '*' in s
    ensures Glob(pat, s) && !WildcardMatches(pat, s)
  {
    var k := FirstStar(s);
    pat := s[..k] + "*" + Repeat('?', |s| - k);
    assert GlobAt(pat, |pat|, s, |s|);
    OneEach(pat, k + 1, s, k, |s| - k);
    OneEach(pat, 0, s, 0, k);
    GreedyWalks(pat, s, 0, |s|);
    assert pat[|s|] == '?';
  }

  /** A pattern with a '*' misses some subject it means. */
  lemma PatternStarIsWasted(pat: string) returns (s: string)
    requires '*' in pat
    ensures Glob(pat, s) && !WildcardMatches(pat, s)
  {
    var l := LastStar(pat);
    s := pat[..l] + "*z" + pat[l + 1..];
    assert GlobAt(pat, |pat|, s, |s|);
    OneEach(pat, l + 1, s, l + 2, |pat| - l - 1);
    StarAbsorbs(pat, l, s, l, l + 2);
    OneEach(pat, 0, s, 0, l);
    GreedyWalks(pat, s, 0, l + 1);
    if Greedy(pat, s, l + 1, l + 1, -1, -1) {
      GreedyKeepsLength(pat, s, l + 1, l + 1);
    }
  }

  /** A subject is safe for every pattern exactly when it holds no '*'. */
  lemma SubjectIsSafeIff(s: string)
    ensures (forall pat :: WildcardMatches(pat, s) <==> Glob(pat, s)) <==> '*' !in s
  {
    if '*' in s {
      var pat := SubjectStarIsEaten(s);
    } else {
      forall pat ensures WildcardMatches(pat, s) <==> Glob(pat, s) {
        WildcardIsCorrect(pat, s);
      }
    }
  }

  /** A pattern is safe for every subject exactly when it holds no '*'. */
  lemma PatternIsSafeIff(pat: string)
    ensures (forall s :: WildcardMatches(pat, s) <==> Glob(pat, s)) <==> '*' !in pat
  {
    if '*' in pat {
      var s := PatternStarIsWasted(pat);
    } else {
      forall s ensures WildcardMatches(pat, s) <==> Glob(pat, s) {
        WildcardIsCorrect(pat, s);
      }
    }
  }
}
