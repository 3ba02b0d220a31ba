/** The comparisons a leaf can ask for, shared by both engines. */
module Comparators {
  import opened Tristate
  import opened Glob

  datatype Option<+T> = None | Some(value: T)

  datatype Matching = Exact | Prefix | Suffix | Contains | Wildcard

  datatype Relation = Eq | Gt | Gte | Lt | Lte

  predicate HasPrefix(s: string, p: string) {
    p <= s
  }

  predicate HasSuffix(s: string, p: string) {
    |p| <= |s| && s[|s| - |p|..] == p
  }

  predicate OccursAt(s: string, p: string, k: nat) {
    k + |p| <= |s| && s[k..k + |p|] == p
  }

  predicate HasSubstring(s: string, p: string) {
    exists k :: 0 <= k <= |s| && OccursAt(s, p, k)
  }

  predicate Matches(m: Matching, pattern: string, value: string) {
    match m
    case Exact => pattern == value
    case Prefix => HasPrefix(value, pattern)
    case Suffix => HasSuffix(value, pattern)
    case Contains => HasSubstring(value, pattern)
    case Wildcard => WildcardMatches(pattern, value)
  }

  /** Reads "policy value <relation> workload value". */
  predicate Holds(r: Relation, policy: int, workload: int) {
    match r
    case Eq => policy == workload
    case Gt => policy > workload
    case Gte => policy >= workload
    case Lt => policy < workload
    case Lte => policy <= workload
  }

  /** The relations are those of one total order: which side is the policy's is never confused. */
  lemma RelationsAreAnOrder(a: int, b: int)
    ensures Holds(Lt, a, b) <==> a < b
    ensures Holds(Gt, a, b) <==> Holds(Lt, b, a)
    ensures Holds(Gte, a, b) <==> !Holds(Lt, a, b)
    ensures Holds(Lte, a, b) <==> !Holds(Gt, a, b)
    ensures Holds(Gte, a, b) <==> Holds(Lte, b, a)
    ensures Holds(Eq, a, b) <==> Holds(Gte, a, b) && Holds(Lte, a, b)
    ensures Holds(Eq, a, b) <==> !Holds(Lt, a, b) && !Holds(Gt, a, b)
  {
  }

  // ----- the string comparisons of the C engine, on NUL-terminated buffers

  type CString = s: string | '\0' !in s witness ""

  function Buffer(s: CString): string {
    s + ['\0']
  }

  predicate StrNEqual(a: string, b: string, n: nat)
    requires n <= |a| && |b| > 0 && b[|b| - 1] == '\0'
    decreases n
  {
    n == 0 || (a[0] == b[0] && (a[0] == '\0' || (|b| > 1 && StrNEqual(a[1..], b[1..], n - 1))))
  }

  lemma {:induction false} StrNEqualIsEquality(a: CString, b: CString)
    ensures StrNEqual(Buffer(a), Buffer(b), |a| + 1) <==> a == b
    decreases |a|
  {
    if a != "" && b != "" && a[0] == b[0] {
      assert Buffer(a)[1..] == Buffer(a[1..]) && Buffer(b)[1..] == Buffer(b[1..]);
      StrNEqualIsEquality(a[1..], b[1..]);
      assert a == [a[0]] + a[1..] && b == [b[0]] + b[1..];
    }
  }

  method StringEvaluatorExact(eval: Option<CString>, param: Option<CString>) returns (r: Result)
    ensures r == if eval.None? || param.None? then Abstain else FromBool(eval.value == param.value)
  {
    if eval.None? || param.None? {
      return Abstain;
    }
    StrNEqualIsEquality(eval.value, param.value);
    r := if StrNEqual(Buffer(eval.value), Buffer(param.value), |eval.value| + 1) then True else False;
  }

  method StringEvaluatorPrefix(eval: Option<CString>, param: Option<CString>) returns (r: Result)
    ensures r == if eval.None? || param.None? then Abstain else FromBool(HasPrefix(param.value, eval.value))
  {
    if eval.None? || param.None? {
      return Abstain;
    }
    var e, p := Buffer(eval.value), Buffer(param.value);
    var k := 0;
    while e[k] != '\0'
      invariant k <= |eval.value| && k <= |param.value|
      invariant eval.value[..k] == param.value[..k]
      decreases |eval.value| - k
    {
      if e[k] != p[k] {
        return False;
      }
      assert e[k] in eval.value;
      k := k + 1;
    }
    r := True;
  }

  method StringEvaluatorSuffix(eval: Option<CString>, param: Option<CString>) returns (r: Result)
    ensures r == if eval.None? || param.None? then Abstain else FromBool(HasSuffix(param.value, eval.value))
  {
    if eval.None? || param.None? {
      return Abstain;
    }
    var e, p := eval.value, param.value;
    if |e| > |p| {
      return False;
    }
    ghost var end := p[|p| - |e|..];
    var i := 0;
    while i < |e|
      invariant 0 <= i <= |e|
      invariant forall k :: 0 <= k < i ==> e[k] == end[k]
    {
      if p[|p| - |e| + i] != e[i] {
        assert end[i] != e[i];
        return False;
      }
      i := i + 1;
    }
    assert end == e;
    r := True;
  }

  method StringEvaluatorContains(eval: Option<CString>, param: Option<CString>) returns (r: Result)
    ensures r == if eval.None? || param.None? then Abstain else FromBool(HasSubstring(param.value, eval.value))
  {
    if eval.None? || param.None? {
      return Abstain;
    }
    if |eval.value| > |param.value| {
      return False;
    }
    if |eval.value| == 0 {
      assert OccursAt(param.value, eval.value, 0);
      return True;
    }
    r := if HasSubstring(param.value, eval.value) then True else False;
  }

  /**
   The matcher of the C engine, on pointers into NUL-terminated buffers. Every read is inside a
   buffer, so neither pointer passes its terminator, and the answer is the one of the Go engine.
   */
  method StringEvaluatorWildcard(eval: Option<CString>, param: Option<CString>) returns (r: Result)
    ensures r == if eval.None? || param.None? then Abstain else FromBool(WildcardMatches(eval.value, param.value))
  {
    if eval.None? || param.None? {
      return Abstain;
    }
    ghost var pat, s := eval.value, param.value;
    var pattern, str := Buffer(eval.value), Buffer(param.value);
    var p, i := 0, 0;
    var starPattern, starStr := -1, -1;
    while str[i] != '\0'
      invariant StarSeen(pat, p, s, i, starPattern, starStr)
      invariant Greedy(pat, s, p, i, starPattern, starStr) == WildcardMatches(pat, s)
      decreases |s| - (if starStr == -1 then 0 else starStr), |pat| - p
    {
      if pattern[p] == str[i] || pattern[p] == '?' {
        p := p + 1;
        i := i + 1;
        continue;
      }
      if pattern[p] == '*' {
        ghost var before := p;
        while pattern[p] == '*'
          invariant before <= p <= |pat|
          invariant before == p ==> pattern[p] == '*'
          invariant SkipStars(pat, p) == SkipStars(pat, before)
          decreases |pat| - p
        {
          p := p + 1;
        }
        if pattern[p] == '\0' {
          EndOfString(eval.value, p);
          return True;
        }
        starPattern := p;
        starStr := i;
        continue;
      }
      if starPattern != -1 {
        p := starPattern;
        starStr := starStr + 1;
        i := starStr;
        continue;
      }
      return False;
    }
    EndOfString(param.value, i);
    ghost var before := p;
    while pattern[p] == '*'
      invariant before <= p <= |pat|
      invariant AllStars(pat, p) == AllStars(pat, before)
      decreases |pat| - p
    {
      p := p + 1;
    }
    EndOfString(eval.value, p);
    r := if pattern[p] == '\0' then True else False;
  }

  lemma EndOfString(s: CString, i: nat)
    requires i <= |s|
    ensures Buffer(s)[i] == '\0' <==> i == |s|
  {
    if i < |s| {
      assert s[i] in s;
    }
  }

  // ----- choosing a comparator for a pattern

  predicate IsLiteral(p: string) {
    '*' !in p && '?' !in p
  }

  lemma {:induction false} LiteralRun(pat: string, s: string, i: nat, e: nat)
    requires i <= e <= |pat| && i <= |s|
    requires forall k :: i <= k < e ==> pat[k] != '*' && pat[k] != '?'
    ensures Greedy(pat, s, i, i, -1, -1) <==>
            e <= |s| && s[i..e] == pat[i..e] && Greedy(pat, s, e, e, -1, -1)
    decreases e - i
  {
    if i == e {
    } else {
      if i < |s| && pat[i] == s[i] {
        LiteralRun(pat, s, i + 1, e);
        if e <= |s| {
          assert s[i..e] == [s[i]] + s[i + 1..e] && pat[i..e] == [pat[i]] + pat[i + 1..e];
        }
      } else if e <= |s| {
        assert s[i..e][0] == s[i] && pat[i..e][0] == pat[i];
      }
    }
  }

  /** Without '*' or '?', choosing EXACT or WILDCARD makes no difference, on any subject. */
  lemma ExactIsWildcard(p: string, s: string)
    requires IsLiteral(p)
    ensures Matches(Wildcard, p, s) <==> Matches(Exact, p, s)
  {
    LiteralRun(p, s, 0, |p|);
    assert p[0..|p|] == p;
    if |p| <= |s| {
      assert |p| == |s| ==> s[0..|p|] == s;
    }
  }

  /** PREFIX p and the glob p* differ on exactly the subjects p*..., with more after the '*'. */
  lemma PrefixAsGlob(p: string, s: string)
    requires IsLiteral(p)
    ensures (Matches(Prefix, p, s) <==> Matches(Wildcard, p + "*", s)) <==>
            !(p <= s && |s| > |p| + 1 && s[|p|] == '*')
  {
    var pat := p + "*";
    LiteralRun(pat, s, 0, |p|);
    assert pat[0..|p|] == p;
    assert p <= s <==> |p| <= |s| && s[0..|p|] == p;
  }

  /** SUFFIX p and the glob *p differ on exactly the subjects *...p, with some in between. */
  lemma SuffixAsGlob(p: string, s: string)
    requires IsLiteral(p)
    ensures (Matches(Suffix, p, s) <==> Matches(Wildcard, "*" + p, s)) <==>
            !(HasSuffix(s, p) && |s| > |p| + 1 && s[0] == '*')
  {
    var pat := "*" + p;
    assert pat[1..] == p;
    if s == "" {
      assert AllStars(pat, 0) <==> p == "" by {
        assert p != "" ==> pat[1] == p[0] && p[0] in p;
      }
    } else if s[0] == '*' {
      assert WildcardMatches(pat, s) == Greedy(pat, s, 1, 1, -1, -1);
      LiteralRun(pat, s, 1, |pat|);
      assert pat[1..|pat|] == p;
    } else if p != "" {
      assert pat[1] == p[0] && p[0] in p;
      assert SkipStars(pat, 0) == SkipStars(pat, 1) == 1;
      if Greedy(pat, s, 1, 0, 1, 0) {
        GreedyIsSound(pat, s, 1, 0, 1, 0);
        var j :| 0 <= j <= |s| && GlobAt(pat, 1, s, j);
        LiteralMatch(pat, 1, s, j);
      }
      if HasSuffix(s, p) {
        LiteralMatch(pat, 1, s, |s| - |p|);
        assert |s| == |p| || SomeSuffix(pat, 1, s, 1);
        GreedyIsComplete(pat, s, 1, 0, 1, 0);
      }
    }
  }

  lemma {:induction false} LiteralMatch(pat: string, a: nat, s: string, j: nat)
    requires a <= |pat| && j <= |s|
    requires forall k :: a <= k < |pat| ==> pat[k] != '*' && pat[k] != '?'
    ensures GlobAt(pat, a, s, j) <==> s[j..] == pat[a..]
    decreases |pat| - a
  {
    if a == |pat| {
    } else {
      if j < |s| {
        LiteralMatch(pat, a + 1, s, j + 1);
        assert s[j..] == [s[j]] + s[j + 1..];
        assert s[j..] == pat[a..] ==> s[j..][0] == pat[a..][0] && s[j..][1..] == pat[a..][1..];
      }
      assert pat[a..] == [pat[a]] + pat[a + 1..];
    }
  }

  /** p occurs at k, and no '*' with more after it follows: that one would be eaten. */
  predicate OccursUneaten(s: string, p: string, k: nat) {
    OccursAt(s, p, k) && (k + |p| + 1 >= |s| || s[k + |p|] != '*')
  }

  predicate FoundFrom(s: string, p: string, k: nat) {
    exists j :: k <= j <= |s| && OccursUneaten(s, p, j)
  }

  /** The places where p cannot be accepted: the matcher moves on to the next one. */
  lemma NotHere(pat: string, p: string, s: string, t: nat, k: nat)
    requires pat == "*" + p + "*" && IsLiteral(p) && p != ""
    requires t <= |p| && k + t < |s| && s[k..k + t] == p[..t]
    requires if t < |p| then p[t] != s[k + t] else s[k + t] == '*' && k + t + 1 < |s|
    ensures !OccursUneaten(s, p, k)
    ensures Greedy(pat, s, 1 + t, k + t, 1, k) == Greedy(pat, s, 1, k + 1, 1, k + 1)
  {
    var i := k + t;
    if t < |p| {
      assert pat[1 + t] == p[t] && p[t] in p;
      if k + |p| <= |s| {
        assert s[k..k + |p|][t] == s[i];
      }
    } else {
      assert pat[1 + t] == '*';
      assert Greedy(pat, s, 1 + t, i, 1, k) == Greedy(pat, s, 2 + t, i + 1, 1, k);
    }
  }

  lemma {:induction false} SearchOnward(pat: string, p: string, s: string, t: nat, k: nat)
    requires pat == "*" + p + "*" && IsLiteral(p) && p != ""
    requires t <= |p| && k + t <= |s| && s[k..k + t] == p[..t]
    ensures Greedy(pat, s, 1 + t, k + t, 1, k) <==> FoundFrom(s, p, k)
    decreases |s| - k, |p| - t
  {
    var i := k + t;
    if i == |s| {
      assert AllStars(pat, 1 + t) <==> t == |p| by {
        assert t < |p| ==> pat[1 + t] == p[t] && p[t] in p;
      }
      assert t == |p| ==> OccursUneaten(s, p, k);
    } else if t < |p| && p[t] == s[i] {
      assert pat[1 + t] == s[i];
      assert s[k..i + 1] == s[k..i] + [s[i]] && p[..t + 1] == p[..t] + [p[t]];
      SearchOnward(pat, p, s, t + 1, k);
    } else if t == |p| && (s[i] != '*' || i + 1 == |s|) {
      assert OccursUneaten(s, p, k);
      assert pat[1 + t] == '*' && (s[i] != '*' ==> SkipStars(pat, 1 + t) == |pat|);
    } else {
      NotHere(pat, p, s, t, k);
      SearchOnward(pat, p, s, 0, k + 1);
    }
  }

  /** What the glob *p* accepts; a leading '*' of the subject pins p to the second character. */
  lemma ContainsAsGlob(p: string, s: string)
    requires IsLiteral(p)
    ensures Matches(Wildcard, "*" + p + "*", s) <==>
            if s != "" && s[0] == '*' then OccursUneaten(s, p, 1)
            else p == "" || FoundFrom(s, p, 0)
  {
    var pat := "*" + p + "*";
    assert pat[1..1 + |p|] == p;
    if p != "" {
      assert pat[1] == p[0] && p[0] in p;
    }
    if s != "" && s[0] == '*' {
      assert WildcardMatches(pat, s) == Greedy(pat, s, 1, 1, -1, -1);
      LiteralRun(pat, s, 1, 1 + |p|);
    } else if p == "" {
      assert SkipStars(pat, 0) == SkipStars(pat, 1) == SkipStars(pat, 2) == 2;
    } else if s != "" {
      assert SkipStars(pat, 0) == SkipStars(pat, 1) == 1;
      SearchOnward(pat, p, s, 0, 0);
    }
  }

  /** On subjects without '*', CONTAINS p is the glob *p*. */
  lemma ContainsIsGlob(p: string, s: string)
    requires IsLiteral(p) && '*' !in s
    ensures Matches(Contains, p, s) <==> Matches(Wildcard, "*" + p + "*", s)
  {
    ContainsAsGlob(p, s);
    if p == "" {
      assert OccursAt(s, p, 0);
    }
    assert forall j :: 0 <= j <= |s| && OccursAt(s, p, j) ==> OccursUneaten(s, p, j);
  }

  /** The pattern "*?" is meant to accept any non-empty value, and does but for most starred ones. */
  lemma NonEmptyGlob(s: string)
    ensures WildcardMatches("*?", s) <==> s != "" && (s[0] != '*' || |s| == 2)
  {
    var pat := "*?";
    if s != "" {
      if s[0] == '*' {
        assert WildcardMatches(pat, s) == Greedy(pat, s, 1, 1, -1, -1);
        assert |s| > 1 ==> Greedy(pat, s, 1, 1, -1, -1) == Greedy(pat, s, 2, 2, -1, -1);
        assert |s| == 1 ==> !AllStars(pat, 1) by {
          assert pat[1] == '?';
        }
      } else {
        assert SkipStars(pat, 0) == SkipStars(pat, 1) == 1;
        assert GlobAt(pat, 2, s, |s|);
        assert GlobAt(pat, 1, s, |s| - 1);
        assert |s| == 1 || SomeSuffix(pat, 1, s, 1);
        GreedyIsComplete(pat, s, 1, 0, 1, 0);
      }
    }
  }
}
