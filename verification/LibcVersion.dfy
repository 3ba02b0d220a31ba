/** The libc requirements: version strings accepted, and version bounds lowered into rule trees. */
module LibcVersion {
  import opened Tristate
  import opened RuleTree
  import opened Comparators
  import opened EvaluatorIds
  import opened Wire
  import opened EvalContext
  import opened Converter
  import CEngine
  import CEngineFacts

  // ----- version strings

  predicate IsDigit(c: char) {
    '0' <= c <= '9'
  }

  predicate AllDigits(s: string, a: nat, b: nat) {
    a <= b <= |s| && forall k :: a <= k < b ==> IsDigit(s[k])
  }

  function TrimPrefix(s: string, c: char): string {
    if s != "" && s[0] == c then s[1..] else s
  }

  /** Two numbers separated by a dot, with anything after them. */
  ghost predicate StartsWithMajorMinor(s: string) {
    exists dot :: 0 < dot && AllDigits(s, 0, dot) && dot + 1 < |s| && s[dot] == '.' && IsDigit(s[dot + 1])
  }

  /** The same without trimming: before the numbers there may be v, V, or both in this order. */
  ghost predicate IsMajorMinor(version: string) {
    exists prefix, major, rest :: Cuts(version, prefix, major, rest)
  }

  predicate IsVersionPrefix(s: string) {
    s == "" || s == "v" || s == "V" || s == "vV"
  }

  predicate Cuts(version: string, prefix: string, major: string, rest: string) {
    && IsVersionPrefix(prefix) && version == prefix + (major + "." + rest)
    && major != "" && AllDigits(major, 0, |major|) && rest != "" && IsDigit(rest[0])
  }

  lemma TrimmedTwice(version: string) returns (prefix: string)
    ensures IsVersionPrefix(prefix)
    ensures version == prefix + TrimPrefix(TrimPrefix(version, 'v'), 'V')
  {
    var s := TrimPrefix(version, 'v');
    var first, second := if s == version then "" else "v", if s != "" && s[0] == 'V' then "V" else "";
    assert version == first + s && s == second + TrimPrefix(s, 'V');
    prefix := first + second;
    assert "v" + "V" == "vV";
  }

  lemma TrimsOff(prefix: string, s: string)
    requires IsVersionPrefix(prefix) && s != "" && IsDigit(s[0])
    ensures TrimPrefix(TrimPrefix(prefix + s, 'v'), 'V') == s
  {
    assert (prefix + s)[|prefix|..] == s;
  }

  lemma CutsStart(prefix: string, major: string, rest: string)
    requires Cuts(prefix + (major + "." + rest), prefix, major, rest)
    ensures StartsWithMajorMinor(TrimPrefix(TrimPrefix(prefix + (major + "." + rest), 'v'), 'V'))
  {
    var s := major + "." + rest;
    TrimsOff(prefix, s);
    assert AllDigits(s, 0, |major|) && s[|major|] == '.' && s[|major| + 1] == rest[0];
  }

  lemma SplitAtDot(s: string, dot: nat)
    requires dot < |s| && s[dot] == '.'
    ensures s == s[..dot] + ("." + s[dot + 1..])
    ensures s == s[..dot] + "." + s[dot + 1..]
  {
  }

  lemma StartCuts(version: string, dot: nat)
    requires var s := TrimPrefix(TrimPrefix(version, 'v'), 'V');
             0 < dot && AllDigits(s, 0, dot) && dot + 1 < |s| && s[dot] == '.' && IsDigit(s[dot + 1])
    ensures IsMajorMinor(version)
  {
    var s := TrimPrefix(TrimPrefix(version, 'v'), 'V');
    var prefix := TrimmedTwice(version);
    var major, rest := s[..dot], s[dot + 1..];
    SplitAtDot(s, dot);
    assert major != "" && rest[0] == s[dot + 1];
    assert AllDigits(major, 0, |major|);
    assert Cuts(version, prefix, major, rest);
  }

  /** The two descriptions of the accepted texts agree. */
  lemma AcceptedVersions(version: string)
    ensures StartsWithMajorMinor(TrimPrefix(TrimPrefix(version, 'v'), 'V')) <==> IsMajorMinor(version)
  {
    var s := TrimPrefix(TrimPrefix(version, 'v'), 'V');
    if dot: nat :| 0 < dot && AllDigits(s, 0, dot) && dot + 1 < |s| && s[dot] == '.' && IsDigit(s[dot + 1]) {
      StartCuts(version, dot);
    }
    if prefix, major, rest :| Cuts(version, prefix, major, rest) {
      CutsStart(prefix, major, rest);
    }
  }

  method HasMajorMinor(version: string) returns (r: bool)
    ensures r <==> StartsWithMajorMinor(TrimPrefix(TrimPrefix(version, 'v'), 'V'))
  {
    var s := TrimPrefix(TrimPrefix(version, 'v'), 'V');
    var position := 0;
    var component := 0;
    while component < 2
      invariant component <= 1 && position <= |s|
      invariant component == 0 ==> position == 0
      invariant component == 1 ==> 1 < position && AllDigits(s, 0, position - 1) && s[position - 1] == '.'
      decreases 2 - component
    {
      var start := position;
      while position < |s| && '0' <= s[position] <= '9'
        invariant start <= position <= |s| && AllDigits(s, start, position)
      {
        position := position + 1;
      }
      if position == start {
        if component == 1 {
          OneDot(s, start - 1);
        }
        return false;
      }
      if component == 1 {
        assert IsDigit(s[start - 1 + 1]);
        return true;
      }
      if position >= |s| || s[position] != '.' {
        return false;
      }
      position := position + 1;
      component := component + 1;
    }
  }

  lemma OneDot(s: string, dot: nat)
    requires AllDigits(s, 0, dot) && dot < |s| && s[dot] == '.'
    ensures StartsWithMajorMinor(s) <==> 0 < dot && dot + 1 < |s| && IsDigit(s[dot + 1])
  {
    if d :| 0 < d && AllDigits(s, 0, d) && d + 1 < |s| && s[d] == '.' && IsDigit(s[d + 1]) {
      if d != dot {
        assert false;
      }
    }
  }

  // ----- version bounds

  datatype Version = Version(major: Int64, minor: Int64, patch: Int64)

  function NumLeaf(id: int, r: Relation, x: Int64): WireNode {
    Leaf(NumEvaluator(id, Num(r), x))
  }

  /** The shape of both bounds; a leaf compares "bound <relation> version of the workload". */
  function VersionTree(min: Version, strict: Relation, last: Relation): WireNode {
    var majorEq := NumLeaf(LIBC_VERSION_MAJOR, Eq, min.major);
    var minorEq := NumLeaf(LIBC_VERSION_MINOR, Eq, min.minor);
    Node(OpOr, [
      NumLeaf(LIBC_VERSION_MAJOR, strict, min.major),
      Node(OpAnd, [majorEq, NumLeaf(LIBC_VERSION_MINOR, strict, min.minor)]),
      Node(OpAnd, [majorEq, minorEq, NumLeaf(LIBC_VERSION_PATCH, last, min.patch)])])
  }

  /** The tree built for "version < min". */
  function BelowTree(min: Version): WireNode {
    VersionTree(min, Gt, Gt)
  }

  /** The tree built for "version >= min". */
  function AtLeastTree(min: Version): WireNode {
    VersionTree(min, Lt, Lte)
  }

  // ----- what they mean

  /** What is known of the workload: its architecture, its libc and the parts of the version of that. */
  datatype Facts = Facts(
    arch: Option<string>, flavor: Option<string>, major: Option<int>, minor: Option<int>, patch: Option<int>)

  function FactOf(f: Facts, id: int): Option<int> {
    if id == LIBC_VERSION_MAJOR then f.major
    else if id == LIBC_VERSION_MINOR then f.minor
    else if id == LIBC_VERSION_PATCH then f.patch
    else None
  }

  /** A valuation that compares leaves with these facts and abstains where there is none. */
  ghost predicate Reads(v: Evaluator -> Result, f: Facts) {
    && (forall id, r, x: Int64 :: LIBC_VERSION_MAJOR <= id <= LIBC_VERSION_PATCH ==>
          v(NumEvaluator(id, Num(r), x)) ==
          if FactOf(f, id).None? then Abstain else FromBool(Holds(r, x, FactOf(f, id).value)))
    && (forall s: CString :: v(StrEvaluator(MACHINE_ARCHITECTURE, Str(Exact), Some(s))) == IsKnownToBe(f.arch, s))
    && (forall s: CString :: v(StrEvaluator(LIBC_FLAVOR, Str(Exact), Some(s))) == IsKnownToBe(f.flavor, s))
  }

  /** Whether a fact is this text, ABSTAIN if it is missing. */
  function IsKnownToBe(fact: Option<string>, s: string): Result {
    if fact.None? then Abstain else FromBool(fact.value == s)
  }

  /** Whether the version is below the bound, if its known leading parts tell. */
  function Settled(f: Facts, min: Version): Option<bool> {
    if f.major.None? then None
    else if f.major.value != min.major then Some(f.major.value < min.major)
    else if f.minor.None? then None
    else if f.minor.value != min.minor then Some(f.minor.value < min.minor)
    else if f.patch.None? then None
    else Some(f.patch.value < min.patch)
  }

  function Known(b: Option<bool>): Result {
    if b.None? then Abstain else FromBool(b.value)
  }

  lemma MeaningOfVersionTree(min: Version, strict: Relation, last: Relation, v: Evaluator -> Result)
    ensures var a := v(NumEvaluator(LIBC_VERSION_MAJOR, Num(strict), min.major));
            var b := v(NumEvaluator(LIBC_VERSION_MAJOR, Num(Eq), min.major));
            var c := v(NumEvaluator(LIBC_VERSION_MINOR, Num(strict), min.minor));
            var d := v(NumEvaluator(LIBC_VERSION_MINOR, Num(Eq), min.minor));
            var e := v(NumEvaluator(LIBC_VERSION_PATCH, Num(last), min.patch));
            Meaning(VersionTree(min, strict, last), v) == AnyOf([a, AllOf([b, c]), AllOf([b, d, e])])
  {
    var t := VersionTree(min, strict, last);
    var two, three := t.children[1], t.children[2];
    MeaningOfNode(OpOr, t.children, v);
    MeaningOfNode(OpAnd, two.children, v);
    MeaningOfNode(OpAnd, three.children, v);
    assert Meanings(two.children, v) == [v(two.children[0].leaf), v(two.children[1].leaf)];
    assert Meanings(three.children, v) ==
        [v(three.children[0].leaf), v(three.children[1].leaf), v(three.children[2].leaf)];
    assert Meanings(t.children, v) == [v(t.children[0].leaf), Meaning(two, v), Meaning(three, v)];
  }

  /**
   In every context the two bounds are decided exactly when the known leading parts settle the
   order, they are then right, and they are exact negations of each other.
   */
  lemma BoundsMeanOrder(min: Version, f: Facts, v: Evaluator -> Result)
    requires Reads(v, f)
    ensures Meaning(BelowTree(min), v) == Known(Settled(f, min))
    ensures Meaning(AtLeastTree(min), v) == DoNot(Known(Settled(f, min)))
  {
    MeaningOfVersionTree(min, Gt, Gt, v);
    MeaningOfVersionTree(min, Lt, Lte, v);
  }

  /** With all the parts known, that order is the lexicographic one. */
  lemma SettledIsLexicographic(major: int, minor: int, patch: int, min: Version)
    ensures Settled(Facts(None, None, Some(major), Some(minor), Some(patch)), min) == Some(
              || major < min.major
              || (major == min.major && minor < min.minor)
              || (major == min.major && minor == min.minor && patch < min.patch))
  {
  }

  lemma BoundsFit(min: Version)
    ensures Within(BelowTree(min), 2) && IdsInRange(BelowTree(min))
    ensures Within(AtLeastTree(min), 2) && IdsInRange(AtLeastTree(min))
  {
  }

  // ----- whole requirements

  datatype Requirement = Requirement(arch: Option<CString>, supported: bool, min: Option<Version>)

  function ExactLeaf(id: int, s: CString): WireNode {
    Leaf(StrEvaluator(id, Str(Exact), Some(s)))
  }

  /**
   The deny policy of a requirement, None if it needs none. The architecture is given in its
   canonical form, None if it is unknown.
   */
  function RequirementTree(l: Requirement, flavor: CString): Converted<Option<WireNode>> {
    if l.supported && l.min.None? then Ok(None)
    else if l.arch.None? then Error(UnknownArchitecture)
    else
      var version :=
        if l.min.None? then [] else [if l.supported then BelowTree(l.min.value) else AtLeastTree(l.min.value)];
      Ok(Some(Node(OpAnd,
        [ExactLeaf(MACHINE_ARCHITECTURE, l.arch.value), ExactLeaf(LIBC_FLAVOR, flavor)] + version)))
  }

  method ConvertRequirement(l: Requirement, flavor: CString) returns (r: Converted<Option<WireNode>>)
    ensures r == RequirementTree(l, flavor)
    ensures r.Error? <==> !(l.supported && l.min.None?) && l.arch.None?
    ensures r.Error? ==> r.error == UnknownArchitecture
    ensures r.Ok? ==> (r.value.None? <==> l.supported && l.min.None?)
    ensures r.Ok? && r.value.Some? ==>
              forall v: Evaluator -> Result, f: Facts {:trigger Reads(v, f)} :: Reads(v, f) ==>
                Meaning(r.value.value, v) == Denies(l, flavor, f)
  {
    if l.supported && l.min.None? {
      return Ok(None);
    }
    if l.arch.None? {
      return Error(UnknownArchitecture);
    }
    var nodes := [ExactLeaf(MACHINE_ARCHITECTURE, l.arch.value), ExactLeaf(LIBC_FLAVOR, flavor)];
    assert nodes + [] == nodes;
    if l.min.Some? {
      if l.supported {
        nodes := nodes + [BelowTree(l.min.value)];
      } else {
        nodes := nodes + [AtLeastTree(l.min.value)];
      }
    }
    r := Ok(Some(Node(OpAnd, nodes)));
    forall v: Evaluator -> Result, f: Facts | Reads(v, f)
      ensures Meaning(r.value.value, v) == Denies(l, flavor, f)
    {
      RequirementMeans(l, flavor, v, f);
    }
  }

  /**
   Denied when the architecture and the libc of the workload are those of the requirement and, if
   there is a bound, the version is known to be on its wrong side; what is missing abstains.
   */
  function Denies(l: Requirement, flavor: CString, f: Facts): Result
    requires l.arch.Some?
  {
    var version :=
      if l.min.None? then True
      else if l.supported then Known(Settled(f, l.min.value))
      else DoNot(Known(Settled(f, l.min.value)));
    AllOf([IsKnownToBe(f.arch, l.arch.value), IsKnownToBe(f.flavor, flavor), version])
  }

  lemma RequirementMeans(l: Requirement, flavor: CString, v: Evaluator -> Result, f: Facts)
    requires Reads(v, f) && RequirementTree(l, flavor).Ok? && RequirementTree(l, flavor).value.Some?
    ensures Meaning(RequirementTree(l, flavor).value.value, v) == Denies(l, flavor, f)
  {
    var nodes := RequirementTree(l, flavor).value.value.children;
    MeaningOfNode(OpAnd, nodes, v);
    var a, b := v(nodes[0].leaf), v(nodes[1].leaf);
    if l.min.None? {
      assert Meanings(nodes, v) == [a, b];
    } else {
      BoundsMeanOrder(l.min.value, f, v);
      assert Meanings(nodes, v) == [a, b, Meaning(nodes[2], v)];
    }
  }

  lemma RequirementFits(l: Requirement, flavor: CString)
    requires RequirementTree(l, flavor).Ok? && RequirementTree(l, flavor).value.Some?
    ensures var t := RequirementTree(l, flavor).value.value;
            Within(t, 3) && IdsInRange(t)
  {
    if l.min.Some? {
      BoundsFit(l.min.value);
    }
    var nodes := RequirementTree(l, flavor).value.value.children;
    forall i | 0 <= i < |nodes| ensures Within(nodes[i], 2) && IdsInRange(nodes[i]) {
    }
  }

  // ----- run by the C engine

  function KnownParam(x: Int64): Option<int> {
    if x == NUM_NOT_SET then None else Some(x)
  }

  function FactsIn(c: Tables): Facts {
    Facts(
      c.StrParam(MACHINE_ARCHITECTURE), c.StrParam(LIBC_FLAVOR),
      KnownParam(c.NumParam(LIBC_VERSION_MAJOR)), KnownParam(c.NumParam(LIBC_VERSION_MINOR)),
      KnownParam(c.NumParam(LIBC_VERSION_PATCH)))
  }

  /** No evaluator of its own is registered for what a requirement asks for. */
  predicate DefaultsForLibc(c: Tables)
    requires c.Valid()
  {
    && c.strs[MACHINE_ARCHITECTURE].fn.None? && c.strs[LIBC_FLAVOR].fn.None?
    && forall id :: LIBC_VERSION_MAJOR <= id <= LIBC_VERSION_PATCH ==> c.nums[id].fn.None?
  }

  lemma DefaultsRead(c: Tables)
    requires c.Valid() && DefaultsForLibc(c)
    ensures Reads(CEngine.Free(c), FactsIn(c))
  {
    var k := c.Knowledge();
    assert forall id :: LIBC_VERSION_MAJOR <= id <= LIBC_VERSION_PATCH ==>
        k.nums[id].fn == c.nums[id].fn && k.NumParam(id) == c.NumParam(id);
    assert forall id :: 0 <= id < STR_EVAL_COUNT ==>
        k.strs[id].fn == c.strs[id].fn && k.StrParam(id) == c.StrParam(id);
  }

  /** Run by the C engine with its default evaluators, the bounds answer as far as the facts settle it. */
  lemma BoundsRunAsMeant(min: Version, c: Tables)
    requires c.Valid() && c.error == ESUCCESS && DefaultsForLibc(c)
    ensures CEngine.Run(c, BelowTree(min), 0).result == Known(Settled(FactsIn(c), min))
    ensures CEngine.Run(c, AtLeastTree(min), 0).result == DoNot(Known(Settled(FactsIn(c), min)))
  {
    var v := CEngine.Free(c);
    DefaultsRead(c);
    BoundsMeanOrder(min, FactsIn(c), v);
    BoundsFit(min);
    CEngineFacts.IdsInRangeMeansExact(c, BelowTree(min), 0);
    CEngineFacts.IdsInRangeMeansExact(c, AtLeastTree(min), 0);
    CapIsExact(BelowTree(min), v, 0, 2);
    CapIsExact(AtLeastTree(min), v, 0, 2);
  }

  /**
   Run by the C engine with its default evaluators, the deny policy of a requirement answers on the
   facts set in the context: the architecture, the flavor and the parts of the version.
   */
  lemma RequirementRunsAsMeant(l: Requirement, flavor: CString, c: Tables)
    requires RequirementTree(l, flavor).Ok? && RequirementTree(l, flavor).value.Some?
    requires c.Valid() && c.error == ESUCCESS && DefaultsForLibc(c)
    ensures var arch, libc := c.StrParam(MACHINE_ARCHITECTURE), c.StrParam(LIBC_FLAVOR);
            var settled := if l.min.None? then Some(true) else Settled(FactsIn(c), l.min.value);
            CEngine.Run(c, RequirementTree(l, flavor).value.value, 0).result ==
            AllOf([
              if arch.None? then Abstain else FromBool(arch.value == l.arch.value),
              if libc.None? then Abstain else FromBool(libc.value == flavor),
              if settled.None? then Abstain
              else FromBool(if l.min.None? || l.supported then settled.value else !settled.value)])
  {
    var t := RequirementTree(l, flavor).value.value;
    DefaultsRead(c);
    RequirementFits(l, flavor);
    RequirementMeans(l, flavor, CEngine.Free(c), FactsIn(c));
    CEngineFacts.IdsInRangeMeansExact(c, t, 0);
    CapIsExact(t, CEngine.Free(c), 0, 3);
  }
}
