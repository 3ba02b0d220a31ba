/** The Go engine: leaves resolved against a context of facts, and the recursive evaluation. */
module GoEngine {
  import opened Tristate
  import opened RuleTree
  import opened Comparators
  import opened EvaluatorIds
  import Glob

  datatype StrCmp = GoStr(matching: Matching) | CmpExists | CmpOther

  datatype NumCmp = GoNum(relation: Relation) | NumOther

  datatype Evaluator =
    | StringEval(id: int, key: string, scmp: StrCmp, str: string)
    | NumericEval(id: int, ncmp: NumCmp, num: Int64)
    | UNumericEval(id: int, ncmp: NumCmp, unum: UInt64)
    | OtherEval

  /** A nil node is Blank. */
  type GoNode = Tree<Evaluator>

  datatype Context = Context(
    strings: map<int, string>,
    labels: map<int, map<string, string>>,
    lists: map<int, seq<string>>,
    numbers: map<int, Int64>,
    unumbers: map<int, UInt64>)

  // ----- what a leaf means

  predicate StrHolds(cmp: StrCmp, pattern: string, value: string) {
    match cmp
    case GoStr(m) => Matches(m, pattern, value)
    case CmpExists => true
    case CmpOther => false
  }

  function NumResult(cmp: NumCmp, policy: int, workload: int): Result {
    match cmp
    case GoNum(r) => FromBool(Holds(r, policy, workload))
    case NumOther => Abstain
  }

  function LabelResult(cmp: StrCmp, want: string, got: Option<string>): Result {
    if cmp == CmpExists then FromBool(got.Some?)
    else if got.None? then False
    else FromBool(StrHolds(cmp, want, got.value))
  }

  function Lookup<V>(m: map<string, V>, k: string): Option<V> {
    if k in m then Some(m[k]) else None
  }

  function StringLeafValue(id: int, key: string, cmp: StrCmp, str: string, ctx: Context): Result {
    if id == ALWAYS_TRUE then True
    else if id == ALWAYS_FALSE then False
    else if id == ALWAYS_ABSTAIN then Abstain
    else if IsLabelId(id) then
      if id !in ctx.labels then Abstain else LabelResult(cmp, str, Lookup(ctx.labels[id], key))
    else if IsListId(id) then
      if id !in ctx.lists then Abstain
      else FromBool(exists v :: v in ctx.lists[id] && StrHolds(cmp, str, v))
    else
      if id !in ctx.strings then Abstain else FromBool(StrHolds(cmp, str, ctx.strings[id]))
  }

  function LeafValue(e: Evaluator, ctx: Context): Result {
    match e
    case StringEval(id, key, cmp, str) => StringLeafValue(id, key, cmp, str, ctx)
    case NumericEval(id, cmp, num) =>
      if id !in ctx.numbers || ctx.numbers[id] == NUM_NOT_SET then Abstain
      else NumResult(cmp, num, ctx.numbers[id])
    case UNumericEval(id, cmp, unum) =>
      if id !in ctx.unumbers || ctx.unumbers[id] == UNUM_NOT_SET then Abstain
      else NumResult(cmp, unum, ctx.unumbers[id])
    case OtherEval => Abstain
  }

  function Under(ctx: Context): Evaluator -> Result {
    e => LeafValue(e, ctx)
  }

  // ----- the evaluation itself

  method CompareString(cmp: StrCmp, pattern: string, value: string) returns (r: bool)
    ensures r == StrHolds(cmp, pattern, value)
  {
    match cmp
    case GoStr(Exact) => r := pattern == value;
    case GoStr(Prefix) => r := HasPrefix(value, pattern);
    case GoStr(Suffix) => r := HasSuffix(value, pattern);
    case GoStr(Contains) => r := HasSubstring(value, pattern);
    case GoStr(Wildcard) =>
      var answer, _ := Glob.WildcardMatch(pattern, value);
      r := answer;
    case CmpExists => r := true;
    case CmpOther => r := false;
  }

  method CompareNumeric(cmp: NumCmp, policy: int, workload: int) returns (r: Result)
    ensures r == NumResult(cmp, policy, workload)
  {
    match cmp
    case GoNum(Eq) => r := FromBool(policy == workload);
    case GoNum(Gt) => r := FromBool(policy > workload);
    case GoNum(Gte) => r := FromBool(policy >= workload);
    case GoNum(Lt) => r := FromBool(policy < workload);
    case GoNum(Lte) => r := FromBool(policy <= workload);
    case NumOther => r := Abstain;
  }

  method EvalString(id: int, key: string, cmp: StrCmp, str: string, ctx: Context) returns (r: Result)
    ensures r == StringLeafValue(id, key, cmp, str, ctx)
  {
    if IsConstantId(id) {
      return if id == ALWAYS_TRUE then True else if id == ALWAYS_FALSE then False else Abstain;
    }
    if IsLabelId(id) {
      if id !in ctx.labels {
        return Abstain;
      }
      var got := Lookup(ctx.labels[id], key);
      if cmp == CmpExists {
        return FromBool(got.Some?);
      }
      if got.None? {
        return False;
      }
      var hit := CompareString(cmp, str, got.value);
      return FromBool(hit);
    }
    if IsListId(id) {
      if id !in ctx.lists {
        return Abstain;
      }
      var values := ctx.lists[id];
      for i := 0 to |values|
        invariant forall j :: 0 <= j < i ==> !StrHolds(cmp, str, values[j])
      {
        var hit := CompareString(cmp, str, values[i]);
        if hit {
          return True;
        }
      }
      return False;
    }
    if id !in ctx.strings {
      return Abstain;
    }
    var hit := CompareString(cmp, str, ctx.strings[id]);
    r := FromBool(hit);
  }

  method EvalLeaf(e: Evaluator, ctx: Context) returns (r: Result)
    ensures r == LeafValue(e, ctx)
  {
    match e
    case StringEval(id, key, cmp, str) => r := EvalString(id, key, cmp, str, ctx);
    case NumericEval(id, cmp, num) =>
      if id !in ctx.numbers || ctx.numbers[id] == NUM_NOT_SET {
        return Abstain;
      }
      r := CompareNumeric(cmp, num, ctx.numbers[id]);
    case UNumericEval(id, cmp, unum) =>
      if id !in ctx.unumbers || ctx.unumbers[id] == UNUM_NOT_SET {
        return Abstain;
      }
      r := CompareNumeric(cmp, unum, ctx.unumbers[id]);
    case OtherEval => r := Abstain;
  }

  // ----- what leaves come to

  /** A list is the OR over its elements, each compared on its own. */
  lemma ListIsAnyElement(id: int, key: string, cmp: StrCmp, str: string, ctx: Context, values: seq<string>)
    requires IsListId(id)
    ensures var leaf := StringEval(id, key, cmp, str);
            var alone := seq(|values|, i requires 0 <= i < |values| =>
              LeafValue(leaf, ctx.(lists := ctx.lists[id := [values[i]]])));
            && LeafValue(leaf, ctx.(lists := ctx.lists[id := values])) == AnyOf(alone)
            && forall i :: 0 <= i < |values| ==>
                 alone[i] ==
                 match cmp
                 case GoStr(m) => FromBool(Matches(m, str, values[i]))
                 case CmpExists => True
                 case CmpOther => False
  {
    var leaf := StringEval(id, key, cmp, str);
    var alone := seq(|values|, i requires 0 <= i < |values| =>
      LeafValue(leaf, ctx.(lists := ctx.lists[id := [values[i]]])));
    forall i | 0 <= i < |values| ensures alone[i] == FromBool(StrHolds(cmp, str, values[i])) {
      var one := ctx.(lists := ctx.lists[id := [values[i]]]);
      assert one.lists[id] == [values[i]];
      assert values[i] in one.lists[id];
    }
    if v :| v in values && StrHolds(cmp, str, v) {
      var i :| 0 <= i < |values| && values[i] == v;
      assert alone[i] == True;
    }
  }

  /** A numeric leaf compares its own value, on the left, with the fact, and abstains without one. */
  lemma NumericLeafMeans(id: int, relation: Relation, x: Int64, ctx: Context)
    ensures LeafValue(NumericEval(id, GoNum(relation), x), ctx) ==
            if id !in ctx.numbers || ctx.numbers[id] == NUM_NOT_SET then Abstain
            else
              match relation
              case Eq => FromBool(x == ctx.numbers[id])
              case Gt => FromBool(x > ctx.numbers[id])
              case Gte => FromBool(x >= ctx.numbers[id])
              case Lt => FromBool(x < ctx.numbers[id])
              case Lte => FromBool(x <= ctx.numbers[id])
  {
  }

  /** The short-circuiting walk finds the full strong-Kleene value of the tree. */
  method EvaluateAt(n: GoNode, ctx: Context, depth: nat) returns (r: Result)
    ensures r == Value(n, Under(ctx), depth)
    decreases n
  {
    if depth > MAX_DEPTH {
      return Abstain;
    }
    match n
    case Blank =>
      r := Abstain;
    case Leaf(e) =>
      r := EvalLeaf(e, ctx);
    case Node(op, cs) =>
      ghost var rs := Values(cs, Under(ctx), depth + 1);
      ValueOfNode(op, cs, Under(ctx), depth);
      match op {
        case OpNot =>
          if |cs| != 1 {
            return Abstain;
          }
          var c := EvaluateAt(cs[0], ctx, depth + 1);
          r := DoNot(c);
        case OpOr =>
          r := False;
          for i := 0 to |cs|
            invariant r == AnyOf(rs[..i]) && r != True
          {
            var c := EvaluateAt(cs[i], ctx, depth + 1);
            AnyOfExtend(rs[..i], rs[i]);
            assert rs[..i + 1] == rs[..i] + [rs[i]];
            r := DoOr(r, c);
            if r == True {
              assert forall x :: x in rs[..i + 1] ==> x in rs;
              return r;
            }
          }
          assert rs[..|cs|] == rs;
        case OpAnd =>
          r := True;
          for i := 0 to |cs|
            invariant r == AllOf(rs[..i]) && r != False
          {
            var c := EvaluateAt(cs[i], ctx, depth + 1);
            AllOfExtend(rs[..i], rs[i]);
            assert rs[..i + 1] == rs[..i] + [rs[i]];
            r := DoAnd(r, c);
            if r == False {
              assert forall x :: x in rs[..i + 1] ==> x in rs;
              return r;
            }
          }
          assert rs[..|cs|] == rs;
        case OpUnknown =>
          r := Abstain;
      }
  }

  method Evaluate(n: GoNode, ctx: Context) returns (r: Result)
    ensures r == Value(n, Under(ctx), 0)
  {
    r := EvaluateAt(n, ctx, 0);
  }

  // ----- more facts

  /** Whatever a knows, b knows too. A number equal to its "not set" value is not known. */
  ghost predicate KnowsMore(a: Context, b: Context) {
    && (forall id :: id in a.strings ==> id in b.strings && b.strings[id] == a.strings[id])
    && (forall id :: id in a.labels ==> id in b.labels && b.labels[id] == a.labels[id])
    && (forall id :: id in a.lists ==> id in b.lists && b.lists[id] == a.lists[id])
    && (forall id :: id in a.numbers && a.numbers[id] != NUM_NOT_SET ==>
                       id in b.numbers && b.numbers[id] == a.numbers[id])
    && (forall id :: id in a.unumbers && a.unumbers[id] != UNUM_NOT_SET ==>
                       id in b.unumbers && b.unumbers[id] == a.unumbers[id])
  }

  lemma LeafKnowsMore(e: Evaluator, a: Context, b: Context)
    requires KnowsMore(a, b)
    ensures Below(LeafValue(e, a), LeafValue(e, b))
  {
  }

  /** Supplying facts that were missing never flips a TRUE or a FALSE, in any tree. */
  lemma MoreFactsNeverFlip(n: GoNode, a: Context, b: Context, depth: nat)
    requires KnowsMore(a, b)
    ensures Below(Value(n, Under(a), depth), Value(n, Under(b), depth))
  {
    forall e ensures Below(Under(a)(e), Under(b)(e)) {
      LeafKnowsMore(e, a, b);
    }
    ValuationMonotone(n, Under(a), Under(b), depth);
  }

  /** Adding a key to a label source that was present can flip a result: absence of a key is FALSE. */
  lemma NewLabelCanFlip() returns (n: GoNode, a: Context, b: Context)
    ensures b == a.(labels := map[POD_LABEL := map["k" := "v"]]) && a.labels == map[POD_LABEL := map[]]
    ensures Value(n, Under(a), 0) == False && Value(n, Under(b), 0) == True
  {
    n := Leaf(StringEval(POD_LABEL, "k", CmpExists, ""));
    a := Context(map[], map[POD_LABEL := map[]], map[], map[], map[]);
    b := a.(labels := map[POD_LABEL := map["k" := "v"]]);
    assert Under(a)(n.leaf) == False;
    assert Under(b)(n.leaf) == True;
  }

  // ----- the constructors of rule trees

  function AlwaysLeaf(id: int): GoNode {
    Leaf(StringEval(id, "", GoStr(Exact), ""))
  }

  function AndOf(conds: seq<GoNode>): GoNode {
    if |conds| == 0 then AlwaysLeaf(ALWAYS_TRUE)
    else if |conds| == 1 then conds[0]
    else Node(OpAnd, conds)
  }

  function OrOf(conds: seq<GoNode>): GoNode {
    if |conds| == 0 then AlwaysLeaf(ALWAYS_FALSE)
    else if |conds| == 1 then conds[0]
    else Node(OpOr, conds)
  }

  lemma ValuesFit(cs: seq<GoNode>, ctx: Context, depth: nat, n: nat)
    requires forall i :: 0 <= i < |cs| ==> Within(cs[i], n)
    requires depth + 1 + n <= MAX_DEPTH
    ensures Values(cs, Under(ctx), depth) == Values(cs, Under(ctx), depth + 1)
  {
    var low, high := Values(cs, Under(ctx), depth + 1), Values(cs, Under(ctx), depth);
    forall i | 0 <= i < |cs| ensures low[i] == high[i] {
      CapIsExact(cs[i], Under(ctx), depth, n);
      CapIsExact(cs[i], Under(ctx), depth + 1, n);
    }
  }

  /** Whatever the number of conditions, And and Or mean the fold of all of them, above the cap. */
  lemma ConstructorsMeanFolds(conds: seq<GoNode>, ctx: Context, depth: nat, n: nat)
    requires forall i :: 0 <= i < |conds| ==> Within(conds[i], n)
    requires depth + 1 + n <= MAX_DEPTH
    ensures Value(AndOf(conds), Under(ctx), depth) == AllOf(Values(conds, Under(ctx), depth))
    ensures Value(OrOf(conds), Under(ctx), depth) == AnyOf(Values(conds, Under(ctx), depth))
  {
    var rs := Values(conds, Under(ctx), depth);
    if |conds| == 1 {
      assert rs == [Value(conds[0], Under(ctx), depth)];
    } else {
      ValuesFit(conds, ctx, depth, n);
      ValueOfNode(OpAnd, conds, Under(ctx), depth);
      ValueOfNode(OpOr, conds, Under(ctx), depth);
    }
  }
}
