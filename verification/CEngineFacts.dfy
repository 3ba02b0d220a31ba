/** What the remembered error and the shape of a run mean for the results of the C engine. */
module CEngineFacts {
  import opened Tristate
  import opened RuleTree
  import opened Comparators
  import opened EvaluatorIds
  import opened Wire
  import opened EvalContext
  import opened Observation
  import opened CEngine
  import Glob

  // ----- what a leaf comes to

  /** Text a record reports. */
  function Text(s: Option<CString>): Option<string> {
    if s.None? then None else Some(s.value)
  }

  /**
   A string leaf, with an id in range and no error remembered: the evaluator registered for the id
   is given the leaf's value and comparator and the fact of the id, and without one the comparison
   is made. The record reports what was compared; only the error kept for the id can change.
   */
  lemma StringLeafRuns(c: Tables, id: int, cmp: StrCmp, policy: Option<CString>, depth: nat)
    requires c.Valid() && c.error == ESUCCESS && StrIdInRange(id) && depth <= MAX_DEPTH
    ensures var s, entry := Run(c, Leaf(StrEvaluator(id, cmp, policy)), depth), c.strs[id];
            var fact, given := entry.value, policy.Some? && entry.value.Some?;
            && s.visits == [Visit(Record(KindStr, s.result, depth, Strings(id, cmp, Text(policy), Text(fact))), [])]
            && (entry.fn.Some? ==> s.result == entry.fn.value(policy, cmp, fact, id).result)
            && (entry.fn.None? ==>
                  s.result ==
                  match cmp
                  case Str(Exact) => if given then FromBool(fact.value == policy.value) else Abstain
                  case Str(Prefix) => if given then FromBool(policy.value <= fact.value) else Abstain
                  case Str(Suffix) => if given then FromBool(HasSuffix(fact.value, policy.value)) else Abstain
                  case Str(Contains) => if given then FromBool(HasSubstring(fact.value, policy.value)) else Abstain
                  case Str(Wildcard) => if given then FromBool(Glob.WildcardMatches(policy.value, fact.value)) else Abstain
                  case _ => Abstain)
            && var unknown := if entry.fn.Some? then entry.fn.value(policy, cmp, fact, id).unknownCmp
                              else given && cmp.StrFuture?;
               s.ctx == if unknown then c.(strs := c.strs[id := entry.(error := EUNKNOWN_CMP)]) else c
  {
  }

  /** The same for a numeric leaf, which abstains when the fact is not set. */
  lemma NumericLeafRuns(c: Tables, id: int, cmp: NumCmp, policy: Int64, depth: nat)
    requires c.Valid() && c.error == ESUCCESS && NumIdInRange(id) && depth <= MAX_DEPTH
    ensures var s, entry := Run(c, Leaf(NumEvaluator(id, cmp, policy)), depth), c.nums[id];
            var fact := entry.value;
            && s.visits == [Visit(Record(KindNum, s.result, depth, Numbers(id, cmp, policy, fact)), [])]
            && s.result == (
                 if fact == NUM_NOT_SET then Abstain
                 else if entry.fn.Some? then entry.fn.value(policy, cmp, fact, id).result
                 else
                   match cmp
                   case Num(Eq) => FromBool(policy == fact)
                   case Num(Gt) => FromBool(policy > fact)
                   case Num(Gte) => FromBool(policy >= fact)
                   case Num(Lt) => FromBool(policy < fact)
                   case Num(Lte) => FromBool(policy <= fact)
                   case _ => Abstain)
            && var unknown := if entry.fn.Some? then entry.fn.value(policy, cmp, fact, id).unknownCmp
                              else cmp.NumFuture?;
               s.ctx == if fact != NUM_NOT_SET && unknown
                        then c.(nums := c.nums[id := entry.(error := EUNKNOWN_CMP)]) else c
  {
  }

  /** And for an unsigned one. */
  lemma UNumericLeafRuns(c: Tables, id: int, cmp: NumCmp, policy: UInt64, depth: nat)
    requires c.Valid() && c.error == ESUCCESS && NumIdInRange(id) && depth <= MAX_DEPTH
    ensures var s, entry := Run(c, Leaf(UNumEvaluator(id, cmp, policy)), depth), c.unums[id];
            var fact := entry.value;
            && s.visits == [Visit(Record(KindUNum, s.result, depth, Numbers(id, cmp, policy, fact)), [])]
            && s.result == (
                 if fact == UNUM_NOT_SET then Abstain
                 else if entry.fn.Some? then entry.fn.value(policy, cmp, fact, id).result
                 else
                   match cmp
                   case Num(Eq) => FromBool(policy == fact)
                   case Num(Gt) => FromBool(policy > fact)
                   case Num(Gte) => FromBool(policy >= fact)
                   case Num(Lt) => FromBool(policy < fact)
                   case Num(Lte) => FromBool(policy <= fact)
                   case _ => Abstain)
            && var unknown := if entry.fn.Some? then entry.fn.value(policy, cmp, fact, id).unknownCmp
                              else cmp.NumFuture?;
               s.ctx == if fact != UNUM_NOT_SET && unknown
                        then c.(unums := c.unums[id := entry.(error := EUNKNOWN_CMP)]) else c
  {
  }

  // ----- the remembered error

  lemma FreeIsKnowledge(c: Tables, d: Tables)
    requires SameKnowledge(c, d)
    ensures Free(c) == Free(d)
  {
  }

  /** A run changes no fact and no registration, and its ids decide whether it sets the error. */
  lemma {:induction false} RunKeepsKnowledge(c: Tables, t: WireNode, depth: nat)
    requires c.Valid()
    ensures var d := Run(c, t, depth).ctx;
            && SameKnowledge(c, d)
            && (d.error == c.error || d.error == EIX_OVERFLOW)
            && (IdsInRange(t) ==> d.error == c.error)
    decreases t, 1
  {
    if depth > MAX_DEPTH {
    } else {
      match t
      case Blank =>
      case Leaf(e) => LeafStepFacts(c, e);
      case Node(op, cs) =>
        if op != OpNot {
          RunChildrenKeepKnowledge(c, op, Initial(op), cs, depth + 1);
        } else if |cs| == 1 {
          RunKeepsKnowledge(c, cs[0], depth + 1);
        }
    }
  }

  lemma {:induction false} RunChildrenKeepKnowledge(c: Tables, op: Op, acc: Result, cs: seq<WireNode>, depth: nat)
    requires c.Valid()
    ensures var d := RunChildren(c, op, acc, cs, depth).ctx;
            && SameKnowledge(c, d)
            && (d.error == c.error || d.error == EIX_OVERFLOW)
            && ((forall i :: 0 <= i < |cs| ==> IdsInRange(cs[i])) ==> d.error == c.error)
    decreases cs
  {
    if cs == [] {
    } else {
      var child := Run(c, cs[0], depth);
      RunKeepsKnowledge(c, cs[0], depth);
      var r := DoOper(op, acc, child.result);
      if !Decides(op, r) {
        RunChildrenKeepKnowledge(child.ctx, op, r, cs[1..], depth);
      }
    }
  }

  /** The value of a composite whose first children already gave acc. */
  function Total(op: Op, acc: Result, rs: seq<Result>): Result {
    match op
    case OpAnd => DoAnd(acc, AllOf(rs))
    case OpOr => DoOr(acc, AnyOf(rs))
    case _ => if rs == [] then acc else Abstain
  }

  lemma TotalStep(op: Op, acc: Result, rs: seq<Result>)
    requires rs != [] && op != OpNot
    ensures Total(op, acc, rs) == Total(op, DoOper(op, acc, rs[0]), rs[1..])
    ensures Decides(op, DoOper(op, acc, rs[0])) ==> Total(op, acc, rs) == DoOper(op, acc, rs[0])
  {
    assert rs == [rs[0]] + rs[1..];
    assert forall x :: x in rs <==> x == rs[0] || x in rs[1..];
  }

  /** r is what is left of v when errors are remembered, and all of it if none is in the end. */
  predicate LeftOf(r: Result, v: Result, error: nat) {
    Below(r, v) && (error == ESUCCESS ==> r == v)
  }

  lemma {:induction false} RunExplained(c: Tables, t: WireNode, depth: nat)
    requires c.Valid()
    ensures var s := Run(c, t, depth);
            LeftOf(s.result, Value(t, Free(c), depth), s.ctx.error)
    decreases t, 1
  {
    if depth > MAX_DEPTH {
    } else {
      match t
      case Blank =>
      case Leaf(e) => LeafStepFacts(c, e);
      case Node(op, cs) =>
        ValueOfNode(op, cs, Free(c), depth);
        if op != OpNot {
          RunChildrenExplained(c, op, Initial(op), Initial(op), cs, depth + 1);
        } else if |cs| == 1 {
          RunExplained(c, cs[0], depth + 1);
        }
    }
  }

  lemma {:induction false} RunChildrenExplained(
    c: Tables, op: Op, acc: Result, free: Result, cs: seq<WireNode>, depth: nat)
    requires c.Valid() && op != OpNot && LeftOf(acc, free, c.error)
    ensures var s := RunChildren(c, op, acc, cs, depth);
            LeftOf(s.result, Total(op, free, Values(cs, Free(c), depth)), s.ctx.error)
    decreases cs
  {
    if cs == [] {
    } else {
      var rs := Values(cs, Free(c), depth);
      var child := Run(c, cs[0], depth);
      RunKeepsKnowledge(c, cs[0], depth);
      FreeIsKnowledge(c, child.ctx);
      RunExplained(c, cs[0], depth);
      TotalStep(op, free, rs);
      var r := DoOper(op, acc, child.result);
      if !Decides(op, r) {
        assert rs[1..] == Values(cs[1..], Free(child.ctx), depth);
        RunChildrenExplained(child.ctx, op, r, DoOper(op, free, rs[0]), cs[1..], depth);
        RunChildrenKeepKnowledge(child.ctx, op, r, cs[1..], depth);
      }
    }
  }

  /** A remembered error only loses information, whatever the ids and the evaluators are. */
  lemma StickyErrorOnlyLoses(c: Tables, t: WireNode, depth: nat)
    requires c.Valid()
    ensures Below(Run(c, t, depth).result, Value(t, Free(c), depth))
  {
    RunExplained(c, t, depth);
  }

  /** If no error is remembered at the end, none silenced anything: the result is the real one. */
  lemma NoErrorMeansExact(c: Tables, t: WireNode, depth: nat)
    requires c.Valid() && Run(c, t, depth).ctx.error == ESUCCESS
    ensures Run(c, t, depth).result == Value(t, Free(c), depth)
  {
    RunExplained(c, t, depth);
  }

  /** With every id in range no error appears, and the result is the real one. */
  lemma IdsInRangeMeansExact(c: Tables, t: WireNode, depth: nat)
    requires c.Valid() && c.error == ESUCCESS && IdsInRange(t)
    ensures Run(c, t, depth).ctx.error == ESUCCESS
    ensures Run(c, t, depth).result == Value(t, Free(c), depth)
  {
    RunKeepsKnowledge(c, t, depth);
    RunExplained(c, t, depth);
  }

  /** The result and the visits depend on nothing a previous evaluation may have left but the error. */
  lemma {:induction false} RunForgetsErrors(c: Tables, d: Tables, t: WireNode, depth: nat)
    requires SameKnowledge(c, d) && c.error == d.error
    ensures var r, s := Run(c, t, depth), Run(d, t, depth);
            r.result == s.result && r.visits == s.visits
            && SameKnowledge(r.ctx, s.ctx) && r.ctx.error == s.ctx.error
    decreases t, 1
  {
    if depth > MAX_DEPTH {
    } else {
      match t
      case Blank => FactsAreKnowledge(c, d);
      case Leaf(e) =>
        FactsAreKnowledge(c, d);
        LeafStepFacts(c, e);
        LeafStepFacts(d, e);
        FactsAreKnowledge(LeafStep(c, e).1, LeafStep(d, e).1);
      case Node(op, cs) =>
        if op == OpNot {
          if |cs| == 1 {
            RunForgetsErrors(c, d, cs[0], depth + 1);
          }
        } else {
          RunChildrenForgetsErrors(c, d, op, Initial(op), cs, depth + 1);
        }
    }
  }

  lemma {:induction false} RunChildrenForgetsErrors(
    c: Tables, d: Tables, op: Op, acc: Result, cs: seq<WireNode>, depth: nat)
    requires SameKnowledge(c, d) && c.error == d.error
    ensures var r, s := RunChildren(c, op, acc, cs, depth), RunChildren(d, op, acc, cs, depth);
            r.result == s.result && r.visits == s.visits
            && SameKnowledge(r.ctx, s.ctx) && r.ctx.error == s.ctx.error
    decreases cs
  {
    if cs == [] {
    } else {
      RunForgetsErrors(c, d, cs[0], depth);
      var x, y := Run(c, cs[0], depth), Run(d, cs[0], depth);
      var r := DoOper(op, acc, x.result);
      if !Decides(op, r) {
        RunChildrenForgetsErrors(x.ctx, y.ctx, op, r, cs[1..], depth);
      }
    }
  }

  lemma FactsAreKnowledge(c: Tables, d: Tables)
    requires SameKnowledge(c, d)
    ensures forall id :: c.StrParam(id) == d.StrParam(id)
    ensures forall id :: c.NumParam(id) == d.NumParam(id)
    ensures forall id :: c.UNumParam(id) == d.UNumParam(id)
    ensures forall id :: 0 <= id < STR_EVAL_COUNT ==> c.strs[id].fn == d.strs[id].fn
    ensures forall id :: 0 <= id < NUM_EVAL_COUNT ==> c.nums[id].fn == d.nums[id].fn
    ensures forall id :: 0 <= id < NUM_EVAL_COUNT ==> c.unums[id].fn == d.unums[id].fn
    ensures forall id :: 0 <= id < ACTIONS_COUNT ==> c.actions[id].fn == d.actions[id].fn
  {
    var k, l := c.Knowledge(), d.Knowledge();
    forall id | 0 <= id < STR_EVAL_COUNT
      ensures c.strs[id].fn == d.strs[id].fn && c.strs[id].value == d.strs[id].value
    {
      assert k.strs[id] == l.strs[id];
    }
    forall id | 0 <= id < NUM_EVAL_COUNT
      ensures c.nums[id].fn == d.nums[id].fn && c.nums[id].value == d.nums[id].value
    {
      assert k.nums[id] == l.nums[id];
    }
    forall id | 0 <= id < NUM_EVAL_COUNT
      ensures c.unums[id].fn == d.unums[id].fn && c.unums[id].value == d.unums[id].value
    {
      assert k.unums[id] == l.unums[id];
    }
    forall id | 0 <= id < ACTIONS_COUNT ensures c.actions[id].fn == d.actions[id].fn {
      assert k.actions[id] == l.actions[id];
    }
  }

  /** The C engine, too, ignores the order of children, as long as all the ids are in range. */
  lemma {:induction false} OrderIsIrrelevantInRange(c: Tables, t: WireNode, u: WireNode)
    requires c.Valid() && c.error == ESUCCESS && Shuffled(t, u) && IdsInRange(t) && IdsInRange(u)
    ensures Run(c, t, 0).result == Run(c, u, 0).result
  {
    IdsInRangeMeansExact(c, t, 0);
    IdsInRangeMeansExact(c, u, 0);
    OrderIsIrrelevant(t, u, Free(c), 0);
  }

  /** The valuation under which every leaf abstains. */
  function Silent(): Evaluator -> Result {
    _ => Abstain
  }

  /** Once an error is remembered, no leaf of whatever is run speaks, and the error stays. */
  lemma {:induction false} ErrorSilences(c: Tables, t: WireNode, depth: nat)
    requires c.Valid() && c.error != ESUCCESS
    ensures Run(c, t, depth).result == Value(t, Silent(), depth)
    ensures Run(c, t, depth).ctx.error != ESUCCESS
    decreases t, 1
  {
    if depth > MAX_DEPTH {
    } else {
      match t
      case Blank =>
      case Leaf(e) => LeafStepFacts(c, e);
      case Node(op, cs) =>
        ValueOfNode(op, cs, Silent(), depth);
        if op != OpNot {
          ErrorSilencesChildren(c, op, Initial(op), cs, depth + 1);
        } else if |cs| == 1 {
          ErrorSilences(c, cs[0], depth + 1);
        }
    }
  }

  lemma {:induction false} ErrorSilencesChildren(c: Tables, op: Op, acc: Result, cs: seq<WireNode>, depth: nat)
    requires c.Valid() && c.error != ESUCCESS && op != OpNot
    ensures RunChildren(c, op, acc, cs, depth).result == Total(op, acc, Values(cs, Silent(), depth))
    ensures RunChildren(c, op, acc, cs, depth).ctx.error != ESUCCESS
    decreases cs
  {
    if cs == [] {
    } else {
      var rs := Values(cs, Silent(), depth);
      var child := Run(c, cs[0], depth);
      ErrorSilences(c, cs[0], depth);
      TotalStep(op, acc, rs);
      var r := DoOper(op, acc, child.result);
      if !Decides(op, r) {
        assert rs[1..] == Values(cs[1..], Silent(), depth);
        ErrorSilencesChildren(child.ctx, op, r, cs[1..], depth);
      }
    }
  }

  /**
   A leaf with an id out of range silences every leaf after it: the siblings that follow it in any
   composite, with all that is under them, and all that is run after that composite.
   */
  lemma OutOfRangeSilences(c: Tables, op: Op, acc: Result, bad: Evaluator, cs: seq<WireNode>, depth: nat)
    requires c.Valid() && !IdInRange(bad) && op != OpNot && depth <= MAX_DEPTH && !Decides(op, acc)
    ensures var s := RunChildren(c, op, acc, [Leaf(bad)] + cs, depth);
            && s.result == Total(op, DoOper(op, acc, Abstain), Values(cs, Silent(), depth))
            && s.ctx.error != ESUCCESS
  {
    var all := [Leaf(bad)] + cs;
    assert all[1..] == cs;
    LeafStepFacts(c, bad);
    var silenced := Run(c, all[0], depth);
    assert silenced.result == Abstain && silenced.ctx.error == EIX_OVERFLOW;
    ErrorSilencesChildren(silenced.ctx, op, DoOper(op, acc, Abstain), cs, depth);
  }

  /** A context in which every evaluator function says TRUE and every fact is set. */
  function Assenting(): (c: Tables)
    ensures c.Valid()
  {
    var yes := Verdict(True, false);
    var e := EmptyTables();
    e.(
      strs := seq(STR_EVAL_COUNT, _ => StrEntry(Some((_, _, _, _) => yes), None, ESUCCESS)),
      nums := seq(NUM_EVAL_COUNT, _ => NumEntry(Some((_, _, _, _) => yes), 0, ESUCCESS)),
      unums := seq(NUM_EVAL_COUNT, _ => UNumEntry(Some((_, _, _, _) => yes), 0, ESUCCESS)))
  }

  lemma AssentingAssents(good: Evaluator, depth: nat)
    requires IdInRange(good) && !good.NoEvaluator? && depth <= MAX_DEPTH
    ensures Run(Assenting(), Leaf(good), depth).result == True
  {
  }

  /** So order does matter: any leaf with an id out of range can silence any leaf that could speak. */
  lemma OrderMattersOutOfRange(good: Evaluator, bad: Evaluator) returns (c: Tables)
    requires IdInRange(good) && !good.NoEvaluator? && !IdInRange(bad)
    ensures c.Valid() && c.error == ESUCCESS
    ensures Shuffled(Node(OpOr, [Leaf(good), Leaf(bad)]), Node(OpOr, [Leaf(bad), Leaf(good)]))
    ensures Run(c, Node(OpOr, [Leaf(good), Leaf(bad)]), 0).result == True
    ensures Run(c, Node(OpOr, [Leaf(bad), Leaf(good)]), 0).result == Abstain
  {
    c := Assenting();
    SwapIsShuffle(Leaf(good), Leaf(bad));
    AssentingAssents(good, 1);
    assert RunChildren(c, OpOr, False, [Leaf(good), Leaf(bad)], 1).result == True;
    BadFirst(c, bad, good);
  }

  lemma BadFirst(c: Tables, bad: Evaluator, good: Evaluator)
    requires c.Valid() && !IdInRange(bad)
    ensures Run(c, Node(OpOr, [Leaf(bad), Leaf(good)]), 0).result == Abstain
  {
    var leaves: seq<WireNode> := [Leaf(bad), Leaf(good)];
    assert leaves == [Leaf(bad)] + [Leaf(good)];
    OutOfRangeSilences(c, OpOr, False, bad, [Leaf(good)], 1);
    assert Values([Leaf(good)], Silent(), 1) == [Abstain];
    assert Run(c, Node(OpOr, leaves), 0).result == RunChildren(c, OpOr, False, leaves, 1).result;
  }

  lemma SwapIsShuffle(x: WireNode, y: WireNode)
    requires x.Leaf? && y.Leaf?
    ensures Shuffled(Node(OpOr, [x, y]), Node(OpOr, [y, x]))
  {
    assert Inverse([1, 0], [1, 0], 2);
    assert forall i :: 0 <= i < 2 ==> Shuffled([x, y][i], [y, x][[1, 0][i]]);
  }

  // ----- the shape of a run

  function ResultsOf(kids: seq<Visit>): (rs: seq<Result>)
    ensures |rs| == |kids|
  {
    seq(|kids|, i requires 0 <= i < |kids| => kids[i].record.result)
  }

  /**
   The visit of t tells how its result came about: that of a composite above the depth cap is
   the combination of the results of its visited children.
   */
  ghost predicate Faithful(t: WireNode, v: Visit, depth: nat)
    decreases t, 1
  {
    && depth <= MAX_DEPTH && v.record.depth == depth && v.record.kind == KindOf(t)
    && match t
       case Blank => v.kids == [] && v.record.result == Abstain
       case Leaf(e) => v.kids == [] && (e.NoEvaluator? ==> v.record.result == Abstain)
       case Node(op, cs) =>
         && FaithfulKids(op, cs, v.kids, depth + 1)
         && v.record.result ==
            if depth == MAX_DEPTH && op != OpNot && cs != [] then Abstain else Combine(op, ResultsOf(v.kids))
  }

  /**
   The visited children are the first ones, in order. One is missing only when the children are
   below the depth cap, when a NOT has not one child, or when the last one visited was decisive.
   */
  ghost predicate FaithfulKids(op: Op, cs: seq<WireNode>, kids: seq<Visit>, depth: nat)
    decreases cs, 0
  {
    && |kids| <= |cs| && (op == OpNot && |cs| != 1 ==> kids == [])
    && (forall i :: 0 <= i < |kids| ==> Faithful(cs[i], kids[i], depth))
    && (|kids| < |cs| ==>
          || depth > MAX_DEPTH || (op == OpNot && |cs| != 1)
          || (kids != [] && Decides(op, kids[|kids| - 1].record.result)))
    && (forall i :: 0 <= i < |kids| - 1 ==> !Decides(op, kids[i].record.result))
  }

  lemma FaithfulNode(t: WireNode, v: Visit, depth: nat)
    requires Faithful(t, v, depth) && t.Node?
    ensures FaithfulKids(t.op, t.children, v.kids, depth + 1)
  {
  }

  lemma {:induction false} RunIsFaithful(c: Tables, t: WireNode, depth: nat)
    requires c.Valid() && depth <= MAX_DEPTH
    ensures var s := Run(c, t, depth);
            && |s.visits| == 1 && s.visits[0].record.result == s.result
            && Faithful(t, s.visits[0], depth)
    decreases t, 1
  {
    if !t.Node? {
    } else {
      RunCompositeIsFaithful(c, t, depth);
    }
  }

  lemma {:induction false} RunCompositeIsFaithful(c: Tables, t: WireNode, depth: nat)
    requires c.Valid() && t.Node? && depth <= MAX_DEPTH
    ensures var s := RunComposite(c, t, depth);
            && FaithfulKids(t.op, t.children, s.visits, depth + 1)
            && s.result == if depth == MAX_DEPTH && t.op != OpNot && t.children != [] then Abstain
                           else Combine(t.op, ResultsOf(s.visits))
    decreases t, 0
  {
    var s, op, cs := RunComposite(c, t, depth), t.op, t.children;
    if depth == MAX_DEPTH && op != OpNot {
      RunBelowTheCap(c, op, Initial(op), cs, depth + 1);
    } else if op != OpNot {
      RunChildrenAreFaithful(c, op, Initial(op), cs, depth + 1);
    } else if depth < MAX_DEPTH && |cs| == 1 {
      RunIsFaithful(c, cs[0], depth + 1);
      assert ResultsOf(s.visits) == [s.visits[0].record.result];
      assert s.result == DoNot(s.visits[0].record.result);
      assert Faithful(cs[0], s.visits[0], depth + 1);
    } else {
      assert s.visits == [] && s.result == Abstain;
    }
  }

  lemma {:induction false} RunBelowTheCap(c: Tables, op: Op, acc: Result, cs: seq<WireNode>, depth: nat)
    requires c.Valid() && depth > MAX_DEPTH && op != OpNot && !Decides(op, acc)
    ensures var s := RunChildren(c, op, acc, cs, depth);
            s.visits == [] && s.result == if cs == [] then acc else Abstain
    decreases cs
  {
    if cs == [] {
    } else {
      RunBelowTheCap(c, op, Abstain, cs[1..], depth);
    }
  }

  lemma {:induction false} RunChildrenAreFaithful(c: Tables, op: Op, acc: Result, cs: seq<WireNode>, depth: nat)
    requires c.Valid() && depth <= MAX_DEPTH && op != OpNot && !Decides(op, acc)
    ensures var s := RunChildren(c, op, acc, cs, depth);
            && FaithfulKids(op, cs, s.visits, depth)
            && s.result == Total(op, acc, ResultsOf(s.visits))
    decreases cs
  {
    if cs == [] {
    } else {
      var child := Run(c, cs[0], depth);
      RunIsFaithful(c, cs[0], depth);
      var kid, r := child.visits[0], DoOper(op, acc, child.result);
      assert child.visits == [kid];
      OneKidDecides(op, acc, child.result);
      if Decides(op, r) {
        LastKid(op, acc, cs, kid, depth);
      } else {
        var rest := RunChildren(child.ctx, op, r, cs[1..], depth);
        RunChildrenAreFaithful(child.ctx, op, r, cs[1..], depth);
        FaithfulKidsCons(op, cs, kid, rest.visits, depth);
        ResultsOneMore(op, acc, kid, rest.visits);
      }
    }
  }

  lemma LastKid(op: Op, acc: Result, cs: seq<WireNode>, kid: Visit, depth: nat)
    requires cs != [] && op != OpNot && Faithful(cs[0], kid, depth) && Decides(op, kid.record.result)
    ensures FaithfulKids(op, cs, [kid], depth)
    ensures Total(op, acc, ResultsOf([kid])) == DoOper(op, acc, kid.record.result)
  {
    assert ResultsOf([kid]) == [kid.record.result];
  }

  lemma ResultsOneMore(op: Op, acc: Result, kid: Visit, rest: seq<Visit>)
    requires op != OpNot
    ensures Total(op, acc, ResultsOf([kid] + rest)) == Total(op, DoOper(op, acc, kid.record.result), ResultsOf(rest))
  {
    var rs := ResultsOf([kid] + rest);
    assert rs[1..] == ResultsOf(rest);
    TotalStep(op, acc, rs);
  }

  lemma OneKidDecides(op: Op, acc: Result, r: Result)
    requires !Decides(op, acc) && op != OpNot
    ensures Decides(op, DoOper(op, acc, r)) <==> Decides(op, r)
  {
  }

  lemma FaithfulKidsCons(op: Op, cs: seq<WireNode>, kid: Visit, rest: seq<Visit>, depth: nat)
    requires cs != [] && depth <= MAX_DEPTH && op != OpNot
    requires Faithful(cs[0], kid, depth) && !Decides(op, kid.record.result)
    requires FaithfulKids(op, cs[1..], rest, depth)
    ensures FaithfulKids(op, cs, [kid] + rest, depth)
  {
    var kids := [kid] + rest;
    forall i | 0 <= i < |kids| ensures Faithful(cs[i], kids[i], depth) {
      if i > 0 {
        assert kids[i] == rest[i - 1] && cs[i] == cs[1..][i - 1];
      }
    }
    forall i | 0 <= i < |kids| - 1 ensures !Decides(op, kids[i].record.result) {
      if i > 0 {
        assert kids[i] == rest[i - 1];
      }
    }
  }

  // ----- what the records say

  /** The result that the two values reported by an evaluator node come to. */
  function Reported(r: Record): Result {
    match r.compared
    case Strings(_, Str(m), Some(policy), Some(process)) => FromBool(Matches(m, policy, process))
    case Numbers(_, Num(relation), policy, process) =>
      if process == (if r.kind == KindNum then NUM_NOT_SET else UNUM_NOT_SET) then Abstain
      else FromBool(Holds(relation, policy, process))
    case _ => Abstain
  }

  predicate IsEvaluator(k: Kind) {
    k == KindStr || k == KindNum || k == KindUNum
  }

  /** Every evaluator node in the visits reports values that come to the result it reports. */
  predicate SelfExplaining(visits: seq<Visit>) {
    forall i :: 0 <= i < |visits| ==>
      && (IsEvaluator(visits[i].record.kind) ==> visits[i].record.result == Reported(visits[i].record))
      && SelfExplaining(visits[i].kids)
  }

  /** No evaluator of its own is registered for any id. */
  predicate AllDefaults(c: Tables)
    requires c.Valid()
  {
    && (forall id :: 0 <= id < STR_EVAL_COUNT ==> c.strs[id].fn.None?)
    && (forall id :: 0 <= id < NUM_EVAL_COUNT ==> c.nums[id].fn.None? && c.unums[id].fn.None?)
  }

  lemma LeafIsSelfExplaining(c: Tables, e: Evaluator, depth: nat)
    requires c.Valid() && c.error == ESUCCESS && IdInRange(e) && AllDefaults(c) && depth <= MAX_DEPTH
    ensures SelfExplaining(Run(c, Leaf(e), depth).visits)
  {
    LeafStepFacts(c, e);
    FactsAreKnowledge(c, LeafStep(c, e).1);
  }

  /** With the default evaluators and ids in range, all the records of a run explain their results. */
  lemma {:induction false} RunIsSelfExplaining(c: Tables, t: WireNode, depth: nat)
    requires c.Valid() && c.error == ESUCCESS && IdsInRange(t) && AllDefaults(c)
    ensures SelfExplaining(Run(c, t, depth).visits)
    decreases t, 1
  {
    if depth > MAX_DEPTH {
    } else {
      match t
      case Blank =>
      case Leaf(e) => LeafIsSelfExplaining(c, e, depth);
      case Node(_, _) =>
        CompositeIsSelfExplaining(c, t, depth);
        var s := RunComposite(c, t, depth);
        OneSelfExplaining(Record(KindOf(t), s.result, depth, ComparedBy(s.ctx, t)), s.visits);
    }
  }

  lemma OneSelfExplaining(r: Record, kids: seq<Visit>)
    requires !IsEvaluator(r.kind) && SelfExplaining(kids)
    ensures SelfExplaining([Visit(r, kids)])
  {
  }

  lemma {:induction false} CompositeIsSelfExplaining(c: Tables, t: WireNode, depth: nat)
    requires c.Valid() && c.error == ESUCCESS && t.Node? && IdsInRange(t) && AllDefaults(c)
    ensures SelfExplaining(RunComposite(c, t, depth).visits)
    decreases t, 0
  {
    if t.op != OpNot {
      ChildrenAreSelfExplaining(c, t.op, Initial(t.op), t.children, depth + 1);
    } else if |t.children| == 1 {
      RunIsSelfExplaining(c, t.children[0], depth + 1);
    }
  }

  lemma {:induction false} ChildrenAreSelfExplaining(
    c: Tables, op: Op, acc: Result, cs: seq<WireNode>, depth: nat)
    requires c.Valid() && c.error == ESUCCESS && AllDefaults(c)
    requires forall i :: 0 <= i < |cs| ==> IdsInRange(cs[i])
    ensures SelfExplaining(RunChildren(c, op, acc, cs, depth).visits)
    decreases cs
  {
    if cs == [] {
    } else {
      var child := Run(c, cs[0], depth);
      RunIsSelfExplaining(c, cs[0], depth);
      RunKeepsKnowledge(c, cs[0], depth);
      FactsAreKnowledge(c, child.ctx);
      var r := DoOper(op, acc, child.result);
      if !Decides(op, r) {
        ChildrenAreSelfExplaining(child.ctx, op, r, cs[1..], depth);
        SelfExplainingJoin(child.visits, RunChildren(child.ctx, op, r, cs[1..], depth).visits);
      }
    }
  }

  lemma SelfExplainingJoin(xs: seq<Visit>, ys: seq<Visit>)
    requires SelfExplaining(xs) && SelfExplaining(ys)
    ensures SelfExplaining(xs + ys)
  {
  }
}
