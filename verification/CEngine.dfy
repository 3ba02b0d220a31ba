/** The C engine: evaluation of a rule tree under a context that remembers errors. */
module CEngine {
  import opened Tristate
  import opened RuleTree
  import opened Comparators
  import opened EvaluatorIds
  import opened Wire
  import opened EvalContext
  import opened Observation

  // ----- the default evaluators

  function DefaultStr(policy: Option<CString>, cmp: StrCmp, param: Option<CString>): Verdict {
    if policy.None? || param.None? then Verdict(Abstain, false)
    else
      match cmp
      case Str(m) => Verdict(FromBool(Matches(m, policy.value, param.value)), false)
      case StrUnset => Verdict(Abstain, false)
      case StrFuture => Verdict(Abstain, true)
  }

  function DefaultNum(policy: int, cmp: NumCmp, param: int): Verdict {
    match cmp
    case Num(r) => Verdict(FromBool(Holds(r, policy, param)), false)
    case NumUnset => Verdict(Abstain, false)
    case NumFuture => Verdict(Abstain, true)
  }

  method DefaultStringEvaluator(ctx: EvalCtx, policy: Option<CString>, cmp: StrCmp, param: Option<CString>, id: int)
    returns (r: Result)
    requires ctx.Valid()
    modifies ctx.strs
    ensures r == DefaultStr(policy, cmp, param).result
    ensures ctx.View() == old(ctx.View()).StrFailed(id, DefaultStr(policy, cmp, param).unknownCmp)
  {
    if policy.None? || param.None? {
      return Abstain;
    }
    match cmp
    case Str(Exact) => r := StringEvaluatorExact(policy, param);
    case Str(Prefix) => r := StringEvaluatorPrefix(policy, param);
    case Str(Suffix) => r := StringEvaluatorSuffix(policy, param);
    case Str(Contains) => r := StringEvaluatorContains(policy, param);
    case Str(Wildcard) => r := StringEvaluatorWildcard(policy, param);
    case StrUnset => r := Abstain;
    case StrFuture =>
      ctx.SetStrEvalError(id);
      r := Abstain;
  }

  method DefaultNumericEvaluator(ctx: EvalCtx, policy: Int64, cmp: NumCmp, param: Int64, id: int) returns (r: Result)
    requires ctx.Valid()
    modifies ctx.nums
    ensures r == DefaultNum(policy, cmp, param).result
    ensures ctx.View() == old(ctx.View()).NumFailed(id, DefaultNum(policy, cmp, param).unknownCmp)
  {
    match cmp
    case Num(Eq) => r := if policy == param then True else False;
    case Num(Gt) => r := if policy > param then True else False;
    case Num(Gte) => r := if policy >= param then True else False;
    case Num(Lt) => r := if policy < param then True else False;
    case Num(Lte) => r := if policy <= param then True else False;
    case NumUnset => r := Abstain;
    case NumFuture =>
      ctx.SetNumEvalError(id);
      r := Abstain;
  }

  method DefaultUNumericEvaluator(ctx: EvalCtx, policy: UInt64, cmp: NumCmp, param: UInt64, id: int)
    returns (r: Result)
    requires ctx.Valid()
    modifies ctx.unums
    ensures r == DefaultNum(policy, cmp, param).result
    ensures ctx.View() == old(ctx.View()).UNumFailed(id, DefaultNum(policy, cmp, param).unknownCmp)
  {
    match cmp
    case Num(Eq) => r := if policy == param then True else False;
    case Num(Gt) => r := if policy > param then True else False;
    case Num(Gte) => r := if policy >= param then True else False;
    case Num(Lt) => r := if policy < param then True else False;
    case Num(Lte) => r := if policy <= param then True else False;
    case NumUnset => r := Abstain;
    case NumFuture =>
      ctx.SetUNumEvalError(id);
      r := Abstain;
  }

  // ----- what evaluating one leaf does

  function StrVerdict(entry: StrEntry, e: Evaluator): Verdict
    requires e.StrEvaluator?
  {
    if entry.fn.Some? then entry.fn.value(e.str, e.scmp, entry.value, e.id)
    else DefaultStr(e.str, e.scmp, entry.value)
  }

  function NumVerdict(entry: NumEntry, e: Evaluator): Verdict
    requires e.NumEvaluator?
  {
    if entry.fn.Some? then entry.fn.value(e.num, e.ncmp, entry.value, e.id)
    else DefaultNum(e.num, e.ncmp, entry.value)
  }

  function UNumVerdict(entry: UNumEntry, e: Evaluator): Verdict
    requires e.UNumEvaluator?
  {
    if entry.fn.Some? then entry.fn.value(e.unum, e.ncmp, entry.value, e.id)
    else DefaultNum(e.unum, e.ncmp, entry.value)
  }

  /** Result and context after a leaf. An error remembered from any earlier leaf silences this one. */
  function LeafStep(c: Tables, e: Evaluator): (step: (Result, Tables))
    requires c.Valid()
    ensures step.1.Valid()
  {
    var asked := c.Asked(IdInRange(e));
    match e
    case StrEvaluator(id, _, _) =>
      if asked.error != ESUCCESS then (Abstain, asked)
      else
        var v := StrVerdict(asked.strs[id], e);
        (v.result, asked.StrFailed(id, v.unknownCmp))
    case NumEvaluator(id, _, _) =>
      if asked.NumParam(id) == NUM_NOT_SET || asked.error != ESUCCESS then (Abstain, asked)
      else
        var v := NumVerdict(asked.nums[id], e);
        (v.result, asked.NumFailed(id, v.unknownCmp))
    case UNumEvaluator(id, _, _) =>
      if asked.UNumParam(id) == UNUM_NOT_SET || asked.error != ESUCCESS then (Abstain, asked)
      else
        var v := UNumVerdict(asked.unums[id], e);
        (v.result, asked.UNumFailed(id, v.unknownCmp))
    case NoEvaluator => (Abstain, asked)
  }

  /** What a leaf means when no error is ever remembered. */
  function FreeValue(c: Tables, e: Evaluator): Result
    requires c.Valid()
  {
    match e
    case StrEvaluator(id, _, _) => if StrIdInRange(id) then StrVerdict(c.strs[id], e).result else Abstain
    case NumEvaluator(id, _, _) =>
      if c.NumParam(id) == NUM_NOT_SET then Abstain else NumVerdict(c.nums[id], e).result
    case UNumEvaluator(id, _, _) =>
      if c.UNumParam(id) == UNUM_NOT_SET then Abstain else UNumVerdict(c.unums[id], e).result
    case NoEvaluator => Abstain
  }

  ghost function Free(c: Tables): Evaluator -> Result
    requires c.Valid()
  {
    var k := c.Knowledge();
    e => FreeValue(k, e)
  }

  lemma LeafStepFacts(c: Tables, e: Evaluator)
    requires c.Valid()
    ensures var (r, d) := LeafStep(c, e);
            && SameKnowledge(c, d)
            && d.error == (if IdInRange(e) then c.error else EIX_OVERFLOW)
            && Below(r, Free(c)(e))
            && (d.error == ESUCCESS ==> c.error == ESUCCESS && r == Free(c)(e))
  {
    var asked := c.Asked(IdInRange(e));
    ErrorsAreNotKnowledge(c, 0, EIX_OVERFLOW, false);
    match e
    case StrEvaluator(id, _, _) =>
      if asked.error == ESUCCESS {
        ErrorsAreNotKnowledge(asked, id, 0, StrVerdict(asked.strs[id], e).unknownCmp);
      }
    case NumEvaluator(id, _, _) =>
      if asked.NumParam(id) != NUM_NOT_SET {
        ErrorsAreNotKnowledge(asked, id, 0, NumVerdict(asked.nums[id], e).unknownCmp);
      }
    case UNumEvaluator(id, _, _) =>
      if asked.UNumParam(id) != UNUM_NOT_SET {
        ErrorsAreNotKnowledge(asked, id, 0, UNumVerdict(asked.unums[id], e).unknownCmp);
      }
    case NoEvaluator =>
  }

  // ----- what evaluating a tree does

  /** Result, context and visited nodes of an evaluation. */
  datatype Step = Step(result: Result, ctx: Tables, visits: seq<Visit>)

  function DoOper(op: Op, a: Result, b: Result): Result {
    match op
    case OpAnd => DoAnd(a, b)
    case OpOr => DoOr(a, b)
    case OpNot => DoNot(a)
    case OpUnknown => Abstain
  }

  function Initial(op: Op): Result {
    match op
    case OpAnd => True
    case OpOr => False
    case _ => Abstain
  }

  /** The result that ends the walk over the children of a composite. */
  predicate Decides(op: Op, r: Result) {
    (op == OpOr && r == True) || (op == OpAnd && r == False)
  }

  function Run(c: Tables, t: WireNode, depth: nat): (s: Step)
    requires c.Valid()
    ensures s.ctx.Valid()
    decreases t, 1
  {
    if depth > MAX_DEPTH then Step(Abstain, c, [])
    else
      var inner := match t
        case Blank => Step(Abstain, c, [])
        case Leaf(e) => var (r, d) := LeafStep(c, e); Step(r, d, [])
        case Node(op, cs) => RunComposite(c, t, depth);
      var record := Record(KindOf(t), inner.result, depth, ComparedBy(inner.ctx, t));
      Step(inner.result, inner.ctx, [Visit(record, inner.visits)])
  }

  function RunComposite(c: Tables, t: WireNode, depth: nat): (s: Step)
    requires c.Valid() && t.Node?
    ensures s.ctx.Valid()
    decreases t, 0
  {
    if t.op == OpNot then
      if |t.children| != 1 then Step(Abstain, c, [])
      else
        var child := Run(c, t.children[0], depth + 1);
        Step(DoNot(child.result), child.ctx, child.visits)
    else RunChildren(c, t.op, Initial(t.op), t.children, depth + 1)
  }

  function RunChildren(c: Tables, op: Op, acc: Result, cs: seq<WireNode>, depth: nat): (s: Step)
    requires c.Valid()
    ensures s.ctx.Valid()
    decreases cs
  {
    if cs == [] then Step(acc, c, [])
    else
      var child := Run(c, cs[0], depth);
      var r := DoOper(op, acc, child.result);
      if Decides(op, r) then Step(r, child.ctx, child.visits)
      else
        var rest := RunChildren(child.ctx, op, r, cs[1..], depth);
        Step(rest.result, rest.ctx, child.visits + rest.visits)
  }

  /** A step to which some visits were made before. */
  function Prepend(seen: seq<Visit>, s: Step): Step {
    s.(visits := seen + s.visits)
  }

  lemma ChildrenStep(
    c: Tables, op: Op, acc: Result, cs: seq<WireNode>, ix: nat, depth: nat, seen: seq<Visit>)
    requires c.Valid() && ix < |cs|
    ensures var child := Run(c, cs[ix], depth);
            var r := DoOper(op, acc, child.result);
            Prepend(seen, RunChildren(c, op, acc, cs[ix..], depth)) ==
            if Decides(op, r) then Step(r, child.ctx, seen + child.visits)
            else Prepend(seen + child.visits, RunChildren(child.ctx, op, r, cs[ix + 1..], depth))
  {
    assert cs[ix..][1..] == cs[ix + 1..];
  }

  method EvaluateString(ctx: EvalCtx, e: Evaluator) returns (r: Result)
    requires ctx.Valid() && e.StrEvaluator?
    modifies ctx, ctx.strs
    ensures (r, ctx.View()) == LeafStep(old(ctx.View()), e)
  {
    var param := ctx.GetStringParam(e.id);
    var eval := ctx.GetStringEvaluator(e.id);
    if ctx.error == ESUCCESS {
      if eval.None? {
        r := DefaultStringEvaluator(ctx, e.str, e.scmp, param, e.id);
      } else {
        var v := eval.value(e.str, e.scmp, param, e.id);
        if v.unknownCmp {
          ctx.SetStrEvalError(e.id);
        }
        r := v.result;
      }
    } else {
      r := Abstain;
    }
  }

  method EvaluateNumeric(ctx: EvalCtx, e: Evaluator) returns (r: Result)
    requires ctx.Valid() && e.NumEvaluator?
    modifies ctx, ctx.nums
    ensures (r, ctx.View()) == LeafStep(old(ctx.View()), e)
  {
    var param := ctx.GetNumericParam(e.id);
    if param == NUM_NOT_SET {
      return Abstain;
    }
    var eval := ctx.GetNumericEvaluator(e.id);
    if ctx.error == ESUCCESS {
      if eval.None? {
        r := DefaultNumericEvaluator(ctx, e.num, e.ncmp, param, e.id);
      } else {
        var v := eval.value(e.num, e.ncmp, param, e.id);
        if v.unknownCmp {
          ctx.SetNumEvalError(e.id);
        }
        r := v.result;
      }
    } else {
      r := Abstain;
    }
  }

  method EvaluateUNumeric(ctx: EvalCtx, e: Evaluator) returns (r: Result)
    requires ctx.Valid() && e.UNumEvaluator?
    modifies ctx, ctx.unums
    ensures (r, ctx.View()) == LeafStep(old(ctx.View()), e)
  {
    var param := ctx.GetUNumericParam(e.id);
    if param == UNUM_NOT_SET {
      return Abstain;
    }
    var eval := ctx.GetUNumericEvaluator(e.id);
    if ctx.error == ESUCCESS {
      if eval.None? {
        r := DefaultUNumericEvaluator(ctx, e.unum, e.ncmp, param, e.id);
      } else {
        var v := eval.value(e.unum, e.ncmp, param, e.id);
        if v.unknownCmp {
          ctx.SetUNumEvalError(e.id);
        }
        r := v.result;
      }
    } else {
      r := Abstain;
    }
  }

  method NodeEvaluator(ctx: EvalCtx, e: Evaluator) returns (r: Result)
    requires ctx.Valid()
    modifies ctx, ctx.strs, ctx.nums, ctx.unums
    ensures (r, ctx.View()) == LeafStep(old(ctx.View()), e)
  {
    match e
    case StrEvaluator(_, _, _) => r := EvaluateString(ctx, e);
    case NumEvaluator(_, _, _) => r := EvaluateNumeric(ctx, e);
    case UNumEvaluator(_, _, _) => r := EvaluateUNumeric(ctx, e);
    case NoEvaluator => r := Abstain;
  }

  /** Describing a node asks the context again for its fact, which can set the error again. */
  method DescribeNode(ctx: EvalCtx, t: WireNode, result: Result, depth: nat) returns (record: Record)
    requires ctx.Valid()
    modifies ctx
    ensures record == Record(KindOf(t), result, depth, ComparedBy(old(ctx.View()), t))
    ensures ctx.View() == old(ctx.View()).Asked(t.Leaf? ==> IdInRange(t.leaf))
  {
    var kind, compared := KindUnknown, Nothing;
    match t {
      case Leaf(StrEvaluator(id, cmp, str)) =>
        kind := KindStr;
        var policy: Option<string> := match str { case Some(x) => Some(x) case None => None };
        var param := ctx.GetStringParam(id);
        var process: Option<string> := match param { case Some(x) => Some(x) case None => None };
        compared := Strings(id, cmp, policy, process);
      case Leaf(NumEvaluator(id, cmp, num)) =>
        kind := KindNum;
        var process := ctx.GetNumericParam(id);
        compared := Numbers(id, cmp, num, process);
      case Leaf(UNumEvaluator(id, cmp, unum)) =>
        kind := KindUNum;
        var process := ctx.GetUNumericParam(id);
        compared := Numbers(id, cmp, unum, process);
      case Node(OpAnd, _) => kind := KindAnd;
      case Node(OpOr, _) => kind := KindOr;
      case Node(OpNot, _) => kind := KindNot;
      case _ =>
    }
    record := Record(kind, result, depth, compared);
  }

  /**
   The walk of the engine. Result and context are those of Run, which knows no observer: nothing
   an observer is told, nor telling it, changes them. The observer sees exactly the visits of Run.
   */
  method EvaluateRules<S>(ctx: EvalCtx, t: WireNode, depth: nat, observer: Option<Observer<S>>, user: User<S>)
    returns (r: Result)
    requires ctx.Valid()
    modifies ctx, ctx.strs, ctx.nums, ctx.unums, user
    ensures var s := Run(old(ctx.View()), t, depth);
            && r == s.result && ctx.View() == s.ctx
            && user.state == WatchMaybe(observer, old(user.state), s.visits)
    decreases t, 1
  {
    if depth > MAX_DEPTH {
      return Abstain;
    }
    var handle := 0;
    if observer.Some? && observer.value.nodeEnter.Some? {
      var (s, h) := observer.value.nodeEnter.value(user.state, depth);
      user.state := s;
      handle := h;
    }
    match t {
      case Blank => r := Abstain;
      case Leaf(e) =>
        r := NodeEvaluator(ctx, e);
        LeafStepFacts(old(ctx.View()), e);
      case Node(_, _) => r := CompositeEvaluator(ctx, t, depth, observer, user);
    }
    if observer.Some? && observer.value.nodeExit.Some? {
      var record := DescribeNode(ctx, t, r, depth);
      user.state := observer.value.nodeExit.value(user.state, handle, record);
    }
    if observer.Some? {
      WatchOne(observer.value, old(user.state), Run(old(ctx.View()), t, depth).visits[0]);
    }
  }

  method CompositeEvaluator<S>(ctx: EvalCtx, t: WireNode, depth: nat, observer: Option<Observer<S>>, user: User<S>)
    returns (r: Result)
    requires ctx.Valid() && t.Node?
    modifies ctx, ctx.strs, ctx.nums, ctx.unums, user
    ensures var s := RunComposite(old(ctx.View()), t, depth);
            && r == s.result && ctx.View() == s.ctx
            && user.state == WatchMaybe(observer, old(user.state), s.visits)
    decreases t, 0
  {
    var op, cs := t.op, t.children;
    match op {
      case OpUnknown => r := Abstain;
      case OpOr => r := False;
      case OpAnd => r := True;
      case OpNot =>
        if |cs| != 1 {
          return Abstain;
        }
        var child := EvaluateRules(ctx, cs[0], depth + 1, observer, user);
        return DoNot(child);
    }
    r := EvaluateChildren(ctx, op, r, cs, depth + 1, observer, user);
  }

  /** The loop over the children of an AND, an OR or an unknown operator. */
  method EvaluateChildren<S>(
    ctx: EvalCtx, op: Op, initial: Result, cs: seq<WireNode>, depth: nat, observer: Option<Observer<S>>, user: User<S>)
    returns (r: Result)
    requires ctx.Valid()
    modifies ctx, ctx.strs, ctx.nums, ctx.unums, user
    ensures var s := RunChildren(old(ctx.View()), op, initial, cs, depth);
            && r == s.result && ctx.View() == s.ctx
            && user.state == WatchMaybe(observer, old(user.state), s.visits)
    decreases cs
  {
    r := initial;
    ghost var whole := RunChildren(ctx.View(), op, initial, cs, depth);
    ghost var seen: seq<Visit> := [];
    for ix := 0 to |cs|
      invariant whole == Prepend(seen, RunChildren(ctx.View(), op, r, cs[ix..], depth))
      invariant user.state == WatchMaybe(observer, old(user.state), seen)
    {
      ghost var visits := Run(ctx.View(), cs[ix], depth).visits;
      ChildrenStep(ctx.View(), op, r, cs, ix, depth, seen);
      var result := EvaluateRules(ctx, cs[ix], depth, observer, user);
      WatchMaybeJoin(observer, old(user.state), seen, visits);
      seen := seen + visits;
      r := DoOper(op, r, result);
      if op == OpOr && r == True {
        return r;
      }
      if op == OpAnd && r == False {
        return r;
      }
    }
    assert seen + [] == seen;
  }
}
