/** What an observer of the C engine is told: the records, and the callbacks that receive them. */
module Observation {
  import opened Tristate
  import opened RuleTree
  import opened Comparators
  import opened EvaluatorIds
  import opened Wire
  import opened EvalContext

  datatype Kind = KindUnknown | KindAnd | KindOr | KindNot | KindStr | KindNum | KindUNum

  /** The compared values, only for evaluator nodes. */
  datatype Compared =
    | Nothing
    | Strings(sid: int, scmp: StrCmp, policyStr: Option<string>, processStr: Option<string>)
    | Numbers(nid: int, ncmp: NumCmp, policyNum: int, processNum: int)

  datatype Record = Record(kind: Kind, result: Result, depth: nat, compared: Compared)

  /** A node that was evaluated, with the children whose evaluation it asked for, in order. */
  datatype Visit = Visit(record: Record, kids: seq<Visit>)

  function KindOf(t: WireNode): Kind {
    match t
    case Blank => KindUnknown
    case Leaf(StrEvaluator(_, _, _)) => KindStr
    case Leaf(NumEvaluator(_, _, _)) => KindNum
    case Leaf(UNumEvaluator(_, _, _)) => KindUNum
    case Leaf(NoEvaluator) => KindUnknown
    case Node(OpAnd, _) => KindAnd
    case Node(OpOr, _) => KindOr
    case Node(OpNot, _) => KindNot
    case Node(OpUnknown, _) => KindUnknown
  }

  function ComparedBy(c: Tables, t: WireNode): Compared {
    match t
    case Leaf(StrEvaluator(id, cmp, str)) =>
      var policy: Option<string> := match str { case Some(x) => Some(x) case None => None };
      var process: Option<string> := match c.StrParam(id) { case Some(x) => Some(x) case None => None };
      Strings(id, cmp, policy, process)
    case Leaf(NumEvaluator(id, cmp, num)) => Numbers(id, cmp, num, c.NumParam(id))
    case Leaf(UNumEvaluator(id, cmp, unum)) => Numbers(id, cmp, unum, c.UNumParam(id))
    case _ => Nothing
  }

  /** The callbacks of an observer, over a state of its own. Each of them may be missing. */
  datatype Observer<!S> = Observer(
    policyEnter: Option<(S, PolicyInfo) -> S>,
    policyExit: Option<(S, Result) -> S>,
    nodeEnter: Option<(S, nat) -> (S, nat)>,
    nodeExit: Option<(S, nat, Record) -> S>)

  /** The state an observer is handed back at every callback. */
  class User<S> {
    var state: S

    constructor (s: S)
      ensures state == s
    {
      state := s;
    }
  }

  function Enter<S>(o: Observer<S>, s: S, depth: nat): (S, nat) {
    if o.nodeEnter.Some? then o.nodeEnter.value(s, depth) else (s, 0)
  }

  function Exit<S>(o: Observer<S>, s: S, handle: nat, record: Record): S {
    if o.nodeExit.Some? then o.nodeExit.value(s, handle, record) else s
  }

  /** Everything an observer goes through while the visited nodes are walked. */
  function Watch<S>(o: Observer<S>, s: S, visits: seq<Visit>): S {
    if visits == [] then s else Watch(o, WatchNode(o, s, visits[0]), visits[1..])
  }

  function WatchNode<S>(o: Observer<S>, s: S, v: Visit): S {
    var (entered, handle) := Enter(o, s, v.record.depth);
    Exit(o, Watch(o, entered, v.kids), handle, v.record)
  }

  function WatchMaybe<S>(o: Option<Observer<S>>, s: S, visits: seq<Visit>): S {
    if o.Some? then Watch(o.value, s, visits) else s
  }

  lemma WatchOne<S>(o: Observer<S>, s: S, v: Visit)
    ensures Watch(o, s, [v]) == WatchNode(o, s, v)
  {
    assert [v][1..] == [];
  }

  lemma {:induction false} WatchJoin<S>(o: Observer<S>, s: S, xs: seq<Visit>, ys: seq<Visit>)
    ensures Watch(o, s, xs + ys) == Watch(o, Watch(o, s, xs), ys)
    decreases |xs|
  {
    if xs == [] {
      assert xs + ys == ys;
    } else {
      assert (xs + ys)[1..] == xs[1..] + ys;
      WatchJoin(o, WatchNode(o, s, xs[0]), xs[1..], ys);
    }
  }

  lemma WatchMaybeJoin<S>(o: Option<Observer<S>>, s: S, xs: seq<Visit>, ys: seq<Visit>)
    ensures WatchMaybe(o, s, xs + ys) == WatchMaybe(o, WatchMaybe(o, s, xs), ys)
  {
    if o.Some? {
      WatchJoin(o.value, s, xs, ys);
    }
  }
}
