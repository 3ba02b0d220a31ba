/**
 The promise made to observers, as an independent monitor of the event stream: it sees only the
 events, keeps a stack of the nodes still open, and rejects the stream at the first event that
 breaks the protocol.
 */
module ObserverProtocol {
  import opened Tristate
  import opened RuleTree
  import opened Comparators
  import opened Wire
  import opened EvalContext
  import opened Observation
  import opened CEngine
  import opened CEngineFacts

  datatype Event =
    | EnterEvent(at: nat)
    | ExitEvent(handle: nat, record: Record)
    | PolicyEnterEvent(info: PolicyInfo)
    | PolicyExitEvent(result: Result)

  /** An observer that only writes down what it is told; its handles are positions in the log. */
  function Logger(): Observer<seq<Event>> {
    Observer(
      Some((log: seq<Event>, info: PolicyInfo) => log + [PolicyEnterEvent(info)]),
      Some((log: seq<Event>, result: Result) => log + [PolicyExitEvent(result)]),
      Some((log: seq<Event>, depth: nat) => (log + [EnterEvent(depth)], |log|)),
      Some((log: seq<Event>, handle: nat, record: Record) => log + [ExitEvent(handle, record)]))
  }

  // ----- the monitor

  /** A node that was entered and not left: the handle given for it, and its children's results. */
  datatype Frame = Frame(handle: nat, kids: seq<Result>)

  datatype Monitor = Rejected | Running(open: seq<Frame>, closed: seq<Result>)

  const START := Running([], [])

  /** Whether a node may report this record after its children gave these results. */
  predicate Justified(record: Record, kids: seq<Result>) {
    match record.kind
    case KindAnd =>
      if record.depth == MAX_DEPTH then kids == [] && record.result != False
      else record.result == AllOf(kids) && forall i :: 0 <= i < |kids| - 1 ==> kids[i] != False
    case KindOr =>
      if record.depth == MAX_DEPTH then kids == [] && record.result != True
      else record.result == AnyOf(kids) && forall i :: 0 <= i < |kids| - 1 ==> kids[i] != True
    case KindNot =>
      |kids| <= 1 && record.result == if kids == [] then Abstain else DoNot(kids[0])
    case KindUnknown => record.result == Abstain
    case _ => kids == []
  }

  function Next(m: Monitor, position: nat, e: Event): Monitor {
    match m
    case Rejected => Rejected
    case Running(open, closed) =>
      match e
      case EnterEvent(depth) =>
        if depth == |open| && depth <= MAX_DEPTH then Running(open + [Frame(position, [])], closed) else Rejected
      case ExitEvent(handle, record) =>
        if open == [] then Rejected
        else
          var top := open[|open| - 1];
          if handle == top.handle && record.depth == |open| - 1 && Justified(record, top.kids)
          then Returned(Running(open[..|open| - 1], closed), record.result)
          else Rejected
      case _ => Rejected
  }

  /** A node was left: its result belongs to the node it is in, or to the root. */
  function Returned(m: Monitor, r: Result): Monitor {
    if m.Rejected? then m
    else if m.open == [] then m.(closed := m.closed + [r])
    else
      var n := |m.open| - 1;
      m.(open := m.open[..n] + [m.open[n].(kids := m.open[n].kids + [r])])
  }

  /** The monitor over all events; the first one has the given position. */
  function Observe(m: Monitor, position: nat, events: seq<Event>): Monitor
    decreases |events|
  {
    if events == [] then m else Observe(Next(m, position, events[0]), position + 1, events[1..])
  }

  lemma {:induction false} ObserveJoin(m: Monitor, position: nat, xs: seq<Event>, ys: seq<Event>)
    ensures Observe(m, position, xs + ys) == Observe(Observe(m, position, xs), position + |xs|, ys)
    decreases |xs|
  {
    if xs == [] {
      assert xs + ys == ys;
    } else {
      assert (xs + ys)[1..] == xs[1..] + ys;
      ObserveJoin(Next(m, position, xs[0]), position + 1, xs[1..], ys);
    }
  }

  // ----- the stack of the monitor and plain counting

  function Opened(events: seq<Event>): int
    decreases |events|
  {
    if events == [] then 0
    else
      Opened(events[..|events| - 1]) +
      match events[|events| - 1]
      case EnterEvent(_) => 1
      case ExitEvent(_, _) => -1
      case _ => 0
  }

  /** While a stream is accepted, the stack is as high as enters exceed exits. */
  lemma {:induction false} StackCounts(events: seq<Event>)
    requires Observe(START, 0, events).Running?
    ensures |Observe(START, 0, events).open| == Opened(events) <= MAX_DEPTH + 1
    decreases |events|
  {
    if events == [] {
    } else {
      var n := |events| - 1;
      assert events == events[..n] + [events[n]];
      ObserveJoin(START, 0, events[..n], [events[n]]);
      var m := Observe(START, 0, events[..n]);
      assert [events[n]][1..] == [];
      assert Observe(m, n, [events[n]]) == Next(m, n, events[n]);
      StackCounts(events[..n]);
    }
  }

  lemma {:induction false} PrefixAccepted(events: seq<Event>, k: nat)
    requires k <= |events| && Observe(START, 0, events).Running?
    ensures Observe(START, 0, events[..k]).Running?
  {
    assert events == events[..k] + events[k..];
    ObserveJoin(START, 0, events[..k], events[k..]);
    if Observe(START, 0, events[..k]).Rejected? {
      StaysRejected(k, events[k..]);
    }
  }

  lemma {:induction false} StaysRejected(position: nat, events: seq<Event>)
    ensures Observe(Rejected, position, events).Rejected?
    decreases |events|
  {
    if events == [] {
    } else {
      StaysRejected(position + 1, events[1..]);
    }
  }

  /** In an accepted stream the depth of every event is the number of nodes open around it. */
  lemma DepthIsOpenCount(events: seq<Event>, k: nat)
    requires k < |events| && Observe(START, 0, events).Running?
    ensures match events[k]
            case EnterEvent(depth) => depth == Opened(events[..k]) <= MAX_DEPTH
            case ExitEvent(_, record) => record.depth == Opened(events[..k]) - 1 <= MAX_DEPTH
            case _ => false
  {
    PrefixAccepted(events, k);
    PrefixAccepted(events, k + 1);
    StackCounts(events[..k]);
    assert events[..k + 1] == events[..k] + [events[k]];
    ObserveJoin(START, 0, events[..k], [events[k]]);
    var m := Observe(START, 0, events[..k]);
    assert [events[k]][1..] == [];
    assert Observe(m, k, [events[k]]) == Next(m, k, events[k]);
  }

  // ----- the engine keeps the promise

  function Log(log: seq<Event>, visits: seq<Visit>): seq<Event> {
    Watch(Logger(), log, visits)
  }

  lemma LogOfOne(log: seq<Event>, v: Visit)
    ensures Log(log, [v]) ==
            Log(log + [EnterEvent(v.record.depth)], v.kids) + [ExitEvent(|log|, v.record)]
  {
    WatchOne(Logger(), log, v);
  }

  lemma LogOfCons(log: seq<Event>, visits: seq<Visit>)
    requires visits != []
    ensures Log(log, visits) == Log(Log(log, [visits[0]]), visits[1..])
  {
    WatchOne(Logger(), log, visits[0]);
  }

  /** A monitor with the results of some visits given to the innermost open node. */
  function ReturnedAll(m: Monitor, rs: seq<Result>): Monitor
    decreases |rs|
  {
    if rs == [] then m else ReturnedAll(Returned(m, rs[0]), rs[1..])
  }

  lemma {:induction false} ReturnedToTop(m: Monitor, rs: seq<Result>)
    requires m.Running? && m.open != []
    ensures var n := |m.open| - 1;
            ReturnedAll(m, rs) == m.(open := m.open[..n] + [m.open[n].(kids := m.open[n].kids + rs)])
    decreases |rs|
  {
    var n := |m.open| - 1;
    if rs == [] {
      assert m.open[n].kids + rs == m.open[n].kids;
      assert m.open == m.open[..n] + [m.open[n]];
    } else {
      var after := Returned(m, rs[0]);
      ReturnedToTop(after, rs[1..]);
      assert after.open[..n] == m.open[..n];
      assert after.open[n].kids + rs[1..] == m.open[n].kids + rs by {
        assert rs == [rs[0]] + rs[1..];
      }
    }
  }

  lemma FaithfulIsJustified(t: WireNode, v: Visit, depth: nat)
    requires Faithful(t, v, depth)
    ensures Justified(v.record, ResultsOf(v.kids))
  {
    if t.Node? && v.kids != [] {
      assert Faithful(t.children[0], v.kids[0], depth + 1);
    }
  }

  /** The part of the log from base on brings a fresh monitor to m. */
  ghost predicate Accepts(base: nat, m: Monitor, log: seq<Event>) {
    base <= |log| && Observe(START, base, log[base..]) == m
  }

  lemma AcceptOne(base: nat, m: Monitor, log: seq<Event>, e: Event)
    requires Accepts(base, m, log)
    ensures Accepts(base, Next(m, |log|, e), log + [e])
  {
    ObserveJoin(START, base, log[base..], [e]);
    assert (log + [e])[base..] == log[base..] + [e];
    assert [e][1..] == [];
    assert Observe(m, |log|, [e]) == Next(m, |log|, e);
  }

  lemma {:induction false} VisitAccepted(base: nat, t: WireNode, v: Visit, m: Monitor, log: seq<Event>)
    requires m.Running? && Accepts(base, m, log) && Faithful(t, v, |m.open|)
    ensures Accepts(base, Returned(m, v.record.result), Log(log, [v]))
    decreases t, 1
  {
    var inside := m.(open := m.open + [Frame(|log|, [])]);
    AcceptOne(base, m, log, EnterEvent(v.record.depth));
    var entered := log + [EnterEvent(v.record.depth)];
    assert inside.open[..|m.open|] == m.open;
    var left := inside.(open := m.open + [Frame(|log|, ResultsOf(v.kids))]);
    if t.Node? {
      KidsAccepted(base, t.op, t.children, v.kids, inside, entered);
      ReturnedToTop(inside, ResultsOf(v.kids));
      assert [] + ResultsOf(v.kids) == ResultsOf(v.kids);
    }
    assert left.open[..|m.open|] == m.open;
    FaithfulIsJustified(t, v, |m.open|);
    AcceptOne(base, left, Log(entered, v.kids), ExitEvent(|log|, v.record));
    LogOfOne(log, v);
  }

  lemma {:induction false} KidsAccepted(
    base: nat, op: Op, cs: seq<WireNode>, kids: seq<Visit>, m: Monitor, log: seq<Event>)
    requires m.Running? && m.open != [] && Accepts(base, m, log)
    requires |kids| <= |cs| && forall i :: 0 <= i < |kids| ==> Faithful(cs[i], kids[i], |m.open|)
    ensures Accepts(base, ReturnedAll(m, ResultsOf(kids)), Log(log, kids))
    decreases cs, 0
  {
    if kids == [] {
    } else {
      VisitAccepted(base, cs[0], kids[0], m, log);
      forall i | 0 <= i < |kids[1..]| ensures Faithful(cs[1..][i], kids[1..][i], |m.open|) {
        assert kids[1..][i] == kids[i + 1] && cs[1..][i] == cs[i + 1];
      }
      KidsAccepted(base, op, cs[1..], kids[1..], Returned(m, kids[0].record.result), Log(log, [kids[0]]));
      assert ResultsOf(kids)[1..] == ResultsOf(kids[1..]);
      LogOfCons(log, kids);
    }
  }

  /** Wherever in a log a run starts, what it adds is accepted, and closes with its result. */
  lemma RunIsAccepted(log: seq<Event>, c: Tables, t: WireNode)
    requires c.Valid()
    ensures Accepts(|log|, Running([], [Run(c, t, 0).result]), Log(log, Run(c, t, 0).visits))
  {
    var s := Run(c, t, 0);
    RunIsFaithful(c, t, 0);
    assert log[|log|..] == [];
    assert Accepts(|log|, START, log);
    VisitAccepted(|log|, t, s.visits[0], START, log);
    assert s.visits == [s.visits[0]];
    assert [] + [s.result] == [s.result];
  }

  /** Every run, whatever the tree and the context, is accepted, and closes with its result. */
  lemma EveryRunIsAccepted(c: Tables, t: WireNode)
    requires c.Valid()
    ensures Observe(START, 0, Log([], Run(c, t, 0).visits)) == Running([], [Run(c, t, 0).result])
  {
    RunIsAccepted([], c, t);
    var log := Log([], Run(c, t, 0).visits);
    assert log[0..] == log;
  }

  /** Logging only appends. */
  lemma {:induction false} LogAppends(log: seq<Event>, visits: seq<Visit>)
    ensures log <= Log(log, visits)
    decreases visits
  {
    if visits == [] {
    } else {
      var v := visits[0];
      LogAppends(log + [EnterEvent(v.record.depth)], v.kids);
      LogOfOne(log, v);
      LogOfCons(log, visits);
      LogAppends(Log(log, [v]), visits[1..]);
    }
  }
}
