/**
 The promise made to observers about a whole buffer, as a monitor of the event stream on top of the
 one for nodes: policies do not nest, no node is entered outside of one, and a policy is left with
 the result of its root node, or with ABSTAIN if none was entered.
 */
module BufferProtocol {
  import opened Tristate
  import opened Comparators
  import opened Wire
  import opened EvalContext
  import opened Observation
  import opened CEngine
  import opened ObserverProtocol
  import opened PolicyBuffer

  datatype BufferMonitor =
    | Broken
    | Between(done: seq<(PolicyInfo, Result)>)
    | Inside(before: seq<(PolicyInfo, Result)>, info: PolicyInfo, nodes: Monitor)

  /** Whether a policy whose nodes brought the monitor here may be left with this result. */
  predicate MayLeave(nodes: Monitor, r: Result) {
    nodes.Running? && nodes.open == [] && (nodes.closed == [r] || (nodes.closed == [] && r == Abstain))
  }

  function NextInBuffer(b: BufferMonitor, position: nat, e: Event): BufferMonitor {
    match b
    case Broken => Broken
    case Between(done) => if e.PolicyEnterEvent? then Inside(done, e.info, START) else Broken
    case Inside(before, info, nodes) =>
      if e.PolicyExitEvent? then if MayLeave(nodes, e.result) then Between(before + [(info, e.result)]) else Broken
      else
        var m := Next(nodes, position, e);
        if m.Rejected? then Broken else Inside(before, info, m)
  }

  function ObserveBuffer(b: BufferMonitor, position: nat, events: seq<Event>): BufferMonitor
    decreases |events|
  {
    if events == [] then b else ObserveBuffer(NextInBuffer(b, position, events[0]), position + 1, events[1..])
  }

  lemma {:induction false} ObserveBufferJoin(b: BufferMonitor, position: nat, xs: seq<Event>, ys: seq<Event>)
    ensures ObserveBuffer(b, position, xs + ys) ==
            ObserveBuffer(ObserveBuffer(b, position, xs), position + |xs|, ys)
    decreases |xs|
  {
    if xs == [] {
      assert xs + ys == ys;
    } else {
      assert (xs + ys)[1..] == xs[1..] + ys;
      ObserveBufferJoin(NextInBuffer(b, position, xs[0]), position + 1, xs[1..], ys);
    }
  }

  lemma OneEvent(b: BufferMonitor, log: seq<Event>, e: Event)
    ensures ObserveBuffer(b, 0, log + [e]) == NextInBuffer(ObserveBuffer(b, 0, log), |log|, e)
  {
    ObserveBufferJoin(b, 0, log, [e]);
    assert [e][1..] == [];
  }

  /** Inside a policy, what the monitor of nodes accepts is followed by the one of the buffer. */
  lemma {:induction false} InsideFollowsNodes(
    before: seq<(PolicyInfo, Result)>, info: PolicyInfo, m: Monitor, position: nat, events: seq<Event>)
    requires m.Running? && Observe(m, position, events).Running?
    ensures ObserveBuffer(Inside(before, info, m), position, events) ==
            Inside(before, info, Observe(m, position, events))
    decreases |events|
  {
    if events == [] {
    } else {
      var next := Next(m, position, events[0]);
      if next.Rejected? {
        StaysRejected(position + 1, events[1..]);
      }
      InsideFollowsNodes(before, info, next, position + 1, events[1..]);
    }
  }

  /** The policies of a run, each with the result it comes to alone. */
  ghost function Results(c: Tables, ps: seq<Policy>): (rs: seq<(PolicyInfo, Result)>)
    requires c.Valid()
    ensures |rs| == |ps|
  {
    seq(|ps|, k requires 0 <= k < |ps| => (ps[k].info, Alone(c, ps[k]).report.result))
  }

  /** One policy takes the monitor from one place between policies to the next. */
  lemma PolicyIsFramed(log: seq<Event>, done: seq<(PolicyInfo, Result)>, c: Tables, p: Policy)
    requires c.Valid() && ObserveBuffer(Between([]), 0, log) == Between(done)
    ensures ObserveBuffer(Between([]), 0, WatchPolicy(Some(Logger()), log, p.info, Alone(c, p))) ==
            Between(done + [(p.info, Alone(c, p).report.result)])
  {
    var entered := log + [PolicyEnterEvent(p.info)];
    var outcome := Alone(c, p);
    var walked := Log(entered, outcome.visits);
    OneEvent(Between([]), log, PolicyEnterEvent(p.info));
    LogAppends(entered, outcome.visits);
    var nodes := walked[|entered|..];
    assert walked == entered + nodes;
    ObserveBufferJoin(Between([]), 0, entered, nodes);
    if p.rules.Some? {
      RunIsAccepted(entered, c.(error := ESUCCESS), p.rules.value);
    } else {
      assert nodes == [];
    }
    InsideFollowsNodes(done, p.info, START, |entered|, nodes);
    OneEvent(Between([]), walked, PolicyExitEvent(outcome.report.result));
  }

  /**
   Every run over policies is framed as promised, whatever they are and whatever the context holds,
   and the frames are those of the policies, in order, each left with the result it comes to alone.
   */
  lemma {:induction false} EveryBufferRunIsFramed(c: Tables, ps: seq<Policy>)
    requires c.Valid()
    ensures ObserveBuffer(Between([]), 0, WatchAll(Some(Logger()), [], c, ps)) == Between(Results(c, ps))
    decreases |ps|
  {
    if ps == [] {
    } else {
      var n := |ps| - 1;
      EveryBufferRunIsFramed(c, ps[..n]);
      PolicyIsFramed(WatchAll(Some(Logger()), [], c, ps[..n]), Results(c, ps[..n]), c, ps[n]);
      assert Results(c, ps) == Results(c, ps[..n]) + [(ps[n].info, Alone(c, ps[n]).report.result)];
    }
  }
}
