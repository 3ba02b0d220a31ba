/** Evaluation of a buffer of policies by the C engine, and the actions it runs. */
module PolicyBuffer {
  import opened Tristate
  import opened RuleTree
  import opened Comparators
  import opened Wire
  import opened EvalContext
  import opened Observation
  import opened CEngine
  import opened CEngineFacts

  const ACTION_VALUES_MAX: nat := 255

  // ----- which actions run

  predicate Handled(c: Tables, a: Action) {
    0 <= a.id < |c.actions| && c.actions[a.id].fn.Some?
  }

  predicate OverLimit(c: Tables, a: Action) {
    Handled(c, a) && |a.values| >= ACTION_VALUES_MAX
  }

  /** The position of the first handled action with too many values, or the end. */
  function Limit(c: Tables, actions: seq<Action>): (n: nat)
    ensures n <= |actions|
    ensures forall i :: 0 <= i < n ==> !OverLimit(c, actions[i])
    ensures n < |actions| ==> OverLimit(c, actions[n])
  {
    if actions == [] || OverLimit(c, actions[0]) then 0 else 1 + Limit(c, actions[1..])
  }

  /** The handled ones among the first n actions. */
  function HandledUpTo(c: Tables, actions: seq<Action>, n: nat): seq<Action>
    requires n <= |actions|
  {
    if n == 0 then []
    else HandledUpTo(c, actions, n - 1) + if Handled(c, actions[n - 1]) then [actions[n - 1]] else []
  }

  /** The actions whose handlers are called: the handled ones before the first over the limit. */
  function Invoked(c: Tables, actions: seq<Action>): seq<Action> {
    HandledUpTo(c, actions, Limit(c, actions))
  }

  /** The code of an action run: overflow, or what the last handler called returned. */
  function ActionsCode(c: Tables, r: Result, actions: seq<Action>, info: PolicyInfo): int {
    if Limit(c, actions) < |actions| then EIX_OVERFLOW else LastCode(c, r, Invoked(c, actions), info)
  }

  function LastCode(c: Tables, r: Result, calls: seq<Action>, info: PolicyInfo): int {
    if calls == [] then ESUCCESS else CallCode(c, r, calls[|calls| - 1], info)
  }

  function CallCode(c: Tables, r: Result, a: Action, info: PolicyInfo): int {
    if Handled(c, a) then c.actions[a.id].fn.value(r, a, info) else ESUCCESS
  }

  /** The error kept for each action is what its handler returned last. */
  function Noted(c: Tables, r: Result, calls: seq<Action>, info: PolicyInfo): (entries: seq<ActionEntry>)
    ensures |entries| == |c.actions|
    ensures forall i :: 0 <= i < |entries| ==> entries[i].fn == c.actions[i].fn
  {
    if calls == [] then c.actions
    else
      var a := calls[|calls| - 1];
      var before := Noted(c, r, calls[..|calls| - 1], info);
      if Handled(c, a) then before[a.id := before[a.id].(error := CallCode(c, r, a, info))] else before
  }

  // ----- what the handlers are told, and what is kept

  /** Handled, and every handled action after it comes at n or later. */
  predicate LastHandled(c: Tables, actions: seq<Action>, i: nat, n: nat) {
    i < n <= |actions| && Handled(c, actions[i]) && forall j :: i < j < n ==> !Handled(c, actions[j])
  }

  /** The last call for an id among the first n actions. */
  predicate LastCallFor(c: Tables, actions: seq<Action>, id: int, i: nat, n: nat) {
    && i < n <= |actions| && Handled(c, actions[i]) && actions[i].id == id
    && forall j :: i < j < n ==> actions[j].id != id
  }

  lemma {:induction false} LastHandledIsLast(c: Tables, r: Result, actions: seq<Action>, info: PolicyInfo, i: nat, n: nat)
    requires LastHandled(c, actions, i, n)
    ensures LastCode(c, r, HandledUpTo(c, actions, n), info) == c.actions[actions[i].id].fn.value(r, actions[i], info)
    decreases n
  {
    if i == n - 1 {
    } else {
      LastHandledIsLast(c, r, actions, info, i, n - 1);
    }
  }

  lemma {:induction false} NothingHandled(c: Tables, actions: seq<Action>, n: nat)
    requires n <= |actions| && forall j :: 0 <= j < n ==> !Handled(c, actions[j])
    ensures HandledUpTo(c, actions, n) == []
    decreases n
  {
    if n == 0 {
    } else {
      NothingHandled(c, actions, n - 1);
    }
  }

  /**
   Which code a policy comes to: overflow as soon as a handled action has 255 values or more, and
   otherwise what the handler of the last handled action returned, told the result of the policy,
   that action and the policy.
   */
  lemma LastHandlerDecides(c: Tables, r: Result, actions: seq<Action>, info: PolicyInfo)
    ensures (exists i :: 0 <= i < |actions| && Handled(c, actions[i]) && |actions[i].values| >= 255) ==>
              ActionsCode(c, r, actions, info) == EIX_OVERFLOW
    ensures (forall i :: 0 <= i < |actions| ==> Handled(c, actions[i]) ==> |actions[i].values| < 255) ==>
              && (forall i: nat :: LastHandled(c, actions, i, |actions|) ==>
                    ActionsCode(c, r, actions, info) == c.actions[actions[i].id].fn.value(r, actions[i], info))
              && ((forall i :: 0 <= i < |actions| ==> !Handled(c, actions[i])) ==>
                    ActionsCode(c, r, actions, info) == ESUCCESS)
  {
    if forall i :: 0 <= i < |actions| ==> Handled(c, actions[i]) ==> |actions[i].values| < 255 {
      assert Limit(c, actions) == |actions|;
      forall i: nat | LastHandled(c, actions, i, |actions|)
        ensures ActionsCode(c, r, actions, info) == c.actions[actions[i].id].fn.value(r, actions[i], info)
      {
        LastHandledIsLast(c, r, actions, info, i, |actions|);
      }
      if forall i :: 0 <= i < |actions| ==> !Handled(c, actions[i]) {
        NothingHandled(c, actions, |actions|);
      }
    } else {
      var i :| 0 <= i < |actions| && OverLimit(c, actions[i]);
      assert Limit(c, actions) <= i;
    }
  }

  /** A single action: skipped without a handler, refused with too many values, else told the result. */
  lemma SingleAction(c: Tables, r: Result, a: Action, info: PolicyInfo)
    ensures ActionsCode(c, r, [a], info) ==
            if a.id < 0 || a.id >= |c.actions| || c.actions[a.id].fn.None? then ESUCCESS
            else if |a.values| >= 255 then EIX_OVERFLOW
            else c.actions[a.id].fn.value(r, a, info)
  {
    LastHandlerDecides(c, r, [a], info);
    assert LastHandled(c, [a], 0, 1) <==> Handled(c, [a][0]);
  }

  /** The entry of an id after one more action. */
  lemma EntryAfter(c: Tables, r: Result, actions: seq<Action>, info: PolicyInfo, id: nat, n: nat)
    requires n < |actions| && id < |c.actions|
    ensures var a, before := actions[n], Noted(c, r, HandledUpTo(c, actions, n), info)[id];
            Noted(c, r, HandledUpTo(c, actions, n + 1), info)[id] ==
            if Handled(c, a) && a.id == id then before.(error := c.actions[id].fn.value(r, a, info)) else before
  {
    var calls, a := HandledUpTo(c, actions, n), actions[n];
    if Handled(c, a) {
      OneMoreCall(c, r, calls, a, info);
    } else {
      assert calls + [] == calls;
    }
  }

  /** The error kept for an id is what its handler returned at its last call, told the same. */
  lemma {:induction false} KeptErrorIsLast(
    c: Tables, r: Result, actions: seq<Action>, info: PolicyInfo, i: nat, n: nat)
    requires n <= |actions| && i < n && LastCallFor(c, actions, actions[i].id, i, n)
    ensures var id := actions[i].id;
            Noted(c, r, HandledUpTo(c, actions, n), info)[id].error == c.actions[id].fn.value(r, actions[i], info)
    decreases n
  {
    EntryAfter(c, r, actions, info, actions[i].id, n - 1);
    if i == n - 1 {
    } else {
      KeptErrorIsLast(c, r, actions, info, i, n - 1);
    }
  }

  /** An id that no handler was called for keeps its entry. */
  lemma {:induction false} UncalledEntryStays(
    c: Tables, r: Result, actions: seq<Action>, info: PolicyInfo, id: nat, n: nat)
    requires n <= |actions| && id < |c.actions|
    requires forall i :: 0 <= i < n && Handled(c, actions[i]) ==> actions[i].id != id
    ensures Noted(c, r, HandledUpTo(c, actions, n), info)[id] == c.actions[id]
    decreases n
  {
    if n == 0 {
    } else {
      EntryAfter(c, r, actions, info, id, n - 1);
      UncalledEntryStays(c, r, actions, info, id, n - 1);
    }
  }

  lemma {:induction false} NotedReadsActions(c: Tables, d: Tables, r: Result, calls: seq<Action>, info: PolicyInfo)
    requires c.actions == d.actions
    ensures Noted(c, r, calls, info) == Noted(d, r, calls, info)
    decreases |calls|
  {
    if calls == [] {
    } else {
      NotedReadsActions(c, d, r, calls[..|calls| - 1], info);
    }
  }

  lemma NotedIsNotKnowledge(c: Tables, r: Result, calls: seq<Action>, info: PolicyInfo)
    requires c.Valid()
    ensures SameKnowledge(c, c.(actions := Noted(c, r, calls, info)))
  {
    assert c.(actions := Noted(c, r, calls, info)).Knowledge().actions == c.Knowledge().actions;
  }

  lemma OneMoreCall(c: Tables, r: Result, calls: seq<Action>, a: Action, info: PolicyInfo)
    requires Handled(c, a)
    ensures Noted(c, r, calls + [a], info) ==
            var before := Noted(c, r, calls, info);
            before[a.id := before[a.id].(error := CallCode(c, r, a, info))]
  {
    assert (calls + [a])[..|calls|] == calls;
  }

  /** The call of one handler, after some calls that started from c. */
  method CallHandler(
    ctx: EvalCtx, fn: ActionFn, r: Result, action: Action, info: PolicyInfo, ghost c: Tables, ghost calls: seq<Action>)
    returns (code: int)
    requires ctx.Valid() && ctx.View() == c.(actions := Noted(c, r, calls, info))
    requires Handled(c, action) && c.actions[action.id].fn == Some(fn)
    modifies ctx.actions
    ensures code == CallCode(c, r, action, info)
    ensures ctx.View() == c.(actions := Noted(c, r, calls + [action], info))
  {
    code := fn(r, action, info);
    ctx.SetActionError(action.id, code);
    OneMoreCall(c, r, calls, action, info);
  }

  method PerformActions(ctx: EvalCtx, r: Result, actions: seq<Action>, info: PolicyInfo)
    returns (code: int, calls: seq<Action>)
    requires ctx.Valid()
    modifies ctx, ctx.actions
    ensures var c := old(ctx.View());
            && calls == Invoked(c, actions) && code == ActionsCode(c, r, actions, info)
            && ctx.View() == c.(actions := Noted(c, r, calls, info))
  {
    ghost var c := ctx.View();
    ghost var limit := Limit(c, actions);
    code := ESUCCESS;
    calls := [];
    for ix := 0 to |actions|
      invariant ix <= limit && calls == HandledUpTo(c, actions, ix)
      invariant code == LastCode(c, r, calls, info)
      invariant ctx.View() == c.(actions := Noted(c, r, calls, info))
    {
      var action := actions[ix];
      var fn: Option<ActionFn> := None;
      if 0 <= action.id < ACTIONS_COUNT {
        fn := ctx.GetAction(action.id);
      }
      if fn.None? {
        continue;
      }
      if |action.values| >= ACTION_VALUES_MAX {
        code := EIX_OVERFLOW;
        break;
      }
      code := CallHandler(ctx, fn.value, r, action, info, c, calls);
      calls := calls + [action];
    }
  }

  // ----- one policy

  /** What a policy came to: its result, the actions whose handlers were called, and its code. */
  datatype Report = Report(result: Result, calls: seq<Action>, code: int)

  datatype Outcome = Outcome(report: Report, visits: seq<Visit>)

  /** The outcome of a policy evaluated alone, in a context without a remembered error. */
  function Alone(c: Tables, p: Policy): Outcome
    requires c.Valid()
  {
    var cleared := c.(error := ESUCCESS);
    var s := if p.rules.Some? then Run(cleared, p.rules.value, 0) else Step(Abstain, cleared, []);
    Outcome(Report(s.result, Invoked(c, p.actions), ActionsCode(c, s.result, p.actions, p.info)), s.visits)
  }

  /**
   A policy alone comes to the meaning of its rules when their ids are in range, and to ABSTAIN
   without rules; its last handler is told that result.
   */
  lemma AloneMeansRules(c: Tables, p: Policy)
    requires c.Valid() && (p.rules.Some? ==> IdsInRange(p.rules.value))
    ensures var result := if p.rules.Some? then Value(p.rules.value, Free(c), 0) else Abstain;
            var report := Alone(c, p).report;
            && report.result == result
            && ((forall i :: 0 <= i < |p.actions| ==> Handled(c, p.actions[i]) ==> |p.actions[i].values| < 255) ==>
                  forall i: nat :: LastHandled(c, p.actions, i, |p.actions|) ==>
                    report.code == c.actions[p.actions[i].id].fn.value(result, p.actions[i], p.info))
  {
    var cleared := c.(error := ESUCCESS);
    ErrorsAreNotKnowledge(c, 0, ESUCCESS, false);
    FreeIsKnowledge(c, cleared);
    if p.rules.Some? {
      IdsInRangeMeansExact(cleared, p.rules.value, 0);
    }
    LastHandlerDecides(c, Alone(c, p).report.result, p.actions, p.info);
  }

  /** What an observer goes through for a policy: its nodes, between the two framing callbacks. */
  function WatchPolicy<S>(o: Option<Observer<S>>, s: S, info: PolicyInfo, outcome: Outcome): S {
    if o.None? then s
    else
      var entered := if o.value.policyEnter.Some? then o.value.policyEnter.value(s, info) else s;
      var walked := Watch(o.value, entered, outcome.visits);
      if o.value.policyExit.Some? then o.value.policyExit.value(walked, outcome.report.result) else walked
  }

  lemma {:induction false} LimitForgets(c: Tables, d: Tables, actions: seq<Action>)
    requires SameKnowledge(c, d)
    ensures Limit(c, actions) == Limit(d, actions)
    decreases |actions|
  {
    FactsAreKnowledge(c, d);
    if actions != [] {
      LimitForgets(c, d, actions[1..]);
    }
  }

  lemma {:induction false} HandledForgets(c: Tables, d: Tables, actions: seq<Action>, n: nat)
    requires SameKnowledge(c, d) && n <= |actions|
    ensures HandledUpTo(c, actions, n) == HandledUpTo(d, actions, n)
    decreases n
  {
    FactsAreKnowledge(c, d);
    if n == 0 {
    } else {
      HandledForgets(c, d, actions, n - 1);
    }
  }

  /** Isolation: no error left by anything before can change the outcome of a policy. */
  lemma OutcomeForgetsErrors(c: Tables, d: Tables, p: Policy)
    requires SameKnowledge(c, d)
    ensures Alone(c, p) == Alone(d, p)
  {
    ErrorsAreNotKnowledge(c, 0, ESUCCESS, false);
    ErrorsAreNotKnowledge(d, 0, ESUCCESS, false);
    if p.rules.Some? {
      RunForgetsErrors(c.(error := ESUCCESS), d.(error := ESUCCESS), p.rules.value, 0);
    }
    ActionsForgetErrors(c, d, Alone(c, p).report.result, p.actions, p.info);
  }

  lemma ActionsForgetErrors(c: Tables, d: Tables, r: Result, actions: seq<Action>, info: PolicyInfo)
    requires SameKnowledge(c, d)
    ensures Invoked(c, actions) == Invoked(d, actions)
    ensures ActionsCode(c, r, actions, info) == ActionsCode(d, r, actions, info)
  {
    FactsAreKnowledge(c, d);
    LimitForgets(c, d, actions);
    HandledForgets(c, d, actions, Limit(c, actions));
  }

  /** The evaluation of a policy up to its result, framed by the callbacks of the observer. */
  method WalkPolicy<S>(ctx: EvalCtx, p: Policy, observer: Option<Observer<S>>, user: User<S>)
    returns (r: Result)
    requires ctx.Valid()
    modifies ctx, ctx.strs, ctx.nums, ctx.unums, user
    ensures r == Alone(old(ctx.View()), p).report.result
    ensures user.state == WatchPolicy(observer, old(user.state), p.info, Alone(old(ctx.View()), p))
    ensures SameKnowledge(old(ctx.View()), ctx.View())
  {
    ErrorsAreNotKnowledge(ctx.View(), 0, ESUCCESS, false);
    ctx.SetError(ESUCCESS);
    if observer.Some? && observer.value.policyEnter.Some? {
      user.state := observer.value.policyEnter.value(user.state, p.info);
    }
    r := Abstain;
    if p.rules.Some? {
      RunKeepsKnowledge(ctx.View(), p.rules.value, 0);
      r := EvaluateRules(ctx, p.rules.value, 0, observer, user);
    }
    if observer.Some? && observer.value.policyExit.Some? {
      user.state := observer.value.policyExit.value(user.state, r);
    }
  }

  method EvaluatePolicy<S>(ctx: EvalCtx, p: Policy, observer: Option<Observer<S>>, user: User<S>)
    returns (report: Report)
    requires ctx.Valid()
    modifies ctx, ctx.strs, ctx.nums, ctx.unums, ctx.actions, user
    ensures report == Alone(old(ctx.View()), p).report
    ensures user.state == WatchPolicy(observer, old(user.state), p.info, Alone(old(ctx.View()), p))
    ensures SameKnowledge(old(ctx.View()), ctx.View())
    ensures ctx.View().actions == Noted(old(ctx.View()), report.result, report.calls, p.info)
  {
    var r := WalkPolicy(ctx, p, observer, user);
    ghost var walked := ctx.View();
    var code, calls := PerformActions(ctx, r, p.actions, p.info);
    NotedIsNotKnowledge(walked, r, calls, p.info);
    NotedReadsActions(old(ctx.View()), walked, r, calls, p.info);
    ActionsForgetErrors(old(ctx.View()), walked, r, p.actions, p.info);
    report := Report(r, calls, code);
  }

  // ----- a buffer

  /** The policies evaluated among the first n, and whether shouldStop ended the run there. */
  function Progress(ps: seq<Option<Policy>>, shouldStop: Option<nat -> bool>, n: nat): (seq<Policy>, bool)
    requires n <= |ps|
  {
    if n == 0 then ([], false)
    else
      var (done, stopped) := Progress(ps, shouldStop, n - 1);
      if stopped || ps[n - 1].None? then (done, stopped)
      else (done + [ps[n - 1].value], shouldStop.Some? && shouldStop.value(|done|))
  }

  /** The policies evaluated: those present, up to the first one after which shouldStop says so. */
  function Evaluated(ps: seq<Option<Policy>>, shouldStop: Option<nat -> bool>): seq<Policy> {
    Progress(ps, shouldStop, |ps|).0
  }

  lemma {:induction false} StoppedStays(ps: seq<Option<Policy>>, shouldStop: Option<nat -> bool>, n: nat, m: nat)
    requires n <= m <= |ps| && Progress(ps, shouldStop, n).1
    ensures Progress(ps, shouldStop, m) == Progress(ps, shouldStop, n)
    decreases m
  {
    if n == m {
    } else {
      StoppedStays(ps, shouldStop, n, m - 1);
    }
  }

  lemma OneMorePolicy(ps: seq<Option<Policy>>, shouldStop: Option<nat -> bool>, n: nat, done: seq<Policy>)
    requires n < |ps| && Progress(ps, shouldStop, n) == (done, false)
    ensures Progress(ps, shouldStop, n + 1) ==
            if ps[n].None? then (done, false)
            else (done + [ps[n].value], shouldStop.Some? && shouldStop.value(|done|))
  {
  }

  lemma StoppedIsEvaluated(ps: seq<Option<Policy>>, shouldStop: Option<nat -> bool>, n: nat, done: seq<Policy>)
    requires n <= |ps| && Progress(ps, shouldStop, n) == (done, true)
    ensures Evaluated(ps, shouldStop) == done
  {
    StoppedStays(ps, shouldStop, n, |ps|);
  }

  /** The policies that are there, in order. */
  function Present(ps: seq<Option<Policy>>): seq<Policy> {
    if ps == [] then []
    else
      var n := |ps| - 1;
      Present(ps[..n]) + if ps[n].Some? then [ps[n].value] else []
  }

  lemma {:induction false} ProgressIsPrefix(ps: seq<Option<Policy>>, shouldStop: Option<nat -> bool>, n: nat)
    requires n <= |ps|
    ensures var (done, stopped) := Progress(ps, shouldStop, n);
            && done <= Present(ps[..n]) && (!stopped ==> done == Present(ps[..n]))
            && (stopped ==> done != [] && shouldStop.Some? && shouldStop.value(|done| - 1))
            && (shouldStop.Some? ==>
                  forall k :: 0 <= k < (if stopped then |done| - 1 else |done|) ==> !shouldStop.value(k))
    decreases n
  {
    if n == 0 {
    } else {
      assert ps[..n][..n - 1] == ps[..n - 1];
      ProgressIsPrefix(ps, shouldStop, n - 1);
    }
  }

  /** The run covers the first policies present: all of them, or up to the first one after which it is stopped. */
  lemma RunStopsAtFirstStop(ps: seq<Option<Policy>>, shouldStop: Option<nat -> bool>)
    ensures var done := Evaluated(ps, shouldStop);
            && done <= Present(ps)
            && (|done| < |Present(ps)| ==> done != [] && shouldStop.Some? && shouldStop.value(|done| - 1))
            && (shouldStop.Some? ==> forall k :: 0 <= k < |done| - 1 ==> !shouldStop.value(k))
  {
    ProgressIsPrefix(ps, shouldStop, |ps|);
    assert ps[..|ps|] == ps;
  }

  function Total(reports: seq<Report>): int {
    if reports == [] then 0 else Total(reports[..|reports| - 1]) + reports[|reports| - 1].code
  }

  /** The total is the plain sum of the codes: whatever is split off contributes its own. */
  lemma {:induction false} TotalIsSum(xs: seq<Report>, ys: seq<Report>)
    ensures Total(xs + ys) == Total(xs) + Total(ys)
    ensures |xs| == 1 ==> Total(xs) == xs[0].code
    decreases |ys|
  {
    if ys == [] {
      assert xs + ys == xs;
    } else {
      var n := |ys| - 1;
      TotalIsSum(xs, ys[..n]);
      assert (xs + ys)[..|xs| + n] == xs + ys[..n];
    }
  }

  /** What an observer goes through for a whole buffer. */
  ghost function WatchAll<S>(o: Option<Observer<S>>, s: S, c: Tables, ps: seq<Policy>): S
    requires c.Valid()
  {
    if ps == [] then s
    else
      var n := |ps| - 1;
      WatchPolicy(o, WatchAll(o, s, c, ps[..n]), ps[n].info, Alone(c, ps[n]))
  }

  /** The reports of policies, each evaluated alone in c. */
  ghost function Reports(c: Tables, ps: seq<Policy>): (reports: seq<Report>)
    requires c.Valid()
    ensures |reports| == |ps|
  {
    seq(|ps|, k requires 0 <= k < |ps| => Alone(c, ps[k]).report)
  }

  lemma OneMoreReport<S>(o: Option<Observer<S>>, s: S, c: Tables, ps: seq<Policy>, p: Policy)
    requires c.Valid()
    ensures var report := Alone(c, p).report;
            && WatchAll(o, s, c, ps + [p]) == WatchPolicy(o, WatchAll(o, s, c, ps), p.info, Alone(c, p))
            && Reports(c, ps + [p]) == Reports(c, ps) + [report]
            && Total(Reports(c, ps + [p])) == Total(Reports(c, ps)) + report.code
  {
    assert (ps + [p])[..|ps|] == ps;
    var before, after := Reports(c, ps), Reports(c, ps + [p]);
    assert after == before + [Alone(c, p).report];
    assert after[..|after| - 1] == before;
  }

  /** The run so far, from s and c: these policies are done, and the context knows what c knows. */
  ghost predicate Done<S>(
    view: Tables, state: S, o: Option<Observer<S>>, s: S, c: Tables, ps: seq<Policy>, reports: seq<Report>)
  {
    SameKnowledge(c, view) && reports == Reports(c, ps) && state == WatchAll(o, s, c, ps)
  }

  method EvaluateNext<S>(
    ctx: EvalCtx, p: Policy, observer: Option<Observer<S>>, user: User<S>,
    ghost s: S, ghost c: Tables, ghost done: seq<Policy>, ghost reports: seq<Report>)
    returns (report: Report)
    requires ctx.Valid() && Done(ctx.View(), user.state, observer, s, c, done, reports)
    modifies ctx, ctx.strs, ctx.nums, ctx.unums, ctx.actions, user
    ensures Done(ctx.View(), user.state, observer, s, c, done + [p], reports + [report])
    ensures Total(reports + [report]) == Total(reports) + report.code
  {
    OutcomeForgetsErrors(c, ctx.View(), p);
    report := EvaluatePolicy(ctx, p, observer, user);
    OneMoreReport(observer, s, c, done, p);
  }

  /** The same with the sum of the codes, before entry n of the buffer; stopped: the run ends there. */
  ghost predicate Reached<S>(
    view: Tables, state: S, o: Option<Observer<S>>, s: S, c: Tables, all: seq<Option<Policy>>,
    shouldStop: Option<nat -> bool>, n: nat, done: seq<Policy>, reports: seq<Report>, total: int, stopped: bool)
  {
    && Done(view, state, o, s, c, done, reports) && total == Total(reports)
    && n <= |all| && Progress(all, shouldStop, n) == (done, stopped)
  }

  /** One round of the loop over the policies of a buffer. */
  method EvaluateAt<S>(
    ctx: EvalCtx, all: seq<Option<Policy>>, ix: nat, shouldStop: Option<nat -> bool>,
    observer: Option<Observer<S>>, user: User<S>, total: int, reports: seq<Report>,
    ghost s: S, ghost c: Tables, ghost done: seq<Policy>)
    returns (sum: int, more: seq<Report>, stop: bool, ghost after: seq<Policy>)
    requires ctx.Valid() && ix < |all|
    requires Reached(ctx.View(), user.state, observer, s, c, all, shouldStop, ix, done, reports, total, false)
    modifies ctx, ctx.strs, ctx.nums, ctx.unums, ctx.actions, user
    ensures Reached(ctx.View(), user.state, observer, s, c, all, shouldStop, ix + 1, after, more, sum, stop)
  {
    OneMorePolicy(all, shouldStop, ix, done);
    if all[ix].None? {
      return total, reports, false, done;
    }
    var policy := all[ix].value;
    var report := EvaluateNext(ctx, policy, observer, user, s, c, done, reports);
    sum, more, after := total + report.code, reports + [report], done + [policy];
    stop := shouldStop.Some? && shouldStop.value(|reports|);
  }

  /** The loop over the policies of a buffer. */
  method EvaluatePolicies<S>(
    ctx: EvalCtx, all: seq<Option<Policy>>, shouldStop: Option<nat -> bool>, observer: Option<Observer<S>>, user: User<S>)
    returns (total: int, reports: seq<Report>, ghost done: seq<Policy>)
    requires ctx.Valid()
    modifies ctx, ctx.strs, ctx.nums, ctx.unums, ctx.actions, user
    ensures total == Total(reports) && done == Evaluated(all, shouldStop)
    ensures Done(ctx.View(), user.state, observer, old(user.state), old(ctx.View()), done, reports)
  {
    ghost var s, c := user.state, ctx.View();
    total, reports, done := ESUCCESS, [], [];
    for ix := 0 to |all|
      invariant Reached(ctx.View(), user.state, observer, s, c, all, shouldStop, ix, done, reports, total, false)
    {
      var stop;
      total, reports, stop, done := EvaluateAt(ctx, all, ix, shouldStop, observer, user, total, reports, s, c, done);
      if stop {
        StoppedIsEvaluated(all, shouldStop, ix + 1, done);
        break;
      }
    }
  }

  /**
   A buffer run. Each evaluated policy comes to what it would alone, in the context the run
   started from; the total is the sum of the codes. The k-th answer of shouldStop is asked for
   after the k-th policy evaluated.
   */
  method EvaluateBufferEarlyExit<S>(
    ctx: EvalCtx, policies: Option<seq<Option<Policy>>>, shouldStop: Option<nat -> bool>,
    observer: Option<Observer<S>>, user: User<S>)
    returns (total: int, reports: seq<Report>, ghost done: seq<Policy>)
    requires ctx.Valid()
    modifies ctx, ctx.strs, ctx.nums, ctx.unums, ctx.actions, user
    ensures policies.None? ==> total == ENO_DATA && reports == []
    ensures done == if policies.None? then [] else Evaluated(policies.value, shouldStop)
    ensures policies.Some? ==> total == Total(reports)
    ensures Done(ctx.View(), user.state, observer, old(user.state), old(ctx.View()), done, reports)
  {
    if policies.None? {
      return ENO_DATA, [], [];
    }
    total, reports, done := EvaluatePolicies(ctx, policies.value, shouldStop, observer, user);
  }
}
