/** The example observer: a bounded recorder of one policy's nodes, and the printer of its tree. */
module DemoTrace {
  import opened Tristate
  import opened RuleTree
  import opened Comparators
  import opened Wire
  import opened EvalContext
  import opened Observation
  import opened CEngine
  import opened CEngineFacts

  const MAX_RECORDS: nat := 64
  const STRING_MAX: nat := 128

  // ----- the recorder

  /** A bounded copy of a string, empty when there is none. */
  function Copied(s: Option<string>): Option<string> {
    match s
    case None => Some("")
    case Some(x) => Some(if |x| < STRING_MAX then x else x[..STRING_MAX - 1])
  }

  function Stored(r: Record): Record {
    match r.compared
    case Strings(id, cmp, policy, process) => r.(compared := Strings(id, cmp, Copied(policy), Copied(process)))
    case _ => r
  }

  /** A stored record differs from the one reported in its texts only, each cut after 127 characters. */
  lemma StoredKeepsRecord(r: Record)
    ensures var s := Stored(r);
            && s.kind == r.kind && s.result == r.result && s.depth == r.depth
            && s.compared.Strings? == r.compared.Strings?
            && (if !r.compared.Strings? then s == r
                else
                  && s.compared.sid == r.compared.sid && s.compared.scmp == r.compared.scmp
                  && IsCopy(s.compared.policyStr, r.compared.policyStr)
                  && IsCopy(s.compared.processStr, r.compared.processStr))
  {
  }

  predicate IsCopy(copy: Option<string>, s: Option<string>) {
    copy.Some? &&
    match s
    case None => copy.value == ""
    case Some(x) => copy.value <= x && |copy.value| == Min(|x|, 127)
  }

  datatype Recording = Recording(policy: Option<string>, records: seq<Record>, len: nat, truncated: bool)
  {
    predicate Valid() {
      |records| == MAX_RECORDS && len <= MAX_RECORDS
    }
  }

  function Entered(s: Recording): (Recording, nat) {
    if s.len >= MAX_RECORDS then (s.(truncated := true), MAX_RECORDS)
    else (s.(len := s.len + 1), s.len)
  }

  function Exited(s: Recording, handle: nat, r: Record): Recording {
    if handle < MAX_RECORDS && handle < |s.records| then s.(records := s.records[handle := Stored(r)]) else s
  }

  function Restarted(s: Recording, info: PolicyInfo): Recording {
    s.(policy := info.description, len := 0, truncated := false)
  }

  class Trace {
    var policy: Option<string>
    const records: array<Record>
    var len: nat
    var truncated: bool

    ghost predicate Valid()
      reads this
    {
      records.Length == MAX_RECORDS && len <= MAX_RECORDS
    }

    ghost function View(): Recording
      reads this, records
    {
      Recording(policy, records[..], len, truncated)
    }

    constructor ()
      ensures Valid() && len == 0 && !truncated && fresh(records)
    {
      policy := None;
      records := new Record[MAX_RECORDS](_ => Record(KindUnknown, True, 0, Nothing));
      len := 0;
      truncated := false;
    }

    method NodeEnter(depth: nat) returns (handle: nat)
      requires Valid()
      modifies this
      ensures Valid() && (View(), handle) == Entered(old(View()))
    {
      if len >= MAX_RECORDS {
        truncated := true;
        return MAX_RECORDS;
      }
      handle := len;
      len := len + 1;
    }

    method NodeExit(handle: nat, record: Record)
      requires Valid()
      modifies records
      ensures Valid() && View() == Exited(old(View()), handle, record)
    {
      if handle >= MAX_RECORDS {
        return;
      }
      records[handle] := record;
      if record.compared.Strings? {
        records[handle] := record.(compared := record.compared.(
          policyStr := Copied(record.compared.policyStr), processStr := Copied(record.compared.processStr)));
      }
    }

    method PolicyEnter(info: PolicyInfo)
      requires Valid()
      modifies this
      ensures Valid() && View() == Restarted(old(View()), info)
    {
      policy := info.description;
      len := 0;
      truncated := false;
    }
  }

  /** The recorder as an observer; its callbacks are those of the class. */
  function Recorder(): Observer<Recording> {
    Observer(
      Some((s: Recording, info: PolicyInfo) => Restarted(s, info)),
      Some((s: Recording, _) => s),
      Some((s: Recording, _) => Entered(s)),
      Some((s: Recording, handle: nat, r: Record) => Exited(s, handle, r)))
  }

  /** The records of visited nodes, a node before its children. */
  function PreOrder(visits: seq<Visit>): seq<Record> {
    if visits == [] then []
    else [visits[0].record] + PreOrder(visits[0].kids) + PreOrder(visits[1..])
  }

  function Min(a: nat, b: nat): nat {
    if a <= b then a else b
  }

  /** after is before with the first of these records appended, as far as there is room. */
  ghost predicate Appended(before: Recording, after: Recording, rs: seq<Record>) {
    && before.Valid() && after.Valid() && after.policy == before.policy
    && after.len == Min(MAX_RECORDS, before.len + |rs|)
    && after.truncated == (before.truncated || before.len + |rs| > MAX_RECORDS)
    && (forall i :: 0 <= i < before.len ==> after.records[i] == before.records[i])
    && (forall i :: before.len <= i < after.len ==> after.records[i] == Stored(rs[i - before.len]))
  }

  lemma {:induction false} RecorderAppends(s: Recording, visits: seq<Visit>)
    requires s.Valid()
    ensures Appended(s, Watch(Recorder(), s, visits), PreOrder(visits))
    decreases visits
  {
    if visits == [] {
    } else {
      var v := visits[0];
      var (entered, handle) := Entered(s);
      var inside := Watch(Recorder(), entered, v.kids);
      RecorderAppends(entered, v.kids);
      var left := Exited(inside, handle, v.record);
      RecorderNests(s, entered, inside, v.record, PreOrder(v.kids));
      var after := Watch(Recorder(), left, visits[1..]);
      RecorderAppends(left, visits[1..]);
      AppendedJoin(s, left, after, [v.record] + PreOrder(v.kids), PreOrder(visits[1..]));
    }
  }

  lemma RecorderNests(s: Recording, entered: Recording, inside: Recording, r: Record, rs: seq<Record>)
    requires s.Valid() && entered == Entered(s).0 && Appended(entered, inside, rs)
    ensures Appended(s, Exited(inside, Entered(s).1, r), [r] + rs)
  {
    var after := Exited(inside, Entered(s).1, r);
    forall i | s.len <= i < after.len ensures after.records[i] == Stored(([r] + rs)[i - s.len]) {
      if i > s.len {
        assert ([r] + rs)[i - s.len] == rs[i - entered.len];
      }
    }
  }

  lemma AppendedJoin(a: Recording, b: Recording, c: Recording, rs: seq<Record>, ss: seq<Record>)
    requires Appended(a, b, rs) && Appended(b, c, ss)
    ensures Appended(a, c, rs + ss)
  {
    forall i | a.len <= i < c.len ensures c.records[i] == Stored((rs + ss)[i - a.len]) {
      if i < b.len {
        assert c.records[i] == b.records[i];
      } else {
        assert b.len == a.len + |rs|;
      }
    }
  }

  /** What the recorder holds after a policy: its first nodes in pre-order, and whether some are missing. */
  lemma RecorderHoldsPreOrder(c: Tables, t: WireNode, before: Recording, info: PolicyInfo)
    requires c.Valid() && before.Valid()
    ensures var visits := Run(c, t, 0).visits;
            var after := Watch(Recorder(), Restarted(before, info), visits);
            var n := |PreOrder(visits)|;
            && after.policy == info.description
            && after.len == Min(MAX_RECORDS, n) && (after.truncated <==> n > MAX_RECORDS)
            && |after.records| == MAX_RECORDS
            && forall i :: 0 <= i < after.len ==> after.records[i] == Stored(PreOrder(visits)[i])
  {
    RecorderAppends(Restarted(before, info), Run(c, t, 0).visits);
  }

  // ----- the printer

  datatype Line =
    | Opening(level: nat, result: Result, kind: Kind)
    | Closing(level: nat)
    | Plain(level: nat, result: Result, kind: Kind, compared: Compared)

  predicate IsComposite(k: Kind) {
    k in {KindAnd, KindOr, KindNot}
  }

  function LineOf(r: Record): Line {
    if IsComposite(r.kind) then Opening(r.depth, r.result, r.kind)
    else Plain(r.depth, r.result, r.kind, r.compared)
  }

  /** The closing lines that bring open down to downTo. */
  function Closings(open: nat, downTo: nat): seq<Line>
    decreases open
  {
    if open <= downTo then [] else [Closing(open - 1)] + Closings(open - 1, downTo)
  }

  /** How many parentheses are open before the line of a record. */
  function OpenBefore(open: nat, r: Record): nat {
    Min(open, r.depth)
  }

  function OpenAfter(open: nat, r: Record): nat {
    OpenBefore(open, r) + if IsComposite(r.kind) then 1 else 0
  }

  function OpenAfterAll(rs: seq<Record>): nat
    decreases |rs|
  {
    if rs == [] then 0 else OpenAfter(OpenAfterAll(rs[..|rs| - 1]), rs[|rs| - 1])
  }

  function Lines(rs: seq<Record>): seq<Line>
    decreases |rs|
  {
    if rs == [] then []
    else
      var n := |rs| - 1;
      Lines(rs[..n]) + Closings(OpenAfterAll(rs[..n]), rs[n].depth) + [LineOf(rs[n])]
  }

  method CloseComposites(open: nat, downTo: nat) returns (left: nat, lines: seq<Line>)
    ensures left == Min(open, downTo) && lines == Closings(open, downTo)
  {
    left := open;
    lines := [];
    while left > downTo
      invariant left <= open && (open > downTo ==> left >= downTo)
      invariant Closings(open, downTo) == lines + Closings(left, downTo)
      invariant open <= downTo ==> left == open
    {
      left := left - 1;
      lines := lines + [Closing(left)];
    }
  }

  datatype Header = Header(policy: string, nodes: nat, truncated: bool)

  method PrintEvaluationTrace(trace: Trace) returns (header: Header, lines: seq<Line>)
    requires trace.Valid()
    ensures header == Header(
              if trace.policy.None? then "<no description>" else trace.policy.value, trace.len, trace.truncated)
    ensures lines == Lines(trace.records[..trace.len]) + Closings(OpenAfterAll(trace.records[..trace.len]), 0)
  {
    header := Header(
      if trace.policy.Some? then trace.policy.value else "<no description>", trace.len, trace.truncated);
    lines := [];
    var open := 0;
    for ix := 0 to trace.len
      invariant open == OpenAfterAll(trace.records[..ix])
      invariant lines == Lines(trace.records[..ix])
    {
      var record := trace.records[ix];
      assert trace.records[..ix + 1][..ix] == trace.records[..ix];
      var closings;
      open, closings := CloseComposites(open, record.depth);
      lines := lines + closings + [LineOf(record)];
      if IsComposite(record.kind) {
        open := open + 1;
      }
    }
    var closings;
    open, closings := CloseComposites(open, 0);
    lines := lines + closings;
  }

  // ----- printed parentheses

  /** Parentheses open after some more lines; none may close that was not opened, or at another level. */
  function Balance(open: nat, lines: seq<Line>): Option<nat>
    decreases |lines|
  {
    if lines == [] then Some(open)
    else
      match lines[0]
      case Opening(_, _, _) => Balance(open + 1, lines[1..])
      case Closing(level) => if open != level + 1 then None else Balance(level, lines[1..])
      case Plain(_, _, _, _) => Balance(open, lines[1..])
  }

  lemma {:induction false} BalanceJoin(open: nat, xs: seq<Line>, ys: seq<Line>)
    requires Balance(open, xs).Some?
    ensures Balance(open, xs + ys) == Balance(Balance(open, xs).value, ys)
    decreases |xs|
  {
    if xs == [] {
      assert xs + ys == ys;
    } else {
      assert (xs + ys)[1..] == xs[1..] + ys;
      BalanceJoin(match xs[0] { case Opening(_, _, _) => open + 1 case Closing(_) => open - 1 case _ => open }, xs[1..], ys);
    }
  }

  lemma {:induction false} ClosingsBalance(open: nat, downTo: nat)
    ensures Balance(open, Closings(open, downTo)) == Some(Min(open, downTo))
    decreases open
  {
    if open <= downTo {
    } else {
      ClosingsBalance(open - 1, downTo);
      assert Closings(open, downTo)[1..] == Closings(open - 1, downTo);
    }
  }

  lemma {:induction false} LinesBalance(rs: seq<Record>)
    ensures Balance(0, Lines(rs)) == Some(OpenAfterAll(rs))
    decreases |rs|
  {
    if rs == [] {
    } else {
      var n := |rs| - 1;
      var open := OpenAfterAll(rs[..n]);
      LinesBalance(rs[..n]);
      ClosingsBalance(open, rs[n].depth);
      BalanceJoin(0, Lines(rs[..n]), Closings(open, rs[n].depth));
      BalanceJoin(0, Lines(rs[..n]) + Closings(open, rs[n].depth), [LineOf(rs[n])]);
      assert [LineOf(rs[n])][1..] == [];
    }
  }

  /** The lines that are not there to close a parenthesis. */
  function Shown(lines: seq<Line>): seq<Line>
    decreases |lines|
  {
    if lines == [] then []
    else
      var n := |lines| - 1;
      Shown(lines[..n]) + if lines[n].Closing? then [] else [lines[n]]
  }

  lemma {:induction false} ShownJoin(xs: seq<Line>, ys: seq<Line>)
    ensures Shown(xs + ys) == Shown(xs) + Shown(ys)
    decreases |ys|
  {
    if ys == [] {
      assert xs + ys == xs;
    } else {
      var n := |ys| - 1;
      assert (xs + ys)[..|xs| + n] == xs + ys[..n];
      ShownJoin(xs, ys[..n]);
    }
  }

  lemma {:induction false} ClosingsShowNothing(open: nat, downTo: nat)
    ensures Shown(Closings(open, downTo)) == []
    decreases open
  {
    if open <= downTo {
    } else {
      ClosingsShowNothing(open - 1, downTo);
      ShownJoin([Closing(open - 1)], Closings(open - 1, downTo));
      assert [Closing(open - 1)][..0] == [];
    }
  }

  /** What the line of a record shows. */
  predicate Shows(l: Line, r: Record) {
    match r.kind
    case KindAnd => l == Opening(r.depth, r.result, KindAnd)
    case KindOr => l == Opening(r.depth, r.result, KindOr)
    case KindNot => l == Opening(r.depth, r.result, KindNot)
    case _ => l == Plain(r.depth, r.result, r.kind, r.compared)
  }

  lemma ShownAfterNothing(before: seq<Line>, closings: seq<Line>, l: Line)
    requires Shown(closings) == [] && !l.Closing?
    ensures Shown(before + closings + [l]) == Shown(before) + [l]
  {
    ShownJoin(before, closings);
    var lines := before + closings;
    assert (lines + [l])[..|lines|] == lines;
  }

  lemma ShownOneMore(rs: seq<Record>)
    requires rs != []
    ensures var n := |rs| - 1;
            Shown(Lines(rs)) == Shown(Lines(rs[..n])) + [LineOf(rs[n])]
  {
    var n := |rs| - 1;
    var before, closings := Lines(rs[..n]), Closings(OpenAfterAll(rs[..n]), rs[n].depth);
    ClosingsShowNothing(OpenAfterAll(rs[..n]), rs[n].depth);
    ShownAfterNothing(before, closings, LineOf(rs[n]));
  }

  lemma {:induction false} LinesShow(rs: seq<Record>)
    ensures var shown := Shown(Lines(rs));
            |shown| == |rs| && forall i :: 0 <= i < |rs| ==> Shows(shown[i], rs[i])
    decreases |rs|
  {
    if rs == [] {
    } else {
      LinesShow(rs[..|rs| - 1]);
      ShownOneMore(rs);
      assert Shows(LineOf(rs[|rs| - 1]), rs[|rs| - 1]);
    }
  }

  /** Apart from closing lines, what is printed is one line for each record, in order, and shows it. */
  lemma PrintedLinesShowRecords(rs: seq<Record>)
    ensures var shown := Shown(Lines(rs) + Closings(OpenAfterAll(rs), 0));
            |shown| == |rs| && forall i :: 0 <= i < |rs| ==> Shows(shown[i], rs[i])
  {
    LinesShow(rs);
    ClosingsShowNothing(OpenAfterAll(rs), 0);
    ShownJoin(Lines(rs), Closings(OpenAfterAll(rs), 0));
    assert Shown(Lines(rs)) + [] == Shown(Lines(rs));
  }

  /** Whatever the records hold, the printed parentheses balance. */
  lemma PrintedParenthesesBalance(rs: seq<Record>)
    ensures Balance(0, Lines(rs) + Closings(OpenAfterAll(rs), 0)) == Some(0)
  {
    var lines, open := Lines(rs), OpenAfterAll(rs);
    LinesBalance(rs);
    ClosingsBalance(open, 0);
    BalanceJoin(0, lines, Closings(open, 0));
  }

  // ----- printed parentheses and depths

  /** Depths as a walk of a tree gives them: the root first, then at most one level down at a time. */
  predicate WalkDepths(rs: seq<Record>) {
    (rs != [] ==> rs[0].depth == 0) &&
    forall k :: 0 <= k < |rs| - 1 ==> rs[k + 1].depth <= rs[k].depth + 1
  }

  /** Only nodes printed as composites are followed by a node inside them. */
  predicate OnlyCompositesContain(rs: seq<Record>) {
    forall k :: 0 <= k < |rs| - 1 ==> rs[k + 1].depth > rs[k].depth ==> IsComposite(rs[k].kind)
  }

  /** Before each line as many parentheses are open as the record is deep. */
  predicate OpenIsDepth(rs: seq<Record>) {
    forall k :: 0 <= k < |rs| ==> OpenBefore(OpenAfterAll(rs[..k]), rs[k]) == rs[k].depth
  }

  lemma OpenStep(rs: seq<Record>, k: nat)
    requires k < |rs|
    ensures OpenAfterAll(rs[..k + 1]) == OpenAfter(OpenAfterAll(rs[..k]), rs[k])
  {
    assert rs[..k + 1][..k] == rs[..k];
  }

  lemma {:induction false} OpenIsDepthUpTo(rs: seq<Record>, k: nat)
    requires WalkDepths(rs) && OnlyCompositesContain(rs) && k < |rs|
    ensures OpenBefore(OpenAfterAll(rs[..k]), rs[k]) == rs[k].depth
    decreases k
  {
    if k == 0 {
    } else {
      OpenIsDepthUpTo(rs, k - 1);
      OpenStep(rs, k - 1);
      assert rs[k - 1 + 1].depth <= rs[k - 1].depth + 1;
    }
  }

  /**
   The shortcut of the printer, that the parentheses left open are just the depth of the next
   record, is right exactly when no node it cannot name as an operator contains another.
   */
  lemma OpenIsDepthIff(rs: seq<Record>)
    requires WalkDepths(rs)
    ensures OpenIsDepth(rs) <==> OnlyCompositesContain(rs)
  {
    if OnlyCompositesContain(rs) {
      forall k | 0 <= k < |rs| ensures OpenBefore(OpenAfterAll(rs[..k]), rs[k]) == rs[k].depth {
        OpenIsDepthUpTo(rs, k);
      }
    }
    if OpenIsDepth(rs) {
      forall k | 0 <= k < |rs| - 1 && rs[k + 1].depth > rs[k].depth ensures IsComposite(rs[k].kind) {
        OpenStep(rs, k);
        assert OpenBefore(OpenAfterAll(rs[..k + 1]), rs[k + 1]) == rs[k + 1].depth;
      }
    }
  }

  // ----- which trees are printed that way

  /** No composite of the tree has an operator the engine does not know. */
  predicate OperatorsKnown(t: WireNode) {
    t.Node? ==> t.op != OpUnknown && forall i :: 0 <= i < |t.children| ==> OperatorsKnown(t.children[i])
  }

  /** A stretch of a walk below a node: it starts one level down, and never leaves it. */
  predicate Stretch(rs: seq<Record>, depth: nat, known: bool) {
    && (rs != [] ==> rs[0].depth == depth)
    && (forall k :: 0 <= k < |rs| ==> rs[k].depth >= depth)
    && (forall k :: 0 <= k < |rs| - 1 ==> rs[k + 1].depth <= rs[k].depth + 1)
    && (known ==> OnlyCompositesContain(rs))
  }

  lemma StretchJoin(xs: seq<Record>, ys: seq<Record>, depth: nat, known: bool)
    requires Stretch(xs, depth, known) && Stretch(ys, depth, known)
    ensures Stretch(xs + ys, depth, known)
  {
    var rs := xs + ys;
    forall k | 0 <= k < |rs| - 1
      ensures rs[k + 1].depth <= rs[k].depth + 1
      ensures known && rs[k + 1].depth > rs[k].depth ==> IsComposite(rs[k].kind)
    {
      if k + 1 < |xs| {
        assert rs[k] == xs[k] && rs[k + 1] == xs[k + 1];
      } else if k >= |xs| {
        assert rs[k] == ys[k - |xs|] && rs[k + 1] == ys[k - |xs| + 1];
      }
    }
  }

  lemma StretchNest(r: Record, rs: seq<Record>, known: bool)
    requires Stretch(rs, r.depth + 1, known) && (known && rs != [] ==> IsComposite(r.kind))
    ensures Stretch([r] + rs, r.depth, known)
  {
    var all := [r] + rs;
    forall k | 0 <= k < |all| - 1
      ensures all[k + 1].depth <= all[k].depth + 1
      ensures known && all[k + 1].depth > all[k].depth ==> IsComposite(all[k].kind)
    {
      if k > 0 {
        assert all[k] == rs[k - 1] && all[k + 1] == rs[k - 1 + 1];
      }
    }
  }

  lemma {:induction false} VisitsStretch(cs: seq<WireNode>, kids: seq<Visit>, depth: nat, known: bool)
    requires |kids| <= |cs| && forall i :: 0 <= i < |kids| ==> Faithful(cs[i], kids[i], depth)
    requires known ==> forall i :: 0 <= i < |cs| ==> OperatorsKnown(cs[i])
    ensures Stretch(PreOrder(kids), depth, known)
    decreases kids
  {
    if kids == [] {
    } else {
      var t, v := cs[0], kids[0];
      assert Faithful(t, v, depth);
      if t.Node? {
        FaithfulNode(t, v, depth);
        VisitsStretch(t.children, v.kids, depth + 1, known);
      }
      StretchNest(v.record, PreOrder(v.kids), known);
      forall i | 0 <= i < |kids[1..]| ensures Faithful(cs[1..][i], kids[1..][i], depth) {
        assert kids[1..][i] == kids[i + 1] && cs[1..][i] == cs[i + 1];
      }
      VisitsStretch(cs[1..], kids[1..], depth, known);
      StretchJoin([v.record] + PreOrder(v.kids), PreOrder(kids[1..]), depth, known);
    }
  }

  /** What is recorded for any tree is a walk; one of known operators is printed by depth. */
  lemma RecordedTreesPrintByDepth(c: Tables, t: WireNode, before: Recording, info: PolicyInfo)
    requires c.Valid() && before.Valid()
    ensures var after := Watch(Recorder(), Restarted(before, info), Run(c, t, 0).visits);
            && after.len <= |after.records|
            && var rs := after.records[..after.len];
               && WalkDepths(rs)
               && (OpenIsDepth(rs) <==> OnlyCompositesContain(rs))
               && (OperatorsKnown(t) ==> OpenIsDepth(rs))
  {
    var visits := Run(c, t, 0).visits;
    RunIsFaithful(c, t, 0);
    VisitsStretch([t], visits, 0, OperatorsKnown(t));
    RecorderHoldsPreOrder(c, t, before, info);
    var after := Watch(Recorder(), Restarted(before, info), visits);
    var rs := after.records[..after.len];
    forall k | 0 <= k < |rs|
      ensures rs[k].depth == PreOrder(visits)[k].depth && rs[k].kind == PreOrder(visits)[k].kind
    {
      assert rs[k] == Stored(PreOrder(visits)[k]);
    }
    OpenIsDepthIff(rs);
    if OperatorsKnown(t) {
      forall k | 0 <= k < |rs| - 1 && rs[k + 1].depth > rs[k].depth ensures IsComposite(rs[k].kind) {
        assert PreOrder(visits)[k + 1].depth > PreOrder(visits)[k].depth;
      }
    }
  }

  /** An unknown operator over any node is recorded, and printed with a parenthesis too few. */
  lemma UnknownOperatorPrintsFlat(c: Tables, before: Recording, info: PolicyInfo)
    requires c.Valid() && before.Valid()
    ensures var after := Watch(Recorder(), Restarted(before, info), Run(c, Node(OpUnknown, [Blank]), 0).visits);
            after.len == 2 <= |after.records| && !OpenIsDepth(after.records[..after.len])
  {
    var t: WireNode := Node(OpUnknown, [Blank]);
    var child := Visit(Record(KindUnknown, Abstain, 1, Nothing), []);
    assert [t.children[0]][1..] == [];
    assert Run(c, Blank, 1).visits == [child];
    assert RunChildren(c, OpUnknown, Abstain, [Blank], 1).visits == [child];
    var visits := Run(c, t, 0).visits;
    assert visits == [Visit(Record(KindUnknown, Abstain, 0, Nothing), [child])];
    assert PreOrder([child]) == [child.record] by {
      assert [child][1..] == [];
    }
    assert PreOrder(visits) == [visits[0].record, child.record] by {
      assert visits[1..] == [];
    }
    RecorderHoldsPreOrder(c, t, before, info);
    RecordedTreesPrintByDepth(c, t, before, info);
    var after := Watch(Recorder(), Restarted(before, info), visits);
    var rs := after.records[..after.len];
    assert rs[0] == visits[0].record && rs[0 + 1] == child.record;
  }
}
