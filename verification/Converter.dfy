/** The requirements compiler: version bounds and deny rules lowered into rule trees. */
module Converter {
  import opened Tristate
  import opened RuleTree
  import opened Comparators
  import opened EvaluatorIds
  import opened Wire
  import opened EvalContext
  import Glob
  import CEngine
  import CEngineFacts

  datatype ConvertError = NoConditions | UnknownOs | UnknownArchitecture | NoArguments | NoMatchableParts

  datatype Converted<+T> = Ok(value: T) | Error(error: ConvertError)

  // ----- meanings of generated trees

  function Meanings(cs: seq<WireNode>, v: Evaluator -> Result): (rs: seq<Result>)
    ensures |rs| == |cs|
  {
    seq(|cs|, i requires 0 <= i < |cs| => Meaning(cs[i], v))
  }

  lemma MeaningOfNode(op: Op, cs: seq<WireNode>, v: Evaluator -> Result)
    ensures Meaning(Node(op, cs), v) == Combine(op, Meanings(cs, v))
  {
    assert Meanings(cs, v) == seq(|cs|, i requires 0 <= i < |cs| => Meaning(cs[i], v));
  }

  lemma MeaningsJoin(xs: seq<WireNode>, ys: seq<WireNode>, v: Evaluator -> Result)
    ensures Meanings(xs + ys, v) == Meanings(xs, v) + Meanings(ys, v)
  {
  }

  /** A single node stands for itself, several are put under an operator. */
  function Collapse(op: Op, nodes: seq<WireNode>): WireNode
    requires nodes != []
  {
    if |nodes| == 1 then nodes[0] else Node(op, nodes)
  }

  /** Collapsing a group of one does not change what the group means. */
  lemma CollapseMeans(op: Op, nodes: seq<WireNode>, v: Evaluator -> Result)
    requires nodes != [] && (op == OpAnd || op == OpOr)
    ensures Meaning(Collapse(op, nodes), v) == Combine(op, Meanings(nodes, v))
  {
    if |nodes| == 1 {
      assert Meanings(nodes, v) == [Meaning(nodes[0], v)];
    } else {
      MeaningOfNode(op, nodes, v);
    }
  }

  lemma CollapseWithin(op: Op, nodes: seq<WireNode>, n: nat)
    requires nodes != [] && forall i :: 0 <= i < |nodes| ==> Within(nodes[i], n)
    ensures Within(Collapse(op, nodes), n + 1)
  {
    if |nodes| == 1 {
      WithinMore(nodes[0], n);
    }
  }

  lemma {:induction false} WithinMore(t: WireNode, n: nat)
    requires Within(t, n)
    ensures Within(t, n + 1)
    decreases t
  {
    if !t.Node? {
    } else {
      forall i | 0 <= i < |t.children| ensures Within(t.children[i], n) {
        WithinMore(t.children[i], n - 1);
      }
    }
  }

  // ----- patterns

  function CmpFor(pattern: string): StrCmp {
    Str(if '*' in pattern || '?' in pattern then Wildcard else Exact)
  }

  function PatternLeaf(id: int, pattern: CString): WireNode {
    Leaf(StrEvaluator(id, CmpFor(pattern), Some(pattern)))
  }

  /** Whichever comparator is chosen, a pattern accepts what the wildcard matcher accepts for it. */
  lemma PatternChoiceIsWildcard(pattern: CString, value: CString)
    ensures CEngine.DefaultStr(Some(pattern), CmpFor(pattern), Some(value)).result ==
            FromBool(Matches(Wildcard, pattern, value))
  {
    if IsLiteral(pattern) {
      ExactIsWildcard(pattern, value);
    }
  }

  // ----- argument lists

  datatype ArgumentList = ArgumentList(arguments: seq<CString>, position: Option<int>)

  function ArgvId(position: Option<int>): int {
    match position
    case None => PROCESS_ARGV
    case Some(p) =>
      if 0 <= p <= 5 then PROCESS_ARGV_0 + p
      else if -6 <= p <= -1 then PROCESS_ARGV_N - 1 - p
      else PROCESS_ARGV
  }

  /** The positions with an id of their own; the others stand for any argument. */
  predicate IsNamed(p: int) {
    -6 <= p <= 5
  }

  /** Different named positions read different facts, and only those are told apart from any argument. */
  lemma ArgvIdsAreDistinct(p: int, q: int)
    ensures ArgvId(Some(p)) == ArgvId(Some(q)) <==> p == q || (!IsNamed(p) && !IsNamed(q))
    ensures ArgvId(Some(p)) == PROCESS_ARGV <==> !IsNamed(p)
    ensures StrIdInRange(ArgvId(Some(p))) && (IsNamed(p) ==> !IsListId(ArgvId(Some(p))))
  {
  }

  predicate IsMatchable(argument: string) {
    argument != "" && argument != "*" && argument != "?"
  }

  /** How far the position has moved at an argument: the first one never moves it, nor an empty one. */
  function Moved(arguments: seq<CString>, i: nat): nat
    requires i < |arguments|
  {
    if i == 0 then 0 else Moved(arguments, i - 1) + if arguments[i] == "" then 0 else 1
  }

  function PositionOf(a: ArgumentList, i: nat): Option<int>
    requires i < |a.arguments|
  {
    match a.position
    case None => None
    case Some(p) => Some(p + Moved(a.arguments, i))
  }

  /** The leaf of argument i. */
  function ArgumentLeaf(a: ArgumentList, i: nat): WireNode
    requires i < |a.arguments|
  {
    PatternLeaf(ArgvId(PositionOf(a, i)), a.arguments[i])
  }

  /** The leaves of the first n arguments, in order; what matches anything gives none. */
  function ArgumentLeaves(a: ArgumentList, n: nat): seq<WireNode>
    requires n <= |a.arguments|
  {
    if n == 0 then []
    else
      ArgumentLeaves(a, n - 1) +
      if IsMatchable(a.arguments[n - 1]) then [ArgumentLeaf(a, n - 1)] else []
  }

  function ArgumentTree(a: ArgumentList): Converted<WireNode> {
    var leaves := ArgumentLeaves(a, |a.arguments|);
    if a.arguments == [] then Error(NoArguments)
    else if leaves == [] then Error(NoMatchableParts)
    else Ok(Collapse(OpAnd, leaves))
  }

  method ConvertArguments(a: ArgumentList) returns (r: Converted<WireNode>)
    ensures r == ArgumentTree(a)
  {
    if |a.arguments| == 0 {
      return Error(NoArguments);
    }
    var nodes: seq<WireNode> := [];
    var pos := a.position;
    for i := 0 to |a.arguments|
      invariant nodes == ArgumentLeaves(a, i)
      invariant pos == if i == 0 then a.position else PositionOf(a, i - 1)
    {
      var argument := a.arguments[i];
      if argument == "" {
        continue;
      }
      if pos.Some? && i > 0 {
        pos := Some(pos.value + 1);
      }
      if argument != "*" && argument != "?" {
        nodes := nodes + [PatternLeaf(ArgvId(pos), argument)];
      }
    }
    if |nodes| == 0 {
      return Error(NoMatchableParts);
    }
    if |nodes| == 1 {
      return Ok(nodes[0]);
    }
    return Ok(Node(OpAnd, nodes));
  }

  /** The counter of the converter moves with the arguments exactly while none of them is empty. */
  lemma {:induction false} MovedBound(arguments: seq<CString>, i: nat)
    requires i < |arguments|
    ensures Moved(arguments, i) <= i
    ensures Moved(arguments, i) == i <==> forall k :: 1 <= k <= i ==> arguments[k] != ""
  {
    if i == 0 {
    } else {
      MovedBound(arguments, i - 1);
    }
  }

  /**
   The argument of a command line of argc arguments that an id reads: those with an id of their own
   count from the first or, as N, N_2 and so on, from the last. None means any argument.
   */
  function ArgumentRead(id: int, argc: nat): Option<int> {
    if PROCESS_ARGV_0 <= id <= PROCESS_ARGV_0 + 5 then Some(id - PROCESS_ARGV_0)
    else if PROCESS_ARGV_N <= id <= PROCESS_ARGV_N + 5 then Some(argc - 1 - (id - PROCESS_ARGV_N))
    else None
  }

  /** The argument a position stands for: a negative one counts from the end. */
  function Place(p: int, argc: nat): int {
    if p >= 0 then p else argc + p
  }

  /**
   On every command line the leaf of argument i reads the i-th argument after the start, exactly
   when none of the arguments after the first up to i is empty and that place, counted from the
   same end as the start, has an id of its own.
   */
  lemma ArgumentsReadTheirPlacesIff(a: ArgumentList, i: nat)
    requires i < |a.arguments| && a.position.Some?
    ensures var p, id := a.position.value, ArgumentLeaf(a, i).leaf.id;
            (forall argc: nat :: ArgumentRead(id, argc) == Some(Place(p, argc) + i)) <==>
            && (forall k :: 1 <= k <= i ==> a.arguments[k] != "")
            && IsNamed(p + i) && (p < 0 ==> p + i < 0)
  {
    var p, id := a.position.value, ArgumentLeaf(a, i).leaf.id;
    MovedBound(a.arguments, i);
    if forall argc: nat :: ArgumentRead(id, argc) == Some(Place(p, argc) + i) {
      assert ArgumentRead(id, 1) == Some(Place(p, 1) + i);
      assert ArgumentRead(id, 0) == Some(Place(p, 0) + i);
    }
  }

  /**
   Where the place has no id of its own. A leaf reads any argument when the counter has left
   -6..5; and counting on from the end of the command line leads to its beginning.
   */
  lemma PositionsDoNotStopAtTheEnd(a: ArgumentList, i: nat, argc: nat)
    requires i < |a.arguments| && a.position.Some?
    ensures var p, id := a.position.value, ArgumentLeaf(a, i).leaf.id;
            var q := p + Moved(a.arguments, i);
            && (id == PROCESS_ARGV <==> !IsNamed(q))
            && (p > 5 ==> id == PROCESS_ARGV)
            && (p + i < -6 ==> id == PROCESS_ARGV)
            && (p < 0 <= q <= 5 ==> ArgumentRead(id, argc) == Some(q))
  {
    MovedBound(a.arguments, i);
  }

  lemma {:induction false} ArgumentLeavesAreLeaves(a: ArgumentList, n: nat)
    requires n <= |a.arguments|
    ensures forall i :: 0 <= i < |ArgumentLeaves(a, n)| ==>
              ArgumentLeaves(a, n)[i].Leaf? && IdInRange(ArgumentLeaves(a, n)[i].leaf)
  {
    if n == 0 {
    } else {
      ArgumentLeavesAreLeaves(a, n - 1);
    }
  }

  // ----- deny rules

  datatype Deny = Deny(
    os: CString, cmds: seq<CString>, args: seq<ArgumentList>, envs: map<CString, Option<CString>>)

  function NormalizeOs(os: CString): Option<CString> {
    if os == "windows" || os == "linux" then Some(os)
    else if os == "darwin" || os == "macos" then Some("macos")
    else None
  }

  function EnvPattern(key: CString, value: Option<CString>): CString {
    if value.None? then key + "=*?" else key + "=" + value.value
  }

  function EnvLeaf(key: CString, value: Option<CString>): WireNode {
    PatternLeaf(PROCESS_ENVAR, EnvPattern(key, value))
  }

  /** The order in which a range over a map yields its keys: any order, each key once. */
  ghost predicate Enumerates(order: seq<CString>, envs: map<CString, Option<CString>>) {
    && (forall k :: k in order <==> k in envs)
    && (forall i, j :: 0 <= i < j < |order| ==> order[i] != order[j])
  }

  function CmdLeaves(cmds: seq<CString>): (ns: seq<WireNode>)
    ensures |ns| == |cmds|
  {
    seq(|cmds|, i requires 0 <= i < |cmds| => PatternLeaf(PROCESS_EXE_FULL_PATH, cmds[i]))
  }

  function EnvLeaves(order: seq<CString>, envs: map<CString, Option<CString>>): (ns: seq<WireNode>)
    requires forall k :: k in order ==> k in envs
    ensures |ns| == |order|
  {
    seq(|order|, i requires 0 <= i < |order| => EnvLeaf(order[i], envs[order[i]]))
  }

  /** The first argument list that does not convert decides the error. */
  function ArgumentTrees(args: seq<ArgumentList>): Converted<seq<WireNode>> {
    if args == [] then Ok([])
    else
      var n := |args| - 1;
      match ArgumentTrees(args[..n])
      case Error(e) => Error(e)
      case Ok(ts) =>
        match ArgumentTree(args[n])
        case Error(e) => Error(e)
        case Ok(t) => Ok(ts + [t])
  }

  function Group(op: Op, nodes: seq<WireNode>): seq<WireNode> {
    if nodes == [] then [] else [Collapse(op, nodes)]
  }

  /** The groups of a rule that are present. */
  ghost function DenyGroups(d: Deny, args: seq<WireNode>, order: seq<CString>): seq<WireNode>
    requires Enumerates(order, d.envs) && (d.os == "" || NormalizeOs(d.os).Some?)
  {
    OsGroup(d.os) + Group(OpOr, CmdLeaves(d.cmds)) + Group(OpAnd, args)
    + Group(OpAnd, EnvLeaves(order, d.envs))
  }

  ghost function DenyTree(d: Deny, order: seq<CString>): Converted<WireNode>
    requires Enumerates(order, d.envs)
  {
    if d.os == "" && d.cmds == [] && d.args == [] && d.envs == map[] then Error(NoConditions)
    else if d.os != "" && NormalizeOs(d.os).None? then Error(UnknownOs)
    else
      match ArgumentTrees(d.args)
      case Error(e) => Error(e)
      case Ok(args) =>
        ArgumentTreesCount(d.args);
        EnumeratesNothing(order, d.envs);
        Ok(Collapse(OpAnd, DenyGroups(d, args, order)))
  }

  lemma EnumeratesNothing(order: seq<CString>, envs: map<CString, Option<CString>>)
    requires Enumerates(order, envs)
    ensures order == [] <==> envs == map[]
  {
    if order != [] {
      assert order[0] in envs;
    }
    if envs != map[] {
      var k :| k in envs;
      assert k in order;
    }
  }

  function OsLeaf(os: CString): WireNode
    requires NormalizeOs(os).Some?
  {
    Leaf(StrEvaluator(OS, Str(Exact), Some(NormalizeOs(os).value)))
  }

  lemma {:induction false} ArgumentTreesCount(args: seq<ArgumentList>)
    ensures ArgumentTrees(args).Ok? ==> |ArgumentTrees(args).value| == |args|
    decreases |args|
  {
    if args == [] {
    } else {
      ArgumentTreesCount(args[..|args| - 1]);
    }
  }

  method ConvertCommands(cmds: seq<CString>) returns (nodes: seq<WireNode>)
    ensures nodes == CmdLeaves(cmds)
  {
    nodes := [];
    for i := 0 to |cmds|
      invariant nodes == CmdLeaves(cmds)[..i]
    {
      nodes := nodes + [PatternLeaf(PROCESS_EXE_FULL_PATH, cmds[i])];
    }
  }

  method ConvertArgumentLists(args: seq<ArgumentList>) returns (r: Converted<seq<WireNode>>)
    ensures r == ArgumentTrees(args)
  {
    var nodes: seq<WireNode> := [];
    for i := 0 to |args|
      invariant ArgumentTrees(args[..i]) == Ok(nodes)
    {
      assert args[..i + 1][..i] == args[..i];
      var node := ConvertArguments(args[i]);
      if node.Error? {
        FirstErrorStays(args, i + 1);
        return Error(node.error);
      }
      nodes := nodes + [node.value];
    }
    assert args[..|args|] == args;
    r := Ok(nodes);
  }

  lemma OneMoreNode(nodes: seq<WireNode>, i: nat)
    requires i < |nodes|
    ensures nodes[..i + 1] == nodes[..i] + [nodes[i]]
  {
  }

  method ConvertEnvs(envs: map<CString, Option<CString>>, order: seq<CString>) returns (nodes: seq<WireNode>)
    requires Enumerates(order, envs)
    ensures nodes == EnvLeaves(order, envs)
  {
    nodes := [];
    for i := 0 to |order|
      invariant nodes == EnvLeaves(order, envs)[..i]
    {
      var key := order[i];
      var value := envs[key];
      var kv := if value.None? then key + "=*?" else key + "=" + value.value;
      nodes := nodes + [PatternLeaf(PROCESS_ENVAR, kv)];
      OneMoreNode(EnvLeaves(order, envs), i);
    }
  }

  method ConvertDeny(d: Deny, order: seq<CString>) returns (r: Converted<WireNode>)
    requires Enumerates(order, d.envs)
    ensures r == DenyTree(d, order)
  {
    if d.os == "" && |d.cmds| == 0 && |d.args| == 0 && d.envs == map[] {
      return Error(NoConditions);
    }
    var nodes: seq<WireNode> := [];
    if d.os != "" {
      var os := NormalizeOs(d.os);
      if os.None? {
        return Error(UnknownOs);
      }
      nodes := nodes + [Leaf(StrEvaluator(OS, Str(Exact), Some(os.value)))];
    }
    var cmdNodes := ConvertCommands(d.cmds);
    nodes := AppendGroup(nodes, OpOr, cmdNodes);
    var argNodes := ConvertArgumentLists(d.args);
    if argNodes.Error? {
      return Error(argNodes.error);
    }
    nodes := AppendGroup(nodes, OpAnd, argNodes.value);
    var envNodes := ConvertEnvs(d.envs, order);
    nodes := AppendGroup(nodes, OpAnd, envNodes);
    assert nodes == DenyGroups(d, argNodes.value, order);
    ArgumentTreesCount(d.args);
    EnumeratesNothing(order, d.envs);
    r := Ok(if |nodes| == 1 then nodes[0] else Node(OpAnd, nodes));
  }

  method AppendGroup(nodes: seq<WireNode>, op: Op, group: seq<WireNode>) returns (r: seq<WireNode>)
    ensures r == nodes + Group(op, group)
  {
    r := nodes;
    if |group| == 1 {
      r := nodes + [group[0]];
    } else if |group| > 1 {
      r := nodes + [Node(op, group)];
    }
  }

  lemma {:induction false} FirstErrorStays(args: seq<ArgumentList>, n: nat)
    requires n <= |args| && ArgumentTrees(args[..n]).Error?
    ensures ArgumentTrees(args) == ArgumentTrees(args[..n])
    decreases |args| - n
  {
    if n == |args| {
      assert args[..n] == args;
    } else {
      assert args[..n + 1][..n] == args[..n];
      FirstErrorStays(args, n + 1);
    }
  }

  // ----- what a deny rule means

  /** Every variable of the rule, in no order: FALSE dominates, then ABSTAIN. */
  ghost function EnvsValue(envs: map<CString, Option<CString>>, v: Evaluator -> Result): Result {
    if exists k :: k in envs && v(EnvLeaf(k, envs[k]).leaf) == False then False
    else if exists k :: k in envs && v(EnvLeaf(k, envs[k]).leaf) == Abstain then Abstain
    else True
  }

  /** The leaves of all the argument lists, one after the other. */
  function AllArgumentLeaves(args: seq<ArgumentList>): seq<WireNode> {
    if args == [] then []
    else
      var a := args[|args| - 1];
      AllArgumentLeaves(args[..|args| - 1]) + ArgumentLeaves(a, |a.arguments|)
  }

  /** The rule as documented: all of its groups, with any of its commands. */
  ghost function DenyMeaning(d: Deny, v: Evaluator -> Result): Result
    requires d.os == "" || NormalizeOs(d.os).Some?
  {
    var os := if d.os == "" then True else v(OsLeaf(d.os).leaf);
    var cmds := if d.cmds == [] then True else AnyOf(Meanings(CmdLeaves(d.cmds), v));
    var args := AllOf(Meanings(AllArgumentLeaves(d.args), v));
    AllOf([os, cmds, args, EnvsValue(d.envs, v)])
  }

  lemma {:induction false} ArgumentTreesMean(args: seq<ArgumentList>, v: Evaluator -> Result)
    requires ArgumentTrees(args).Ok?
    ensures var ts := ArgumentTrees(args).value;
            && AllOf(Meanings(ts, v)) == AllOf(Meanings(AllArgumentLeaves(args), v))
            && (forall i :: 0 <= i < |ts| ==> Within(ts[i], 1) && IdsInRange(ts[i]))
    decreases |args|
  {
    if args == [] {
    } else {
      var n := |args| - 1;
      var ts, a := ArgumentTrees(args[..n]).value, args[n];
      var leaves := ArgumentLeaves(a, |a.arguments|);
      ArgumentTreesMean(args[..n], v);
      ArgumentLeavesAreLeaves(a, |a.arguments|);
      CollapseMeans(OpAnd, leaves, v);
      CollapseWithin(OpAnd, leaves, 0);
      MeaningsJoin(ts, [Collapse(OpAnd, leaves)], v);
      MeaningsJoin(AllArgumentLeaves(args[..n]), leaves, v);
      assert Meanings([Collapse(OpAnd, leaves)], v) == [AllOf(Meanings(leaves, v))];
      AllOfJoin(Meanings(ts, v), [AllOf(Meanings(leaves, v))]);
      AllOfJoin(Meanings(AllArgumentLeaves(args[..n]), v), Meanings(leaves, v));
    }
  }

  lemma AllOfJoin(xs: seq<Result>, ys: seq<Result>)
    ensures AllOf(xs + ys) == DoAnd(AllOf(xs), AllOf(ys))
    ensures AllOf(xs + [AllOf(ys)]) == DoAnd(AllOf(xs), AllOf(ys))
  {
    assert forall r :: r in xs + ys <==> r in xs || r in ys;
    AllOfExtend(xs, AllOf(ys));
  }

  lemma {:induction false} EnvLeavesMean(order: seq<CString>, envs: map<CString, Option<CString>>, v: Evaluator -> Result)
    requires Enumerates(order, envs)
    ensures AllOf(Meanings(EnvLeaves(order, envs), v)) == EnvsValue(envs, v)
  {
    var rs := Meanings(EnvLeaves(order, envs), v);
    forall i | 0 <= i < |order| ensures order[i] in envs && rs[i] == v(EnvLeaf(order[i], envs[order[i]]).leaf) {
    }
    forall k | k in envs ensures v(EnvLeaf(k, envs[k]).leaf) in rs {
      var i :| 0 <= i < |order| && order[i] == k;
      assert rs[i] == v(EnvLeaf(k, envs[k]).leaf);
    }
  }

  lemma GroupMeans(op: Op, nodes: seq<WireNode>, v: Evaluator -> Result)
    requires op == OpAnd || op == OpOr
    ensures AllOf(Meanings(Group(op, nodes), v)) == if nodes == [] then True else Combine(op, Meanings(nodes, v))
  {
    if nodes != [] {
      CollapseMeans(op, nodes, v);
      assert Meanings(Group(op, nodes), v) == [Combine(op, Meanings(nodes, v))];
    }
  }

  lemma FourGroups(
    xs: seq<WireNode>, ys: seq<WireNode>, zs: seq<WireNode>, ws: seq<WireNode>, v: Evaluator -> Result)
    ensures AllOf(Meanings(xs + ys + zs + ws, v)) ==
            AllOf([AllOf(Meanings(xs, v)), AllOf(Meanings(ys, v)), AllOf(Meanings(zs, v)), AllOf(Meanings(ws, v))])
  {
    MeaningsJoin(xs + ys + zs, ws, v);
    MeaningsJoin(xs + ys, zs, v);
    MeaningsJoin(xs, ys, v);
    AllOfJoin(Meanings(xs + ys + zs, v), Meanings(ws, v));
    AllOfJoin(Meanings(xs + ys, v), Meanings(zs, v));
    AllOfJoin(Meanings(xs, v), Meanings(ys, v));
  }

  /** The part of a rule about the operating system, as a group like the others. */
  function OsGroup(os: CString): seq<WireNode>
    requires os == "" || NormalizeOs(os).Some?
  {
    if os == "" then [] else [OsLeaf(os)]
  }

  lemma GroupsMean(d: Deny, order: seq<CString>, v: Evaluator -> Result)
    requires Enumerates(order, d.envs) && DenyTree(d, order).Ok?
    ensures var args := ArgumentTrees(d.args).value;
            && AllOf(Meanings(OsGroup(d.os), v)) == (if d.os == "" then True else v(OsLeaf(d.os).leaf))
            && AllOf(Meanings(Group(OpOr, CmdLeaves(d.cmds)), v)) ==
               (if d.cmds == [] then True else AnyOf(Meanings(CmdLeaves(d.cmds), v)))
            && AllOf(Meanings(Group(OpAnd, args), v)) == AllOf(Meanings(AllArgumentLeaves(d.args), v))
            && AllOf(Meanings(Group(OpAnd, EnvLeaves(order, d.envs)), v)) == EnvsValue(d.envs, v)
  {
    var args := ArgumentTrees(d.args).value;
    ArgumentTreesMean(d.args, v);
    EnvLeavesMean(order, d.envs, v);
    GroupMeans(OpOr, CmdLeaves(d.cmds), v);
    GroupMeans(OpAnd, args, v);
    GroupMeans(OpAnd, EnvLeaves(order, d.envs), v);
    assert Meanings(OsGroup(d.os), v) == if d.os == "" then [] else [v(OsLeaf(d.os).leaf)];
  }

  /** Whatever order the variables come in, the tree means the rule, for every value of its leaves. */
  lemma DenyTreeMeansRule(d: Deny, order: seq<CString>, v: Evaluator -> Result)
    requires Enumerates(order, d.envs) && DenyTree(d, order).Ok?
    ensures Meaning(DenyTree(d, order).value, v) == DenyMeaning(d, v)
  {
    var args := ArgumentTrees(d.args).value;
    ArgumentTreesCount(d.args);
    EnumeratesNothing(order, d.envs);
    GroupsMean(d, order, v);
    CollapseMeans(OpAnd, DenyGroups(d, args, order), v);
    FourGroups(
      OsGroup(d.os), Group(OpOr, CmdLeaves(d.cmds)), Group(OpAnd, args), Group(OpAnd, EnvLeaves(order, d.envs)), v);
  }

  /** Nodes that fit in n levels below, with ids in range. */
  predicate Small(nodes: seq<WireNode>, n: nat) {
    forall i :: 0 <= i < |nodes| ==> Within(nodes[i], n) && IdsInRange(nodes[i])
  }

  lemma GroupIsSmall(op: Op, nodes: seq<WireNode>, n: nat)
    requires Small(nodes, n)
    ensures Small(Group(op, nodes), n + 1)
  {
    if nodes != [] {
      CollapseWithin(op, nodes, n);
    }
  }

  lemma LeavesAreSmall(nodes: seq<WireNode>, n: nat)
    requires forall i :: 0 <= i < |nodes| ==> nodes[i].Leaf? && IdInRange(nodes[i].leaf)
    ensures Small(nodes, n)
  {
  }

  lemma SmallJoin(xs: seq<WireNode>, ys: seq<WireNode>, n: nat)
    requires Small(xs, n) && Small(ys, n)
    ensures Small(xs + ys, n)
  {
  }

  lemma DenyTreeFits(d: Deny, order: seq<CString>)
    requires Enumerates(order, d.envs) && DenyTree(d, order).Ok?
    ensures Within(DenyTree(d, order).value, 3) && IdsInRange(DenyTree(d, order).value)
  {
    var args := ArgumentTrees(d.args).value;
    var os := OsGroup(d.os);
    var cmds, rest := Group(OpOr, CmdLeaves(d.cmds)), Group(OpAnd, args);
    var envs := Group(OpAnd, EnvLeaves(order, d.envs));
    ArgumentTreesMean(d.args, _ => Abstain);
    LeavesAreSmall(os, 2);
    LeavesAreSmall(CmdLeaves(d.cmds), 1);
    LeavesAreSmall(EnvLeaves(order, d.envs), 1);
    GroupIsSmall(OpOr, CmdLeaves(d.cmds), 1);
    GroupIsSmall(OpAnd, args, 1);
    GroupIsSmall(OpAnd, EnvLeaves(order, d.envs), 1);
    SmallJoin(os, cmds, 2);
    SmallJoin(os + cmds, rest, 2);
    SmallJoin(os + cmds + rest, envs, 2);
    ArgumentTreesCount(d.args);
    EnumeratesNothing(order, d.envs);
    GroupIsSmall(OpAnd, DenyGroups(d, args, order), 2);
    assert Group(OpAnd, DenyGroups(d, args, order))[0] == DenyTree(d, order).value;
  }

  /** Run by the C engine, in any context without a remembered error, a deny rule comes to its meaning. */
  lemma {:induction false} DenyRunsAsMeant(d: Deny, order: seq<CString>, c: Tables)
    requires Enumerates(order, d.envs) && DenyTree(d, order).Ok?
    requires c.Valid() && c.error == ESUCCESS
    ensures CEngine.Run(c, DenyTree(d, order).value, 0).result == DenyMeaning(d, CEngine.Free(c))
  {
    var t := DenyTree(d, order).value;
    DenyTreeFits(d, order);
    CEngineFacts.IdsInRangeMeansExact(c, t, 0);
    CapIsExact(t, CEngine.Free(c), 0, 3);
    DenyTreeMeansRule(d, order, CEngine.Free(c));
  }

  // ----- which deny rules convert

  /** An argument that asks for something: not empty, and not a pattern taken to match anything. */
  predicate HasMatchable(a: ArgumentList) {
    exists i :: 0 <= i < |a.arguments| &&
      a.arguments[i] != "" && a.arguments[i] != "*" && a.arguments[i] != "?"
  }

  lemma {:induction false} NoLeavesIff(a: ArgumentList, n: nat)
    requires n <= |a.arguments|
    ensures ArgumentLeaves(a, n) == [] <==>
            forall i :: 0 <= i < n ==> a.arguments[i] == "" || a.arguments[i] == "*" || a.arguments[i] == "?"
    decreases n
  {
    if n == 0 {
    } else {
      NoLeavesIff(a, n - 1);
    }
  }

  lemma ListConvertsIff(a: ArgumentList)
    ensures ArgumentTree(a).Ok? <==> HasMatchable(a)
    ensures !HasMatchable(a) ==> ArgumentTree(a) == Error(if a.arguments == [] then NoArguments else NoMatchableParts)
  {
    NoLeavesIff(a, |a.arguments|);
  }

  lemma {:induction false} ListsConvertIff(args: seq<ArgumentList>)
    ensures ArgumentTrees(args).Ok? <==> forall k :: 0 <= k < |args| ==> HasMatchable(args[k])
    decreases |args|
  {
    if args == [] {
    } else {
      var n := |args| - 1;
      ListsConvertIff(args[..n]);
      ListConvertsIff(args[n]);
      assert forall k :: 0 <= k < n ==> args[..n][k] == args[k];
    }
  }

  /** The first list in which no argument asks for something. */
  predicate FirstEmpty(args: seq<ArgumentList>, k: nat) {
    k < |args| && !HasMatchable(args[k]) && forall j :: 0 <= j < k ==> HasMatchable(args[j])
  }

  lemma FirstEmptyDecides(args: seq<ArgumentList>, k: nat)
    requires FirstEmpty(args, k)
    ensures ArgumentTrees(args) == Error(if args[k].arguments == [] then NoArguments else NoMatchableParts)
  {
    ListsConvertIff(args[..k]);
    ListConvertsIff(args[k]);
    assert args[..k + 1][..k] == args[..k];
    FirstErrorStays(args, k + 1);
  }

  /**
   A deny rule converts exactly when it has a condition, its operating system is known, and every
   one of its argument lists has an argument that asks for something.
   */
  lemma DenyConvertsIff(d: Deny, order: seq<CString>)
    requires Enumerates(order, d.envs)
    ensures DenyTree(d, order).Ok? <==>
            && (d.os != "" || d.cmds != [] || d.args != [] || d.envs != map[])
            && (d.os in {"", "windows", "linux", "darwin", "macos"})
            && (forall k :: 0 <= k < |d.args| ==> HasMatchable(d.args[k]))
    ensures d.os == "" && d.cmds == [] && d.args == [] && d.envs == map[] ==>
              DenyTree(d, order) == Error(NoConditions)
    ensures d.os !in {"", "windows", "linux", "darwin", "macos"} ==> DenyTree(d, order) == Error(UnknownOs)
    ensures d.os in {"", "windows", "linux", "darwin", "macos"} ==>
              forall k: nat :: FirstEmpty(d.args, k) ==>
                DenyTree(d, order) == Error(if d.args[k].arguments == [] then NoArguments else NoMatchableParts)
  {
    ListsConvertIff(d.args);
    forall k: nat | FirstEmpty(d.args, k)
      ensures ArgumentTrees(d.args) == Error(if d.args[k].arguments == [] then NoArguments else NoMatchableParts)
    {
      FirstEmptyDecides(d.args, k);
    }
  }

  // ----- a deny rule on the facts of a context

  /** Whether a fact is matched by a pattern, ABSTAIN if it is missing. */
  function MatchedBy(fact: Option<CString>, pattern: string): Result {
    if fact.None? then Abstain else FromBool(Glob.WildcardMatches(pattern, fact.value))
  }

  /** No evaluator of its own is registered for any string. */
  predicate DefaultsForStrings(c: Tables)
    requires c.Valid()
  {
    forall id :: 0 <= id < STR_EVAL_COUNT ==> c.strs[id].fn.None?
  }

  lemma PatternLeafReads(c: Tables, id: int, pattern: CString)
    requires c.Valid() && StrIdInRange(id) && DefaultsForStrings(c)
    ensures CEngine.Free(c)(PatternLeaf(id, pattern).leaf) == MatchedBy(c.StrParam(id), pattern)
  {
    var k := c.Knowledge();
    assert k.strs[id].fn == c.strs[id].fn && k.strs[id].value == c.StrParam(id);
    if c.StrParam(id).Some? {
      PatternChoiceIsWildcard(pattern, c.StrParam(id).value);
    }
  }

  /** Some command pattern matches the path of the executable. */
  function CommandsOn(cmds: seq<CString>, exe: Option<CString>): Result {
    if cmds == [] then True
    else if exe.None? then Abstain
    else FromBool(exists cmd :: cmd in cmds && Glob.WildcardMatches(cmd, exe.value))
  }

  /** What an argument asks of the command line: the fact at its position matches it. */
  function ArgumentOn(a: ArgumentList, i: nat, c: Tables): Result
    requires i < |a.arguments|
  {
    if a.arguments[i] == "" || a.arguments[i] == "*" || a.arguments[i] == "?" then True
    else MatchedBy(c.StrParam(ArgvId(PositionOf(a, i))), a.arguments[i])
  }

  predicate SomeArgument(args: seq<ArgumentList>, c: Tables, r: Result) {
    exists k :: 0 <= k < |args| && SomeOf(args[k], |args[k].arguments|, c, r)
  }

  predicate SomeOf(a: ArgumentList, n: nat, c: Tables, r: Result)
    requires n <= |a.arguments|
  {
    exists i :: 0 <= i < n && ArgumentOn(a, i, c) == r
  }

  /** All the arguments of all the lists. */
  function ArgumentsOn(args: seq<ArgumentList>, c: Tables): Result {
    if SomeArgument(args, c, False) then False else if SomeArgument(args, c, Abstain) then Abstain else True
  }

  /** All the variables, where null asks for the glob *?. */
  ghost function VariablesOn(envs: map<CString, Option<CString>>, fact: Option<CString>): Result {
    if envs == map[] then True
    else if fact.None? then Abstain
    else FromBool(forall k :: k in envs ==>
      Glob.WildcardMatches(k + "=" + (if envs[k].None? then "*?" else envs[k].value), fact.value))
  }

  function OsOn(os: CString, fact: Option<CString>): Result {
    if os == "" then True
    else if fact.None? then Abstain
    else
      match os
      case "windows" => FromBool(fact.value == "windows")
      case "linux" => FromBool(fact.value == "linux")
      case _ => FromBool(fact.value == "macos")
  }

  lemma CommandsRead(cmds: seq<CString>, c: Tables)
    requires c.Valid() && DefaultsForStrings(c) && cmds != []
    ensures AnyOf(Meanings(CmdLeaves(cmds), CEngine.Free(c))) == CommandsOn(cmds, c.StrParam(PROCESS_EXE_FULL_PATH))
  {
    var rs, exe := Meanings(CmdLeaves(cmds), CEngine.Free(c)), c.StrParam(PROCESS_EXE_FULL_PATH);
    forall i | 0 <= i < |cmds| ensures rs[i] == MatchedBy(exe, cmds[i]) {
      PatternLeafReads(c, PROCESS_EXE_FULL_PATH, cmds[i]);
    }
    if exe.None? {
      assert rs[0] == Abstain;
    } else if cmd :| cmd in cmds && Glob.WildcardMatches(cmd, exe.value) {
      var i :| 0 <= i < |cmds| && cmds[i] == cmd;
      assert rs[i] == True;
    }
  }

  lemma {:induction false} ArgumentLeavesRead(a: ArgumentList, n: nat, c: Tables, r: Result)
    requires c.Valid() && DefaultsForStrings(c) && n <= |a.arguments| && r != True
    ensures r in Meanings(ArgumentLeaves(a, n), CEngine.Free(c)) <==> SomeOf(a, n, c, r)
    decreases n
  {
    if n == 0 {
    } else {
      var v, before := CEngine.Free(c), ArgumentLeaves(a, n - 1);
      var last := if IsMatchable(a.arguments[n - 1]) then [ArgumentLeaf(a, n - 1)] else [];
      ArgumentLeavesRead(a, n - 1, c, r);
      MeaningsJoin(before, last, v);
      ArgvIdsAreDistinct(if a.position.None? then 6 else PositionOf(a, n - 1).value, 0);
      PatternLeafReads(c, ArgvId(PositionOf(a, n - 1)), a.arguments[n - 1]);
      assert Meanings(last, v) == if last == [] then [] else [ArgumentOn(a, n - 1, c)];
      assert SomeOf(a, n, c, r) <==> SomeOf(a, n - 1, c, r) || ArgumentOn(a, n - 1, c) == r;
    }
  }

  lemma {:induction false} AllArgumentLeavesRead(args: seq<ArgumentList>, c: Tables, r: Result)
    requires c.Valid() && DefaultsForStrings(c) && r != True
    ensures r in Meanings(AllArgumentLeaves(args), CEngine.Free(c)) <==> SomeArgument(args, c, r)
    decreases |args|
  {
    if args == [] {
    } else {
      var n, v := |args| - 1, CEngine.Free(c);
      var a := args[n];
      AllArgumentLeavesRead(args[..n], c, r);
      ArgumentLeavesRead(a, |a.arguments|, c, r);
      MeaningsJoin(AllArgumentLeaves(args[..n]), ArgumentLeaves(a, |a.arguments|), v);
      assert forall k :: 0 <= k < n ==> args[..n][k] == args[k];
      assert SomeArgument(args, c, r) <==> SomeArgument(args[..n], c, r) || SomeOf(a, |a.arguments|, c, r);
    }
  }

  lemma VariablesRead(envs: map<CString, Option<CString>>, c: Tables)
    requires c.Valid() && DefaultsForStrings(c)
    ensures EnvsValue(envs, CEngine.Free(c)) == VariablesOn(envs, c.StrParam(PROCESS_ENVAR))
  {
    var fact := c.StrParam(PROCESS_ENVAR);
    forall k | k in envs
      ensures CEngine.Free(c)(EnvLeaf(k, envs[k]).leaf) ==
              MatchedBy(fact, k + "=" + (if envs[k].None? then "*?" else envs[k].value))
    {
      assert k + "=" + "*?" == k + "=*?";
      PatternLeafReads(c, PROCESS_ENVAR, EnvPattern(k, envs[k]));
    }
    if envs != map[] {
      var k :| k in envs;
    }
  }

  lemma OsReads(os: CString, c: Tables)
    requires c.Valid() && DefaultsForStrings(c) && os != "" && NormalizeOs(os).Some?
    ensures CEngine.Free(c)(OsLeaf(os).leaf) == OsOn(os, c.StrParam(OS))
  {
    var k := c.Knowledge();
    assert k.strs[OS].fn == c.strs[OS].fn && k.strs[OS].value == c.StrParam(OS);
  }

  /**
   Run by the C engine with its default evaluators, a deny rule answers on the facts set in the
   context: the operating system is the one named, some command matches the executable, every
   argument matches at its position, and every variable matches.
   */
  lemma DenyRunsOnFacts(d: Deny, order: seq<CString>, c: Tables)
    requires Enumerates(order, d.envs) && DenyTree(d, order).Ok?
    requires c.Valid() && c.error == ESUCCESS && DefaultsForStrings(c)
    ensures CEngine.Run(c, DenyTree(d, order).value, 0).result ==
            AllOf([
              OsOn(d.os, c.StrParam(OS)), CommandsOn(d.cmds, c.StrParam(PROCESS_EXE_FULL_PATH)),
              ArgumentsOn(d.args, c), VariablesOn(d.envs, c.StrParam(PROCESS_ENVAR))])
  {
    DenyRunsAsMeant(d, order, c);
    if d.os != "" {
      OsReads(d.os, c);
    }
    if d.cmds != [] {
      CommandsRead(d.cmds, c);
    }
    AllArgumentLeavesRead(d.args, c, False);
    AllArgumentLeavesRead(d.args, c, Abstain);
    VariablesRead(d.envs, c);
  }
}
