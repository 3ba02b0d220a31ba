/**
 The two engines side by side: the same document given to the Go engine and, serialized, to the C
 engine under the host evaluators of the conformance harness.
 */
module CrossEngine {
  import opened Tristate
  import opened RuleTree
  import opened Comparators
  import opened EvaluatorIds
  import opened Decoder
  import Wire
  import EvalContext
  import CEngine
  import CEngineFacts
  import Go = GoEngine
  import Documents
  import PolicyBuffer
  import Converter

  // ----- the harness

  type Pairs = seq<(CString, CString)>

  /** The label sources that are present, each as the pairs it was given, in some order. */
  type LabelSets = map<int, Pairs>

  function FindKey(pairs: Pairs, key: string): Option<CString> {
    if pairs == [] then None
    else if pairs[0].0 == key then Some(pairs[0].1)
    else FindKey(pairs[1..], key)
  }

  lemma CutIsNulFree(s: CString)
    ensures Cut(s).Some? ==> '\0' !in Cut(s).value.0 && '\0' !in Cut(s).value.1
  {
    if Cut(s).Some? {
      var (a, b) := Cut(s).value;
      assert forall c :: c in b ==> c in a + "=" + b;
      assert forall c :: c in a ==> c in a + "=" + b;
    }
  }

  /** The label evaluator of the host: the policy value is key=value, or key= to ask for presence. */
  function ConfLabel(sets: LabelSets, policy: Option<CString>, cmp: Wire.StrCmp, id: int): EvalContext.Verdict {
    if policy.None? || !Wire.StrIdInRange(id) || id !in sets then EvalContext.Verdict(Abstain, false)
    else
      CutIsNulFree(policy.value);
      match Cut(policy.value)
      case None => EvalContext.Verdict(Abstain, false)
      case Some(kv) =>
        var got := FindKey(sets[id], kv.0);
        if cmp == Wire.Str(Prefix) && kv.1 == "" then EvalContext.Verdict(FromBool(got.Some?), false)
        else if got.None? then EvalContext.Verdict(False, false)
        else CEngine.DefaultStr(Some(kv.1), cmp, got)
  }

  method ConfLabelEvaluator(sets: LabelSets, policy: Option<CString>, cmp: Wire.StrCmp, id: int)
    returns (r: Result)
    ensures r == ConfLabel(sets, policy, cmp, id).result
  {
    if policy.None? || id < 0 || id >= STR_EVAL_COUNT || id !in sets {
      return Abstain;
    }
    CutIsNulFree(policy.value);
    var eq := Cut(policy.value);
    if eq.None? {
      return Abstain;
    }
    var key, val: CString := eq.value.0, eq.value.1;
    var pairs, got: Option<CString> := sets[id], None;
    for i := 0 to |pairs|
      invariant FindKey(pairs, key) == FindKey(pairs[i..], key)
    {
      if pairs[i].0 == key {
        got := Some(pairs[i].1);
        break;
      }
      assert pairs[i..][1..] == pairs[i + 1..];
    }
    if cmp == Wire.Str(Prefix) && val == "" {
      return if got.Some? then True else False;
    }
    if got.None? {
      return False;
    }
    r := CEngine.DefaultStr(Some(val), cmp, got).result;
  }

  function ConfStr(sets: LabelSets, id: int): Option<EvalContext.StrFn> {
    if id == ALWAYS_TRUE then Some((_, _, _, _) => EvalContext.Verdict(True, false))
    else if id == ALWAYS_FALSE then Some((_, _, _, _) => EvalContext.Verdict(False, false))
    else if id == ALWAYS_ABSTAIN then Some((_, _, _, _) => EvalContext.Verdict(Abstain, false))
    else if id in [NAMESPACE_LABEL, POD_LABEL, POD_ANNOTATION, CONTAINER_LABEL, PROCESS_ENVAR] then
      Some((policy: Option<CString>, cmp: Wire.StrCmp, _, eid: int) => ConfLabel(sets, policy, cmp, eid))
    else None
  }

  function ConfNum(): EvalContext.NumFn {
    (policy: Int64, cmp: Wire.NumCmp, param: Int64, _) =>
      if param == NUM_NOT_SET then EvalContext.Verdict(Abstain, false) else CEngine.DefaultNum(policy, cmp, param)
  }

  function ConfUNum(): EvalContext.UNumFn {
    (policy: UInt64, cmp: Wire.NumCmp, param: UInt64, _) =>
      if param == UNUM_NOT_SET then EvalContext.Verdict(Abstain, false) else CEngine.DefaultNum(policy, cmp, param)
  }

  predicate NulFree(facts: Go.Context) {
    forall id :: id in facts.strings ==> '\0' !in facts.strings[id]
  }

  function ConfStrEntry(facts: Go.Context, sets: LabelSets, id: int): EvalContext.StrEntry
    requires NulFree(facts)
  {
    var value: Option<CString> := if id in facts.strings then Some(facts.strings[id]) else None;
    EvalContext.StrEntry(ConfStr(sets, id), value, EvalContext.ESUCCESS)
  }

  /** The C context after the harness was reset and given the facts. */
  function ConfTables(facts: Go.Context, sets: LabelSets): (c: EvalContext.Tables)
    requires NulFree(facts)
    ensures c.Valid()
  {
    EvalContext.Tables(
      seq(STR_EVAL_COUNT, i requires 0 <= i < STR_EVAL_COUNT => ConfStrEntry(facts, sets, i)),
      seq(NUM_EVAL_COUNT, i requires 0 <= i < NUM_EVAL_COUNT =>
        EvalContext.NumEntry(
          if i > 0 then Some(ConfNum()) else None,
          if i in facts.numbers then facts.numbers[i] else NUM_NOT_SET, EvalContext.ESUCCESS)),
      seq(NUM_EVAL_COUNT, i requires 0 <= i < NUM_EVAL_COUNT =>
        EvalContext.UNumEntry(
          if i > 0 then Some(ConfUNum()) else None,
          if i in facts.unumbers then facts.unumbers[i] else UNUM_NOT_SET, EvalContext.ESUCCESS)),
      EvalContext.EmptyTables().actions, EvalContext.ESUCCESS)
  }

  /** The pairs given to the host are those of the label maps, whatever their order. */
  ghost predicate SameLabels(facts: Go.Context, sets: LabelSets) {
    && sets.Keys == facts.labels.Keys
    && forall id :: id in sets ==> SamePairs(facts.labels[id], sets[id])
  }

  ghost predicate SamePairs(m: map<string, string>, pairs: Pairs) {
    && (forall i :: 0 <= i < |pairs| ==> pairs[i].0 in m && m[pairs[i].0] == pairs[i].1)
    && (forall k :: k in m ==> exists i :: 0 <= i < |pairs| && pairs[i].0 == k)
  }

  lemma {:induction false} FindKeyIsLookup(m: map<string, string>, pairs: Pairs, key: string)
    requires forall i :: 0 <= i < |pairs| ==> pairs[i].0 in m && m[pairs[i].0] == pairs[i].1
    ensures FindKey(pairs, key).Some? ==> key in m && FindKey(pairs, key).value == m[key]
    ensures FindKey(pairs, key).None? ==> forall i :: 0 <= i < |pairs| ==> pairs[i].0 != key
    decreases |pairs|
  {
    if pairs == [] || pairs[0].0 == key {
    } else {
      FindKeyIsLookup(m, pairs[1..], key);
      assert forall i :: 1 <= i < |pairs| ==> pairs[i] == pairs[1..][i - 1];
    }
  }

  // ----- serialization

  /** The leaves the harness serializes: names it knows, and texts without NUL. */
  predicate LeafBuilds(e: JsonEvaluator) {
    match e.evalType
    case StrEvaluator =>
      e.eval.asStr.Parsed? &&
      var s := e.eval.asStr.value;
      && 0 <= s.id <= STR_EVAL_COUNT && (IsConstantId(s.id) || !s.cmp.OtherStrCmp?)
      && (s.value.Some? ==> '\0' !in s.value.value)
    case NumEvaluator =>
      e.eval.asNum.Parsed? &&
      var n := e.eval.asNum.value;
      0 <= n.id <= NUM_EVAL_COUNT && !n.cmp.OtherNumCmp? && !n.value.Malformed?
    case UNumEvaluator =>
      e.eval.asUNum.Parsed? &&
      var n := e.eval.asUNum.value;
      0 <= n.id <= NUM_EVAL_COUNT && !n.cmp.OtherNumCmp? && !n.value.Malformed?
    case OtherEvalType => false
  }

  function BuiltNumCmp(cmp: NumCmpName): Wire.NumCmp {
    match cmp
    case CmpNum(r) => Wire.Num(r)
    case _ => Wire.NumUnset
  }

  /** An omitted or null value is serialized as the empty text, or as 0. */
  function BuiltLeaf(e: JsonEvaluator): Wire.Evaluator
    requires LeafBuilds(e)
  {
    match e.evalType
    case StrEvaluator =>
      var s := e.eval.asStr.value;
      var cmp := if IsConstantId(s.id) || !s.cmp.CmpStr? then Wire.StrUnset else Wire.Str(s.cmp.matching);
      Wire.StrEvaluator(s.id, cmp, Some(if s.value.Some? then s.value.value else ""))
    case NumEvaluator =>
      var n := e.eval.asNum.value;
      Wire.NumEvaluator(n.id, BuiltNumCmp(n.cmp), if n.value.Given? then n.value.value else 0)
    case UNumEvaluator =>
      var n := e.eval.asUNum.value;
      Wire.UNumEvaluator(n.id, BuiltNumCmp(n.cmp), if n.value.Given? then n.value.value else 0)
  }

  predicate Builds(w: JsonWrap)
    decreases w
  {
    match w.nodeType
    case OtherNode => false
    case EvaluatorNode => w.node.asEvaluator.Parsed? && LeafBuilds(w.node.asEvaluator.value)
    case CompositeNode =>
      match w.node.asComposite
      case BadComposite => false
      case Composite(op, children) =>
        && !op.OtherOp? && !children.BadChildren?
        && (children.Children? ==>
              forall i :: 0 <= i < |children.wraps| ==> Builds(children.wraps[i]))
  }

  function Built(w: JsonWrap): Wire.WireNode
    requires Builds(w)
    decreases w
  {
    match w.nodeType
    case EvaluatorNode => Leaf(BuiltLeaf(w.node.asEvaluator.value))
    case CompositeNode =>
      match w.node.asComposite
      case Composite(op, Children(ws)) =>
        Node(OpOf(op), seq(|ws|, i requires 0 <= i < |ws| => Built(ws[i])))
      case Composite(op, _) => Node(OpOf(op), [])
  }

  // ----- where the engines agree

  /**
   The leaves on which the engines agree whatever the facts: all but a label compared in a way the
   decoder does not know, the list id, the code past the last id, and a value left out or null
   where a comparator uses it.
   */
  predicate LeafAgrees(e: JsonEvaluator)
    requires LeafBuilds(e)
  {
    match e.evalType
    case StrEvaluator =>
      var s := e.eval.asStr.value;
      if IsConstantId(s.id) then true
      else if IsLabelId(s.id) then s.value.Some? && '=' in s.value.value ==> s.cmp.CmpStr?
      else s.cmp.CmpStr? ==> !IsListId(s.id) && (s.value.Some? <==> s.id < STR_EVAL_COUNT)
    case NumEvaluator =>
      var n := e.eval.asNum.value;
      n.cmp.CmpNum? ==> (n.value.Null? <==> n.id == NUM_EVAL_COUNT)
    case UNumEvaluator =>
      var n := e.eval.asUNum.value;
      n.cmp.CmpNum? ==> (n.value.Null? <==> n.id == NUM_EVAL_COUNT)
  }

  function CLeaf(e: JsonEvaluator, facts: Go.Context, sets: LabelSets): Result
    requires LeafBuilds(e) && NulFree(facts)
  {
    CEngine.FreeValue(ConfTables(facts, sets), BuiltLeaf(e))
  }

  function GoLeaf(e: JsonEvaluator, facts: Go.Context): Result {
    Value(DecodeEvaluator(e), Go.Under(facts), 0)
  }

  /** What a label asks of the value found for its key. */
  function LabelAnswer(m: Matching, want: string, got: Option<string>): Result {
    if m == Prefix && want == "" then FromBool(got.Some?)
    else if got.None? then False
    else FromBool(Matches(m, want, got.value))
  }

  lemma GoLabelAnswer(s: JsonStr, facts: Go.Context)
    requires IsLabelId(s.id) && s.value.Some? && s.cmp.CmpStr? && Cut(s.value.value).Some?
    ensures var (key, want) := Cut(s.value.value).value;
            Value(DecodeStr(s), Go.Under(facts), 0) ==
            if s.id !in facts.labels then Abstain
            else LabelAnswer(s.cmp.matching, want, Go.Lookup(facts.labels[s.id], key))
  {
  }

  lemma ConfLabelAnswer(sets: LabelSets, policy: CString, m: Matching, id: int)
    requires IsLabelId(id) && Cut(policy).Some? && id in sets
    ensures var (key, want) := Cut(policy).value;
            var got: Option<string> := match FindKey(sets[id], key) { case Some(x) => Some(x) case None => None };
            ConfLabel(sets, Some(policy), Wire.Str(m), id).result == LabelAnswer(m, want, got)
  {
  }

  lemma LabelLeafAgreement(s: JsonStr, facts: Go.Context, sets: LabelSets)
    requires IsLabelId(s.id) && s.value.Some? && '\0' !in s.value.value
    requires '=' in s.value.value ==> s.cmp.CmpStr?
    requires SameLabels(facts, sets)
    ensures var cmp := if s.cmp.CmpStr? then Wire.Str(s.cmp.matching) else Wire.StrUnset;
            ConfLabel(sets, Some(s.value.value), cmp, s.id).result ==
            Value(DecodeStr(s), Go.Under(facts), 0)
  {
    var text: CString := s.value.value;
    match Cut(text)
    case None =>
    case Some((key, want)) =>
      GoLabelAnswer(s, facts);
      if s.id in sets {
        FindKeyIsLookup(facts.labels[s.id], sets[s.id], key);
        ConfLabelAnswer(sets, text, s.cmp.matching, s.id);
      }
  }

  lemma StrLeafAgreement(e: JsonEvaluator, facts: Go.Context, sets: LabelSets)
    requires LeafBuilds(e) && LeafAgrees(e) && NulFree(facts) && SameLabels(facts, sets)
    requires e.evalType.StrEvaluator? && !IsLabelId(e.eval.asStr.value.id)
    ensures CLeaf(e, facts, sets) == GoLeaf(e, facts)
  {
  }

  lemma NumLeafAgreement(e: JsonEvaluator, facts: Go.Context, sets: LabelSets)
    requires LeafBuilds(e) && LeafAgrees(e) && NulFree(facts) && SameLabels(facts, sets)
    requires e.evalType.NumEvaluator? || e.evalType.UNumEvaluator?
    ensures CLeaf(e, facts, sets) == GoLeaf(e, facts)
  {
  }

  lemma LeafAgreement(e: JsonEvaluator, facts: Go.Context, sets: LabelSets)
    requires LeafBuilds(e) && LeafAgrees(e) && NulFree(facts) && SameLabels(facts, sets)
    ensures CLeaf(e, facts, sets) == GoLeaf(e, facts)
  {
    if !e.evalType.StrEvaluator? {
      NumLeafAgreement(e, facts, sets);
    } else if !IsLabelId(e.eval.asStr.value.id) {
      StrLeafAgreement(e, facts, sets);
    } else if e.eval.asStr.value.value.Some? {
      LabelLeafAgreement(e.eval.asStr.value, facts, sets);
    }
  }

  function NoFacts(): Go.Context {
    Go.Context(map[], map[], map[], map[], map[])
  }

  lemma EmptyMatchesEmpty(m: Matching)
    ensures Matches(m, "", "")
  {
    assert OccursAt("", "", 0);
  }

  lemma LabelLeafDisagreement(e: JsonEvaluator) returns (facts: Go.Context, sets: LabelSets)
    requires e.evalType.StrEvaluator? && LeafBuilds(e) && !LeafAgrees(e) && IsLabelId(e.eval.asStr.value.id)
    ensures NulFree(facts) && SameLabels(facts, sets) && CLeaf(e, facts, sets) != GoLeaf(e, facts)
  {
    var s := e.eval.asStr.value;
    facts, sets := NoFacts().(labels := map[s.id := map[]]), map[s.id := []];
    CutIsNulFree(s.value.value);
    assert GoLeaf(e, facts) == Abstain;
    assert CLeaf(e, facts, sets) == ConfLabel(sets, Some(s.value.value), Wire.StrUnset, s.id).result;
  }

  lemma PlainLeafDisagreement(e: JsonEvaluator) returns (facts: Go.Context)
    requires e.evalType.StrEvaluator? && LeafBuilds(e) && !LeafAgrees(e) && !IsLabelId(e.eval.asStr.value.id)
    ensures NulFree(facts) && SameLabels(facts, map[]) && CLeaf(e, facts, map[]) != GoLeaf(e, facts)
  {
    var s := e.eval.asStr.value;
    if IsListId(s.id) && s.value.Some? {
      facts := NoFacts().(lists := map[s.id := []]);
    } else {
      facts := NoFacts().(strings := map[s.id := ""]);
      EmptyMatchesEmpty(s.cmp.matching);
    }
  }

  lemma StrLeafDisagreement(e: JsonEvaluator) returns (facts: Go.Context, sets: LabelSets)
    requires e.evalType.StrEvaluator? && LeafBuilds(e) && !LeafAgrees(e)
    ensures NulFree(facts) && SameLabels(facts, sets) && CLeaf(e, facts, sets) != GoLeaf(e, facts)
  {
    if IsLabelId(e.eval.asStr.value.id) {
      facts, sets := LabelLeafDisagreement(e);
    } else {
      facts := PlainLeafDisagreement(e);
      sets := map[];
    }
  }

  /** Outside of those leaves there are facts on which they differ. */
  lemma LeafDisagreement(e: JsonEvaluator) returns (facts: Go.Context, sets: LabelSets)
    requires LeafBuilds(e) && !LeafAgrees(e)
    ensures NulFree(facts) && SameLabels(facts, sets) && CLeaf(e, facts, sets) != GoLeaf(e, facts)
  {
    facts, sets := NoFacts(), map[];
    match e.evalType
    case StrEvaluator => facts, sets := StrLeafDisagreement(e);
    case NumEvaluator => facts := facts.(numbers := map[e.eval.asNum.value.id := 0]);
    case UNumEvaluator => facts := facts.(unumbers := map[e.eval.asUNum.value.id := 0]);
  }

  /** LeafAgrees is the exact condition. */
  lemma LeafAgreesIff(e: JsonEvaluator)
    requires LeafBuilds(e)
    ensures LeafAgrees(e) <==>
            forall facts, sets :: NulFree(facts) && SameLabels(facts, sets) ==> CLeaf(e, facts, sets) == GoLeaf(e, facts)
  {
    if LeafAgrees(e) {
      forall facts, sets | NulFree(facts) && SameLabels(facts, sets)
        ensures CLeaf(e, facts, sets) == GoLeaf(e, facts)
      {
        LeafAgreement(e, facts, sets);
      }
    } else {
      var facts, sets := LeafDisagreement(e);
    }
  }

  // ----- whole trees

  /** All leaves agree, and no AND or OR was given a null for its children. */
  predicate TreeAgrees(w: JsonWrap)
    requires Builds(w)
    decreases w
  {
    match w.nodeType
    case EvaluatorNode => LeafAgrees(w.node.asEvaluator.value)
    case CompositeNode =>
      match w.node.asComposite
      case Composite(op, NullChildren) => op != BoolAnd && op != BoolOr
      case Composite(op, Children(ws)) => forall i :: 0 <= i < |ws| ==> TreeAgrees(ws[i])
      case Composite(op, NoChildren) => true
  }

  lemma ConfHasNoErrors(facts: Go.Context, sets: LabelSets)
    requires NulFree(facts)
    ensures ConfTables(facts, sets).Knowledge() == ConfTables(facts, sets)
  {
  }

  lemma FreeIsCLeaf(e: JsonEvaluator, facts: Go.Context, sets: LabelSets)
    requires LeafBuilds(e) && NulFree(facts)
    ensures CEngine.Free(ConfTables(facts, sets))(BuiltLeaf(e)) == CLeaf(e, facts, sets)
  {
    ConfHasNoErrors(facts, sets);
  }

  /** What a leaf serialized for the C engine comes to when no error is remembered. */
  function BuiltMeaning(facts: Go.Context, sets: LabelSets): JsonEvaluator -> Result
    requires NulFree(facts)
  {
    e => if LeafBuilds(e) then CLeaf(e, facts, sets) else Abstain
  }

  /** Serializing preserves meaning, too, where a null for the children is read as none. */
  lemma {:induction false} BuildPreservesMeaning(w: JsonWrap, facts: Go.Context, sets: LabelSets, depth: nat)
    requires Builds(w) && NulFree(facts)
    ensures Value(Built(w), CEngine.Free(ConfTables(facts, sets)), depth) ==
            DocumentValue(w, BuiltMeaning(facts, sets), true, depth)
    decreases w
  {
    var free, leaf := CEngine.Free(ConfTables(facts, sets)), BuiltMeaning(facts, sets);
    if depth > MAX_DEPTH {
    } else {
      match w.nodeType
      case EvaluatorNode => FreeIsCLeaf(w.node.asEvaluator.value, facts, sets);
      case CompositeNode =>
        match w.node.asComposite
        case Composite(op, Children(ws)) =>
          var built := seq(|ws|, i requires 0 <= i < |ws| => Built(ws[i]));
          var meant := seq(|ws|, i requires 0 <= i < |ws| => DocumentValue(ws[i], leaf, true, depth + 1));
          ValueOfNode(OpOf(op), built, free, depth);
          forall i | 0 <= i < |ws| ensures Values(built, free, depth + 1)[i] == meant[i] {
            BuildPreservesMeaning(ws[i], facts, sets, depth + 1);
          }
          assert Values(built, free, depth + 1) == meant;
        case Composite(op, _) => ValueOfNode(OpOf(op), [], free, depth);
    }
  }

  /** On documents of leaves on which the engines agree the two readings are the same. */
  lemma {:induction false} ReadingsAgree(w: JsonWrap, facts: Go.Context, sets: LabelSets, depth: nat)
    requires Builds(w) && TreeAgrees(w) && NulFree(facts) && SameLabels(facts, sets)
    ensures DocumentValue(w, BuiltMeaning(facts, sets), true, depth) ==
            DocumentValue(w, LeafMeaning(facts), false, depth)
    decreases w
  {
    var c, g := BuiltMeaning(facts, sets), LeafMeaning(facts);
    if depth > MAX_DEPTH {
    } else {
      match w.nodeType
      case EvaluatorNode => LeafAgreement(w.node.asEvaluator.value, facts, sets);
      case CompositeNode =>
        match w.node.asComposite
        case Composite(op, Children(ws)) =>
          var xs := seq(|ws|, i requires 0 <= i < |ws| => DocumentValue(ws[i], c, true, depth + 1));
          var ys := seq(|ws|, i requires 0 <= i < |ws| => DocumentValue(ws[i], g, false, depth + 1));
          forall i | 0 <= i < |ws| ensures xs[i] == ys[i] {
            ReadingsAgree(ws[i], facts, sets, depth + 1);
          }
          assert xs == ys;
        case Composite(_, _) =>
    }
  }

  /**
   The conformance contract: on the same document and the same facts the C engine, under the host
   evaluators of the harness, answers what the Go engine answers.
   */
  lemma {:induction false} EnginesAgree(w: JsonWrap, facts: Go.Context, sets: LabelSets)
    requires Builds(w) && TreeAgrees(w) && Wire.IdsInRange(Built(w))
    requires NulFree(facts) && SameLabels(facts, sets)
    ensures CEngine.Run(ConfTables(facts, sets), Built(w), 0).result == Value(Decode(w, 0), Go.Under(facts), 0)
  {
    CEngineFacts.IdsInRangeMeansExact(ConfTables(facts, sets), Built(w), 0);
    BuildPreservesMeaning(w, facts, sets, 0);
    ReadingsAgree(w, facts, sets, 0);
    DecodePreservesMeaning(w, facts, 0);
  }

  /** Without the ids in range the contract breaks even where every leaf agrees: the error sticks. */
  lemma StickyErrorBreaksAgreement() returns (w: JsonWrap, facts: Go.Context)
    ensures Builds(w) && TreeAgrees(w) && NulFree(facts) && SameLabels(facts, map[])
    ensures CEngine.Run(ConfTables(facts, map[]), Built(w), 0).result == Abstain
    ensures Value(Decode(w, 0), Go.Under(facts), 0) == True
  {
    facts := NoFacts();
    var bad := StrLeaf(STR_EVAL_COUNT, CmpStrUnknown);
    var good := StrLeaf(ALWAYS_TRUE, CmpStrUnknown);
    var ws := [bad, good];
    w := JsonWrap(CompositeNode, JsonNode(Composite(BoolOr, Children(ws)), Failed));
    var leaves := [Built(bad), Built(good)];
    assert Built(w) == Node(OpOr, leaves);
    CEngineFacts.BadFirst(ConfTables(facts, map[]), leaves[0].leaf, leaves[1].leaf);
    var decoded := [Decode(bad, 1), Decode(good, 1)];
    assert Decode(w, 0) == Compose(BoolOr, decoded);
    ComposeValue(BoolOr, decoded, facts, 0);
    assert Values(decoded, Go.Under(facts), 1)[1] == True;
  }

  function StrLeaf(id: int, cmp: StrCmpName): JsonWrap {
    var text := Parsed(JsonStr(id, cmp, None));
    JsonWrap(EvaluatorNode, JsonNode(BadComposite, Parsed(JsonEvaluator(StrEvaluator, JsonEval(text, Failed, Failed)))))
  }

  // ----- variables of deny rules, under the host evaluator

  /** What a variable of a deny rule asks of its value; null asks for any value but the empty one. */
  function ValuePattern(value: Option<CString>): CString {
    if value.None? then "*?" else value.value
  }

  /**
   The leaf compiled for a variable compares the value of a variable, if it is set, as a glob. It
   is the variable and the pattern of the rule exactly when the name holds no '='.
   */
  lemma EnvLeafMeans(sets: LabelSets, key: CString, value: Option<CString>)
    ensures var kv := Converter.EnvPattern(key, value);
            var e := Converter.EnvLeaf(key, value).leaf;
            && Cut(kv).Some?
            && var (name, want) := Cut(kv).value;
               && (name == key <==> '=' !in key)
               && ('=' !in key ==> want == ValuePattern(value))
               && ConfLabel(sets, e.str, e.scmp, PROCESS_ENVAR).result ==
                  if PROCESS_ENVAR !in sets then Abstain
                  else
                    match FindKey(sets[PROCESS_ENVAR], name)
                    case None => False
                    case Some(got) => FromBool(Matches(Wildcard, want, got))
  {
    EnvPatternCut(key, value);
    var kv := Converter.EnvPattern(key, value);
    var (name, want) := Cut(kv).value;
    if PROCESS_ENVAR in sets {
      ConfLabelAnswer(sets, kv, if IsLiteral(kv) then Exact else Wildcard, PROCESS_ENVAR);
      if IsLiteral(kv) && FindKey(sets[PROCESS_ENVAR], name).Some? {
        ExactIsWildcard(want, FindKey(sets[PROCESS_ENVAR], name).value);
      }
    }
  }

  lemma EnvPatternCut(key: CString, value: Option<CString>)
    ensures var kv := Converter.EnvPattern(key, value);
            && Cut(kv).Some?
            && var (name, want) := Cut(kv).value;
               && (name == key <==> '=' !in key)
               && ('=' !in key ==> want == ValuePattern(value))
               && (IsLiteral(kv) ==> IsLiteral(want))
  {
    var kv := Converter.EnvPattern(key, value);
    assert kv == key + "=" + ValuePattern(value);
    assert kv[|key|] == '=';
    if '=' !in key {
      CutAtFirst(key, ValuePattern(value));
    }
    var (name, want) := Cut(kv).value;
    assert forall c :: c in want ==> c in name + "=" + want;
  }

  /** A variable given as null is found set exactly when its value is not empty, but for starred ones. */
  lemma {:induction false} EnvNullMeansNonEmpty(sets: LabelSets, key: CString, got: CString)
    requires '=' !in key && PROCESS_ENVAR in sets && FindKey(sets[PROCESS_ENVAR], key) == Some(got)
    ensures var e := Converter.EnvLeaf(key, None).leaf;
            (ConfLabel(sets, e.str, e.scmp, PROCESS_ENVAR).result == FromBool(got != "")) <==>
            (got == "" || got[0] != '*' || |got| == 2)
  {
    EnvLeafMeans(sets, key, None);
    NonEmptyGlob(got);
  }

  // ----- actions

  /** The same actions in both forms; those the Go engine does not implement have any other id. */
  ghost predicate SameActions(xs: seq<Documents.JsonAction>, ys: seq<Wire.Action>) {
    |xs| == |ys| && forall i :: 0 <= i < |xs| ==> SameAction(xs[i], ys[i])
  }

  predicate SameAction(x: Documents.JsonAction, y: Wire.Action) {
    x.values == y.values &&
    match x.name
    case InjectDeny => y.id == 1
    case InjectAllow => y.id == 2
    case EnableSdk => y.id == 3
    case EnableProfiler => y.id == 4
    case SetEnvVar => y.id == 5
    case OtherAction => !(1 <= y.id <= 5)
  }

  /** A host that registers handlers for exactly the actions the Go engine implements. */
  predicate HandlesTheSame(c: EvalContext.Tables) {
    c.Valid() && forall id :: 0 <= id < EvalContext.ACTIONS_COUNT ==> (c.actions[id].fn.Some? <==> 1 <= id <= 5)
  }

  function HandledOnly(xs: seq<Documents.JsonAction>): seq<Documents.JsonAction> {
    if xs == [] then []
    else
      var n := |xs| - 1;
      HandledOnly(xs[..n]) + if Documents.Handled(xs[n]) then [xs[n]] else []
  }

  lemma {:induction false} SameLimit(c: EvalContext.Tables, xs: seq<Documents.JsonAction>, ys: seq<Wire.Action>)
    requires HandlesTheSame(c) && SameActions(xs, ys)
    ensures Documents.Limit(xs) == PolicyBuffer.Limit(c, ys)
    decreases |xs|
  {
    if xs == [] {
    } else {
      assert SameAction(xs[0], ys[0]);
      assert SameActions(xs[1..], ys[1..]);
      SameLimit(c, xs[1..], ys[1..]);
    }
  }

  lemma {:induction false} SameHandled(
    c: EvalContext.Tables, xs: seq<Documents.JsonAction>, ys: seq<Wire.Action>, n: nat)
    requires HandlesTheSame(c) && SameActions(xs, ys) && n <= |xs|
    ensures SameActions(HandledOnly(xs[..n]), PolicyBuffer.HandledUpTo(c, ys, n))
    decreases n
  {
    if n == 0 {
    } else {
      assert SameAction(xs[n - 1], ys[n - 1]);
      assert xs[..n][..n - 1] == xs[..n - 1];
      SameHandled(c, xs, ys, n - 1);
    }
  }

  lemma {:induction false} HandledDecideOutcome(xs: seq<Documents.JsonAction>)
    ensures Documents.OutcomeOf(HandledOnly(xs)) == Documents.OutcomeOf(xs)
  {
    WritesOfHandled(xs, Documents.VersionWrites);
    WritesOfHandled(xs, Documents.ConfigWrites);
    InjectOfHandled(xs);
  }

  lemma {:induction false} WritesOfHandled(
    xs: seq<Documents.JsonAction>, writes: Documents.JsonAction -> seq<Documents.EnvVar>)
    requires forall x :: !Documents.Handled(x) ==> writes(x) == []
    ensures Documents.AllWrites(HandledOnly(xs), writes) == Documents.AllWrites(xs, writes)
    decreases |xs|
  {
    if xs == [] {
    } else {
      var n := |xs| - 1;
      var before := HandledOnly(xs[..n]);
      WritesOfHandled(xs[..n], writes);
      if Documents.Handled(xs[n]) {
        assert (before + [xs[n]])[..|before|] == before;
      } else {
        assert before + [] == before;
      }
    }
  }

  lemma {:induction false} InjectOfHandled(xs: seq<Documents.JsonAction>)
    ensures Documents.LastInject(HandledOnly(xs)) == Documents.LastInject(xs)
    decreases |xs|
  {
    if xs == [] {
    } else {
      var n := |xs| - 1;
      var before := HandledOnly(xs[..n]);
      InjectOfHandled(xs[..n]);
      if Documents.Handled(xs[n]) {
        assert (before + [xs[n]])[..|before|] == before;
      } else {
        assert before + [] == before;
      }
    }
  }

  lemma {:induction false} BadActionIsHandled(xs: seq<Documents.JsonAction>)
    requires !Documents.AllGood(xs)
    ensures HandledOnly(xs) != []
    decreases |xs|
  {
    var n := |xs| - 1;
    if Documents.BadAction(xs[n]) {
    } else {
      var i :| 0 <= i < |xs| && Documents.BadAction(xs[i]);
      assert xs[..n][i] == xs[i];
      BadActionIsHandled(xs[..n]);
    }
  }

  /**
   The C engine runs the same handled actions, in the same order, as count for the Go engine. The Go
   engine yields their outcome exactly when all their values are well formed; otherwise it drops the
   policy, while the C engine still calls handlers for it.
   */
  lemma SameActionsApply(c: EvalContext.Tables, xs: seq<Documents.JsonAction>, ys: seq<Wire.Action>)
    requires HandlesTheSame(c) && SameActions(xs, ys)
    ensures var counted := xs[..Documents.Limit(xs)];
            var applied, invoked := HandledOnly(counted), PolicyBuffer.Invoked(c, ys);
            && SameActions(applied, invoked)
            && (Documents.Decoded(xs) == Some(Documents.OutcomeOf(applied)) <==> Documents.AllGood(counted))
            && (!Documents.AllGood(counted) ==> Documents.Decoded(xs).None? && invoked != [])
  {
    SameLimit(c, xs, ys);
    var n := Documents.Limit(xs);
    SameHandled(c, xs, ys, n);
    HandledDecideOutcome(xs[..n]);
    if !Documents.AllGood(xs[..n]) {
      BadActionIsHandled(xs[..n]);
    }
  }
}
