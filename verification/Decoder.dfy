/**
 Decoding of rule documents into the native model of the Go engine. A raw JSON message is
 given by what unmarshalling it yields for each type it can be unmarshalled to.
 */
module Decoder {
  import opened Tristate
  import opened RuleTree
  import opened Comparators
  import opened EvaluatorIds
  import opened GoEngine

  datatype Parse<+T> = Failed | Parsed(value: T)

  /** A raw value, where an absent one, an explicit null and a malformed one can be told apart. */
  datatype Raw<+T> = Absent | Null | Malformed | Given(value: T)

  datatype NodeTypeName = CompositeNode | EvaluatorNode | OtherNode
  datatype OpName = BoolAnd | BoolOr | BoolNot | BoolUnknown | OtherOp
  datatype EvalTypeName = StrEvaluator | NumEvaluator | UNumEvaluator | OtherEvalType
  datatype StrCmpName = CmpStr(matching: Matching) | CmpStrUnknown | OtherStrCmp
  datatype NumCmpName = CmpNum(relation: Relation) | CmpNumUnknown | OtherNumCmp

  datatype JsonWrap = JsonWrap(nodeType: NodeTypeName, node: JsonNode)
  datatype JsonNode = JsonNode(asComposite: JsonComposite, asEvaluator: Parse<JsonEvaluator>)
  datatype JsonComposite = BadComposite | Composite(op: OpName, children: JsonChildren)
  datatype JsonChildren = NoChildren | NullChildren | BadChildren | Children(wraps: seq<JsonWrap>)
  datatype JsonEvaluator = JsonEvaluator(evalType: EvalTypeName, eval: JsonEval)
  datatype JsonEval = JsonEval(asStr: Parse<JsonStr>, asNum: Parse<JsonNum>, asUNum: Parse<JsonUNum>)
  datatype JsonStr = JsonStr(id: int, cmp: StrCmpName, value: Option<string>)
  datatype JsonNum = JsonNum(id: int, cmp: NumCmpName, value: Raw<Int64>)
  datatype JsonUNum = JsonUNum(id: int, cmp: NumCmpName, value: Raw<UInt64>)

  // ----- leaves

  const ABSTAINS: GoNode := AlwaysLeaf(ALWAYS_ABSTAIN)

  /** The text before and after the first '=', as strings.Cut gives it. */
  function Cut(s: string): (r: Option<(string, string)>)
    ensures r.None? <==> '=' !in s
    ensures r.Some? ==> s == r.value.0 + "=" + r.value.1 && '=' !in r.value.0
  {
    if s == "" then None
    else if s[0] == '=' then Some(("", s[1..]))
    else
      match Cut(s[1..])
      case None => None
      case Some(kv) => Some(([s[0]] + kv.0, kv.1))
  }

  /** A name without '=' and whatever follows come apart again. */
  lemma {:induction false} CutAtFirst(key: string, value: string)
    requires '=' !in key
    ensures Cut(key + "=" + value) == Some((key, value))
    decreases |key|
  {
    var s := key + "=" + value;
    if key == "" {
      assert s[1..] == value;
    } else {
      assert s[1..] == key[1..] + "=" + value;
      CutAtFirst(key[1..], value);
      assert [s[0]] + key[1..] == key;
    }
  }

  function DecodeLabel(id: int, m: Matching, raw: string): GoNode {
    match Cut(raw)
    case None => ABSTAINS
    case Some(kv) =>
      if m == Prefix && kv.1 == "" then Leaf(StringEval(id, kv.0, CmpExists, ""))
      else Leaf(StringEval(id, kv.0, GoStr(m), kv.1))
  }

  function DecodeStr(e: JsonStr): GoNode {
    if IsConstantId(e.id) then AlwaysLeaf(e.id)
    else if e.value.None? || !e.cmp.CmpStr? then ABSTAINS
    else if IsLabelId(e.id) then DecodeLabel(e.id, e.cmp.matching, e.value.value)
    else Leaf(StringEval(e.id, "", GoStr(e.cmp.matching), e.value.value))
  }

  function NumValue<T>(raw: Raw<T>, zero: T): Option<T> {
    match raw
    case Absent => Some(zero)
    case Given(x) => Some(x)
    case _ => None
  }

  function DecodeEvaluator(e: JsonEvaluator): GoNode {
    match e.evalType
    case StrEvaluator => if e.eval.asStr.Failed? then ABSTAINS else DecodeStr(e.eval.asStr.value)
    case NumEvaluator =>
      if e.eval.asNum.Failed? then ABSTAINS
      else
        var n := e.eval.asNum.value;
        var value := NumValue(n.value, 0);
        if !n.cmp.CmpNum? || value.None? then ABSTAINS
        else Leaf(NumericEval(n.id, GoNum(n.cmp.relation), value.value))
    case UNumEvaluator =>
      if e.eval.asUNum.Failed? then ABSTAINS
      else
        var n := e.eval.asUNum.value;
        var value := NumValue(n.value, 0);
        if !n.cmp.CmpNum? || value.None? then ABSTAINS
        else Leaf(UNumericEval(n.id, GoNum(n.cmp.relation), value.value))
    case OtherEvalType => ABSTAINS
  }

  // ----- trees

  /** The operator a decoded composite gets; any other name makes it abstain. */
  function OpOf(op: OpName): Op {
    match op
    case BoolAnd => OpAnd
    case BoolOr => OpOr
    case BoolNot => OpNot
    case _ => OpUnknown
  }

  function Compose(op: OpName, children: seq<GoNode>): GoNode {
    if OpOf(op) == OpUnknown || (op == BoolNot && |children| != 1) then ABSTAINS
    else Node(OpOf(op), children)
  }

  function Decode(w: JsonWrap, depth: nat): GoNode
    decreases w
  {
    if depth > MAX_DEPTH then ABSTAINS
    else
      match w.nodeType
      case CompositeNode =>
        (match w.node.asComposite
         case Composite(op, NoChildren) => Compose(op, [])
         case Composite(op, Children(ws)) =>
           Compose(op, seq(|ws|, i requires 0 <= i < |ws| => Decode(ws[i], depth + 1)))
         case _ => ABSTAINS)
      case EvaluatorNode =>
        if w.node.asEvaluator.Failed? then ABSTAINS else DecodeEvaluator(w.node.asEvaluator.value)
      case OtherNode => ABSTAINS
  }

  /** The same without the bound on the depth. */
  function DecodeUncapped(w: JsonWrap): GoNode
    decreases w
  {
    match w.nodeType
    case CompositeNode =>
      (match w.node.asComposite
       case Composite(op, NoChildren) => Compose(op, [])
       case Composite(op, Children(ws)) =>
         Compose(op, seq(|ws|, i requires 0 <= i < |ws| => DecodeUncapped(ws[i])))
       case _ => ABSTAINS)
    case EvaluatorNode =>
      if w.node.asEvaluator.Failed? then ABSTAINS else DecodeEvaluator(w.node.asEvaluator.value)
    case OtherNode => ABSTAINS
  }

  function DecodeAll(ws: seq<JsonWrap>, depth: nat): (ns: seq<GoNode>)
    ensures |ns| == |ws|
  {
    seq(|ws|, i requires 0 <= i < |ws| => Decode(ws[i], depth))
  }

  method DecodeNodeWrap(w: JsonWrap, depth: nat) returns (n: GoNode)
    ensures n == Decode(w, depth)
    decreases w, 1
  {
    if depth > MAX_DEPTH {
      return ABSTAINS;
    }
    match w.nodeType
    case CompositeNode =>
      if w.node.asComposite.BadComposite? {
        return ABSTAINS;
      }
      n := DecodeComposite(w, depth);
    case EvaluatorNode =>
      if w.node.asEvaluator.Failed? {
        return ABSTAINS;
      }
      n := DecodeEvaluator(w.node.asEvaluator.value);
    case OtherNode =>
      n := ABSTAINS;
  }

  method DecodeComposite(w: JsonWrap, depth: nat) returns (n: GoNode)
    requires depth <= MAX_DEPTH && w.nodeType.CompositeNode? && w.node.asComposite.Composite?
    ensures n == Decode(w, depth)
    decreases w, 0
  {
    var op, raw := w.node.asComposite.op, w.node.asComposite.children;
    var children: seq<GoNode> := [];
    if !raw.NoChildren? {
      if !raw.Children? {
        return ABSTAINS;
      }
      for i := 0 to |raw.wraps|
        invariant children == DecodeAll(raw.wraps, depth + 1)[..i]
      {
        var child := DecodeNodeWrap(raw.wraps[i], depth + 1);
        children := children + [child];
      }
      ghost var ws := raw.wraps;
      assert DecodeAll(ws, depth + 1) == seq(|ws|, i requires 0 <= i < |ws| => Decode(ws[i], depth + 1));
    }
    match op
    case BoolAnd => n := Node(OpAnd, children);
    case BoolOr => n := Node(OpOr, children);
    case BoolNot =>
      if |children| != 1 {
        return ABSTAINS;
      }
      n := Node(OpNot, children);
    case _ => n := ABSTAINS;
  }

  lemma AbstainsAbstains(ctx: Context, depth: nat)
    ensures Value(ABSTAINS, Under(ctx), depth) == Abstain
  {
  }

  /** The value of a decoded composite is what its name says about the values of its children. */
  lemma ComposeValue(op: OpName, children: seq<GoNode>, ctx: Context, depth: nat)
    requires depth <= MAX_DEPTH
    ensures var rs := Values(children, Under(ctx), depth + 1);
            Value(Compose(op, children), Under(ctx), depth) ==
            match op
            case BoolAnd => AllOf(rs)
            case BoolOr => AnyOf(rs)
            case BoolNot => if |children| == 1 then DoNot(rs[0]) else Abstain
            case _ => Abstain
  {
    ValueOfNode(OpOf(op), children, Under(ctx), depth);
  }

  // ----- what a document means

  /**
   The meaning of a document, read off the document itself: no tree is built. The engines differ
   in what a null for the children is: nothing that can be decided, or no children.
   */
  function DocumentValue(w: JsonWrap, leaf: JsonEvaluator -> Result, nullIsEmpty: bool, depth: nat): Result
    decreases w
  {
    if depth > MAX_DEPTH then Abstain
    else
      match w.nodeType
      case OtherNode => Abstain
      case EvaluatorNode => if w.node.asEvaluator.Parsed? then leaf(w.node.asEvaluator.value) else Abstain
      case CompositeNode =>
        match w.node.asComposite
        case BadComposite => Abstain
        case Composite(op, BadChildren) => Abstain
        case Composite(op, NullChildren) => if nullIsEmpty then NamedValue(op, []) else Abstain
        case Composite(op, NoChildren) => NamedValue(op, [])
        case Composite(op, Children(ws)) =>
          NamedValue(op, seq(|ws|, i requires 0 <= i < |ws| => DocumentValue(ws[i], leaf, nullIsEmpty, depth + 1)))
  }

  /** What an operation of that name makes of the values of the children; a NOT takes one. */
  function NamedValue(op: OpName, rs: seq<Result>): Result {
    match op
    case BoolAnd => AllOf(rs)
    case BoolOr => AnyOf(rs)
    case BoolNot => if |rs| == 1 then DoNot(rs[0]) else Abstain
    case BoolUnknown => Abstain
    case OtherOp => Abstain
  }

  /** What a decoded leaf comes to. */
  function LeafMeaning(ctx: Context): JsonEvaluator -> Result {
    e => Value(DecodeEvaluator(e), Under(ctx), 0)
  }

  lemma DecodedLeafValue(e: JsonEvaluator, ctx: Context, depth: nat)
    requires depth <= MAX_DEPTH
    ensures Value(DecodeEvaluator(e), Under(ctx), depth) == LeafMeaning(ctx)(e)
  {
    assert DecodeEvaluator(e).Leaf?;
  }

  /** Decoding preserves meaning: every document, well formed or not, at every depth. */
  lemma {:induction false} DecodePreservesMeaning(w: JsonWrap, ctx: Context, depth: nat)
    ensures Value(Decode(w, depth), Under(ctx), depth) == DocumentValue(w, LeafMeaning(ctx), false, depth)
    decreases w
  {
    if depth > MAX_DEPTH {
    } else if w.nodeType.EvaluatorNode? {
      if w.node.asEvaluator.Parsed? {
        DecodedLeafValue(w.node.asEvaluator.value, ctx, depth);
      }
    } else if w.nodeType.CompositeNode? && w.node.asComposite.Composite? {
      match w.node.asComposite
      case Composite(op, NoChildren) => ComposeValue(op, [], ctx, depth);
      case Composite(op, Children(ws)) =>
        var decoded := seq(|ws|, i requires 0 <= i < |ws| => Decode(ws[i], depth + 1));
        var meant := seq(|ws|, i requires 0 <= i < |ws| => DocumentValue(ws[i], LeafMeaning(ctx), false, depth + 1));
        ComposeValue(op, decoded, ctx, depth);
        forall i | 0 <= i < |ws| ensures Values(decoded, Under(ctx), depth + 1)[i] == meant[i] {
          DecodePreservesMeaning(ws[i], ctx, depth + 1);
        }
        assert Values(decoded, Under(ctx), depth + 1) == meant;
      case _ =>
    }
  }

  // ----- the cap of the decoder

  predicate HasChildren(w: JsonWrap) {
    w.nodeType.CompositeNode? && w.node.asComposite.Composite? && w.node.asComposite.children.Children?
  }

  /** Bounding the depth of decoding changes no result: deeper nodes abstain anyway. */
  lemma {:induction false} CapIsInvisible(w: JsonWrap, ctx: Context, depth: nat)
    ensures Value(Decode(w, depth), Under(ctx), depth) == Value(DecodeUncapped(w), Under(ctx), depth)
    decreases w
  {
    if depth > MAX_DEPTH || !HasChildren(w) {
    } else {
      var op, ws := w.node.asComposite.op, w.node.asComposite.children.wraps;
      var capped := seq(|ws|, i requires 0 <= i < |ws| => Decode(ws[i], depth + 1));
      var uncapped := seq(|ws|, i requires 0 <= i < |ws| => DecodeUncapped(ws[i]));
      var rs, ss := Values(capped, Under(ctx), depth + 1), Values(uncapped, Under(ctx), depth + 1);
      forall i | 0 <= i < |ws| ensures rs[i] == ss[i] {
        CapIsInvisible(ws[i], ctx, depth + 1);
      }
      assert rs == ss;
      ComposeValue(op, capped, ctx, depth);
      ComposeValue(op, uncapped, ctx, depth);
    }
  }

  /** A decoded tree never reaches more than one level below the last one evaluated. */
  lemma {:induction false} DecodedIsBounded(w: JsonWrap, depth: nat)
    requires depth <= MAX_DEPTH + 1
    ensures Within(Decode(w, depth), MAX_DEPTH + 1 - depth)
    decreases w
  {
    if depth > MAX_DEPTH || !HasChildren(w) {
    } else {
      var ws := w.node.asComposite.children.wraps;
      forall i | 0 <= i < |ws| ensures Within(Decode(ws[i], depth + 1), MAX_DEPTH - depth) {
        DecodedIsBounded(ws[i], depth + 1);
      }
    }
  }

  // ----- forward compatibility

  /** Constructs this version does not know, or cannot parse. */
  predicate Unrecognised(w: JsonWrap) {
    match w.nodeType
    case OtherNode => true
    case CompositeNode =>
      || w.node.asComposite.BadComposite?
      || OpOf(w.node.asComposite.op) == OpUnknown
      || w.node.asComposite.children.NullChildren? || w.node.asComposite.children.BadChildren?
    case EvaluatorNode =>
      || w.node.asEvaluator.Failed?
      || match w.node.asEvaluator.value.evalType
         case OtherEvalType => true
         case StrEvaluator =>
           var e := w.node.asEvaluator.value.eval.asStr;
           e.Failed? || (!IsConstantId(e.value.id) && !e.value.cmp.CmpStr?)
         case NumEvaluator =>
           var e := w.node.asEvaluator.value.eval.asNum;
           e.Failed? || !e.value.cmp.CmpNum?
         case UNumEvaluator =>
           var e := w.node.asEvaluator.value.eval.asUNum;
           e.Failed? || !e.value.cmp.CmpNum?
  }

  /** What an older version sees of a document: any of its constructs may not be recognised. */
  ghost predicate SeenOlder(older: JsonWrap, w: JsonWrap)
    decreases w
  {
    || older == w
    || Unrecognised(older)
    || (&& HasChildren(older) && HasChildren(w)
        && older.node.asComposite.op == w.node.asComposite.op
        && var us, ws := older.node.asComposite.children.wraps, w.node.asComposite.children.wraps;
           |us| == |ws| && forall i :: 0 <= i < |ws| ==> SeenOlder(us[i], ws[i]))
  }

  lemma UnrecognisedAbstains(w: JsonWrap, depth: nat)
    requires Unrecognised(w)
    ensures Decode(w, depth) == ABSTAINS
  {
  }

  /** Not knowing some construct never flips a decided policy: an older engine at most abstains. */
  lemma {:induction false} OlderEngineNeverFlips(older: JsonWrap, w: JsonWrap, ctx: Context, depth: nat)
    requires SeenOlder(older, w)
    ensures Below(Value(Decode(older, depth), Under(ctx), depth), Value(Decode(w, depth), Under(ctx), depth))
    decreases w
  {
    if older == w || depth > MAX_DEPTH {
    } else if Unrecognised(older) {
      UnrecognisedAbstains(older, depth);
      AbstainsAbstains(ctx, depth);
    } else {
      var op := w.node.asComposite.op;
      var us, ws := older.node.asComposite.children.wraps, w.node.asComposite.children.wraps;
      var xs := seq(|us|, i requires 0 <= i < |us| => Decode(us[i], depth + 1));
      var ys := seq(|ws|, i requires 0 <= i < |ws| => Decode(ws[i], depth + 1));
      var low, high := Values(xs, Under(ctx), depth + 1), Values(ys, Under(ctx), depth + 1);
      forall i | 0 <= i < |low| ensures Below(low[i], high[i]) {
        OlderEngineNeverFlips(us[i], ws[i], ctx, depth + 1);
      }
      ComposeValue(op, xs, ctx, depth);
      ComposeValue(op, ys, ctx, depth);
      CombineMonotone(OpOf(op), low, high);
    }
  }
}
