/** Policies as they arrive: verified trees of evaluator and composite nodes, and their actions. */
module Wire {
  import opened RuleTree
  import opened Comparators
  import opened EvaluatorIds

  /** Unset is what a failed parse leaves behind, Future a comparator of a newer schema. */
  datatype StrCmp = Str(matching: Matching) | StrUnset | StrFuture

  datatype NumCmp = Num(relation: Relation) | NumUnset | NumFuture

  datatype Evaluator =
    | StrEvaluator(id: int, scmp: StrCmp, str: Option<CString>)
    | NumEvaluator(id: int, ncmp: NumCmp, num: Int64)
    | UNumEvaluator(id: int, ncmp: NumCmp, unum: UInt64)
    | NoEvaluator

  type WireNode = Tree<Evaluator>

  datatype Action = Action(id: int, values: seq<string>)

  datatype PolicyInfo = PolicyInfo(hi: UInt64, lo: UInt64, version: Int64, description: Option<string>)

  datatype Policy = Policy(info: PolicyInfo, rules: Option<WireNode>, actions: seq<Action>)

  predicate StrIdInRange(id: int) {
    0 <= id < STR_EVAL_COUNT
  }

  predicate NumIdInRange(id: int) {
    0 <= id < NUM_EVAL_COUNT
  }

  predicate IdInRange(e: Evaluator) {
    match e
    case StrEvaluator(id, _, _) => StrIdInRange(id)
    case NumEvaluator(id, _, _) => NumIdInRange(id)
    case UNumEvaluator(id, _, _) => NumIdInRange(id)
    case NoEvaluator => true
  }

  predicate IdsInRange(t: WireNode) {
    match t
    case Blank => true
    case Leaf(e) => IdInRange(e)
    case Node(_, cs) => forall i :: 0 <= i < |cs| ==> IdsInRange(cs[i])
  }
}
