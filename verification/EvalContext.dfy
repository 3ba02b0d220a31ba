/** The evaluation context of the C engine: its tables, and the error it remembers. */
module EvalContext {
  import opened Tristate
  import opened Comparators
  import opened EvaluatorIds
  import opened Wire

  const ESUCCESS: nat := 0
  const EREGISTER_EVAL_PTR: nat := 1
  const EIX_OVERFLOW: nat := 2
  const ENO_DATA: nat := 5
  const EUNKNOWN_CMP: nat := 8

  const ACTIONS_COUNT: nat := 7

  /** What an evaluator function does: its result, and whether it records an unknown comparator. */
  datatype Verdict = Verdict(result: Result, unknownCmp: bool)

  type StrFn = (Option<CString>, StrCmp, Option<CString>, int) -> Verdict
  type NumFn = (Int64, NumCmp, Int64, int) -> Verdict
  type UNumFn = (UInt64, NumCmp, UInt64, int) -> Verdict
  type ActionFn = (Result, Action, PolicyInfo) -> int

  datatype StrEntry = StrEntry(fn: Option<StrFn>, value: Option<CString>, error: nat)
  datatype NumEntry = NumEntry(fn: Option<NumFn>, value: Int64, error: nat)
  datatype UNumEntry = UNumEntry(fn: Option<UNumFn>, value: UInt64, error: nat)
  datatype ActionEntry = ActionEntry(fn: Option<ActionFn>, error: int)

  /** The contents of a context. */
  datatype Tables = Tables(
    strs: seq<StrEntry>, nums: seq<NumEntry>, unums: seq<UNumEntry>, actions: seq<ActionEntry>, error: nat)
  {
    predicate Valid() {
      |strs| == STR_EVAL_COUNT && |nums| == |unums| == NUM_EVAL_COUNT && |actions| == ACTIONS_COUNT
    }

    /** The tables after a getter was asked for an index that may be out of range. */
    function Asked(inRange: bool): Tables {
      if inRange then this else this.(error := EIX_OVERFLOW)
    }

    function StrFailed(id: int, failed: bool): Tables {
      if failed && 0 <= id < |strs| then this.(strs := strs[id := strs[id].(error := EUNKNOWN_CMP)]) else this
    }

    function NumFailed(id: int, failed: bool): Tables {
      if failed && 0 <= id < |nums| then this.(nums := nums[id := nums[id].(error := EUNKNOWN_CMP)]) else this
    }

    function UNumFailed(id: int, failed: bool): Tables {
      if failed && 0 <= id < |unums| then this.(unums := unums[id := unums[id].(error := EUNKNOWN_CMP)]) else this
    }

    function ActionFailed(id: int, e: int): Tables {
      if 0 <= id < |actions| then this.(actions := actions[id := actions[id].(error := e)]) else this
    }

    function StrParam(id: int): Option<CString> {
      if 0 <= id < |strs| then strs[id].value else None
    }

    function NumParam(id: int): Int64 {
      if 0 <= id < |nums| then nums[id].value else NUM_NOT_SET
    }

    function UNumParam(id: int): UInt64 {
      if 0 <= id < |unums| then unums[id].value else UNUM_NOT_SET
    }

    /** The tables with every error forgotten: what is registered, and the facts. */
    ghost function Knowledge(): Tables {
      Tables(
        seq(|strs|, i requires 0 <= i < |strs| => strs[i].(error := ESUCCESS)),
        seq(|nums|, i requires 0 <= i < |nums| => nums[i].(error := ESUCCESS)),
        seq(|unums|, i requires 0 <= i < |unums| => unums[i].(error := ESUCCESS)),
        seq(|actions|, i requires 0 <= i < |actions| => actions[i].(error := ESUCCESS)),
        ESUCCESS)
    }
  }

  /** Two contexts that differ in nothing but the errors they remember. */
  ghost predicate SameKnowledge(a: Tables, b: Tables) {
    a.Valid() && b.Valid() && a.Knowledge() == b.Knowledge()
  }

  lemma ErrorsAreNotKnowledge(c: Tables, id: int, e: nat, failed: bool)
    requires c.Valid()
    ensures SameKnowledge(c, c.(error := e))
    ensures SameKnowledge(c, c.StrFailed(id, failed))
    ensures SameKnowledge(c, c.NumFailed(id, failed))
    ensures SameKnowledge(c, c.UNumFailed(id, failed))
    ensures SameKnowledge(c, c.ActionFailed(id, e))
  {
    assert c.(error := e).Knowledge() == c.Knowledge();
    assert c.StrFailed(id, failed).Knowledge().strs == c.Knowledge().strs;
    assert c.NumFailed(id, failed).Knowledge().nums == c.Knowledge().nums;
    assert c.UNumFailed(id, failed).Knowledge().unums == c.Knowledge().unums;
    assert c.ActionFailed(id, e).Knowledge().actions == c.Knowledge().actions;
  }

  const EMPTY_STR := StrEntry(None, None, ESUCCESS)
  const EMPTY_NUM := NumEntry(None, NUM_NOT_SET, ESUCCESS)
  const EMPTY_UNUM := UNumEntry(None, UNUM_NOT_SET, ESUCCESS)
  const EMPTY_ACTION := ActionEntry(None, ESUCCESS)

  /** A context that was just reset. */
  function EmptyTables(): (c: Tables)
    ensures c.Valid()
  {
    Tables(
      seq(STR_EVAL_COUNT, _ => EMPTY_STR), seq(NUM_EVAL_COUNT, _ => EMPTY_NUM),
      seq(NUM_EVAL_COUNT, _ => EMPTY_UNUM), seq(ACTIONS_COUNT, _ => EMPTY_ACTION), ESUCCESS)
  }

  class EvalCtx {
    const strs: array<StrEntry>
    const nums: array<NumEntry>
    const unums: array<UNumEntry>
    const actions: array<ActionEntry>
    var error: nat

    ghost predicate Valid()
      reads this
    {
      && strs.Length == STR_EVAL_COUNT && nums.Length == NUM_EVAL_COUNT
      && unums.Length == NUM_EVAL_COUNT && actions.Length == ACTIONS_COUNT
    }

    ghost function View(): Tables
      reads this, strs, nums, unums, actions
    {
      Tables(strs[..], nums[..], unums[..], actions[..], error)
    }

    constructor ()
      ensures Valid() && View() == EmptyTables()
      ensures fresh(strs) && fresh(nums) && fresh(unums) && fresh(actions)
    {
      strs := new StrEntry[STR_EVAL_COUNT](_ => EMPTY_STR);
      nums := new NumEntry[NUM_EVAL_COUNT](_ => EMPTY_NUM);
      unums := new UNumEntry[NUM_EVAL_COUNT](_ => EMPTY_UNUM);
      actions := new ActionEntry[ACTIONS_COUNT](_ => EMPTY_ACTION);
      error := ESUCCESS;
    }

    method Reset()
      requires Valid()
      modifies this, strs, nums, unums, actions
      ensures Valid() && View() == EmptyTables()
    {
      for i := 0 to STR_EVAL_COUNT
        invariant forall k :: 0 <= k < i ==> strs[k] == EMPTY_STR
      {
        strs[i] := StrEntry(None, None, ESUCCESS);
      }
      for i := 0 to NUM_EVAL_COUNT
        invariant strs[..] == EmptyTables().strs
        invariant forall k :: 0 <= k < i ==> nums[k] == EMPTY_NUM && unums[k] == EMPTY_UNUM
      {
        nums[i] := NumEntry(None, NUM_NOT_SET, ESUCCESS);
        unums[i] := UNumEntry(None, UNUM_NOT_SET, ESUCCESS);
      }
      for i := 0 to ACTIONS_COUNT
        invariant strs[..] == EmptyTables().strs && nums[..] == EmptyTables().nums
        invariant unums[..] == EmptyTables().unums
        invariant forall k :: 0 <= k < i ==> actions[k] == EMPTY_ACTION
      {
        actions[i] := ActionEntry(None, ESUCCESS);
      }
      error := ESUCCESS;
    }

    method RegisterStrEvaluator(fn: Option<StrFn>, ix: int) returns (code: nat)
      requires Valid()
      modifies strs
      ensures code == if fn.None? then EREGISTER_EVAL_PTR else if StrIdInRange(ix) then ESUCCESS else EIX_OVERFLOW
      ensures View() == if code != ESUCCESS then old(View())
                        else old(View()).(strs := old(strs[..])[ix := old(strs[ix]).(fn := fn)])
    {
      if fn.None? {
        return EREGISTER_EVAL_PTR;
      }
      if ix < 0 || ix >= STR_EVAL_COUNT {
        return EIX_OVERFLOW;
      }
      strs[ix] := strs[ix].(fn := fn);
      return ESUCCESS;
    }

    method SetStrEvalParam(ix: int, value: Option<CString>) returns (code: nat)
      requires Valid()
      modifies strs
      ensures code == if StrIdInRange(ix) then ESUCCESS else EIX_OVERFLOW
      ensures View() == if code != ESUCCESS then old(View())
                        else old(View()).(strs := old(strs[..])[ix := old(strs[ix]).(value := value)])
    {
      if ix < 0 || ix >= STR_EVAL_COUNT {
        return EIX_OVERFLOW;
      }
      strs[ix] := strs[ix].(value := value);
      return ESUCCESS;
    }

    method SetError(e: nat)
      modifies this
      ensures View() == old(View()).(error := e)
    {
      error := e;
    }

    /** Reads the error and forgets it; the error is not touched by peeking at it. */
    method GetLastError() returns (e: nat)
      modifies this
      ensures e == old(error) && View() == old(View()).(error := ESUCCESS)
    {
      e := error;
      error := ESUCCESS;
    }

    method GetStringEvaluator(id: int) returns (fn: Option<StrFn>)
      requires Valid()
      modifies this
      ensures View() == old(View()).Asked(StrIdInRange(id))
      ensures fn == if StrIdInRange(id) then strs[id].fn else None
    {
      if id < 0 || id >= STR_EVAL_COUNT {
        error := EIX_OVERFLOW;
        return None;
      }
      return strs[id].fn;
    }

    method GetStringParam(id: int) returns (value: Option<CString>)
      requires Valid()
      modifies this
      ensures View() == old(View()).Asked(StrIdInRange(id))
      ensures value == old(View()).StrParam(id)
    {
      if id < 0 || id >= STR_EVAL_COUNT {
        error := EIX_OVERFLOW;
        return None;
      }
      return strs[id].value;
    }

    method GetNumericEvaluator(id: int) returns (fn: Option<NumFn>)
      requires Valid()
      modifies this
      ensures View() == old(View()).Asked(NumIdInRange(id))
      ensures fn == if NumIdInRange(id) then nums[id].fn else None
    {
      if id < 0 || id >= NUM_EVAL_COUNT {
        error := EIX_OVERFLOW;
        return None;
      }
      return nums[id].fn;
    }

    method GetNumericParam(id: int) returns (value: Int64)
      requires Valid()
      modifies this
      ensures View() == old(View()).Asked(NumIdInRange(id))
      ensures value == old(View()).NumParam(id)
    {
      if id < 0 || id >= NUM_EVAL_COUNT {
        error := EIX_OVERFLOW;
        return NUM_NOT_SET;
      }
      return nums[id].value;
    }

    method GetUNumericEvaluator(id: int) returns (fn: Option<UNumFn>)
      requires Valid()
      modifies this
      ensures View() == old(View()).Asked(NumIdInRange(id))
      ensures fn == if NumIdInRange(id) then unums[id].fn else None
    {
      if id < 0 || id >= NUM_EVAL_COUNT {
        error := EIX_OVERFLOW;
        return None;
      }
      return unums[id].fn;
    }

    method GetUNumericParam(id: int) returns (value: UInt64)
      requires Valid()
      modifies this
      ensures View() == old(View()).Asked(NumIdInRange(id))
      ensures value == old(View()).UNumParam(id)
    {
      if id < 0 || id >= NUM_EVAL_COUNT {
        error := EIX_OVERFLOW;
        return UNUM_NOT_SET;
      }
      return unums[id].value;
    }

    method GetAction(id: int) returns (fn: Option<ActionFn>)
      requires Valid()
      modifies this
      ensures View() == old(View()).Asked(0 <= id < ACTIONS_COUNT)
      ensures fn == if 0 <= id < ACTIONS_COUNT then actions[id].fn else None
    {
      if id < 0 || id >= ACTIONS_COUNT {
        error := EIX_OVERFLOW;
        return None;
      }
      return actions[id].fn;
    }

    method SetActionError(ix: int, e: int)
      requires Valid()
      modifies actions
      ensures View() == old(View()).ActionFailed(ix, e)
    {
      if 0 <= ix < ACTIONS_COUNT {
        actions[ix] := actions[ix].(error := e);
      }
    }

    method SetStrEvalError(ix: int)
      requires Valid()
      modifies strs
      ensures View() == old(View()).StrFailed(ix, true)
    {
      if 0 <= ix < STR_EVAL_COUNT {
        strs[ix] := strs[ix].(error := EUNKNOWN_CMP);
      }
    }

    method SetNumEvalError(ix: int)
      requires Valid()
      modifies nums
      ensures View() == old(View()).NumFailed(ix, true)
    {
      if 0 <= ix < NUM_EVAL_COUNT {
        nums[ix] := nums[ix].(error := EUNKNOWN_CMP);
      }
    }

    method SetUNumEvalError(ix: int)
      requires Valid()
      modifies unums
      ensures View() == old(View()).UNumFailed(ix, true)
    {
      if 0 <= ix < NUM_EVAL_COUNT {
        unums[ix] := unums[ix].(error := EUNKNOWN_CMP);
      }
    }
  }
}
