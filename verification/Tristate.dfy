/** The three results of a rule, the operators on them, and the information order. */
module Tristate {

  datatype Result = True | False | Abstain

  function DoAnd(a: Result, b: Result): Result {
    if a == False || b == False then False
    else if a != Abstain && b != Abstain then True
    else Abstain
  }

  function DoOr(a: Result, b: Result): Result {
    if a == True || b == True then True
    else if a != Abstain && b != Abstain then False
    else Abstain
  }

  function DoNot(a: Result): Result {
    match a
    case True => False
    case False => True
    case Abstain => Abstain
  }

  function FromBool(b: bool): Result {
    if b then True else False
  }

  /** The documented meaning of AND: FALSE dominates, TRUE if all are TRUE, ABSTAIN otherwise. */
  function AllOf(rs: seq<Result>): Result {
    if False in rs then False
    else if Abstain in rs then Abstain
    else True
  }

  /** The documented meaning of OR: TRUE dominates, FALSE if all are FALSE, ABSTAIN otherwise. */
  function AnyOf(rs: seq<Result>): Result {
    if True in rs then True
    else if Abstain in rs then Abstain
    else False
  }

  lemma AllOfExtend(rs: seq<Result>, r: Result)
    ensures AllOf(rs + [r]) == DoAnd(AllOf(rs), r)
  {
    var all := rs + [r];
    assert forall x :: x in all <==> x in rs || x == r;
  }

  lemma AnyOfExtend(rs: seq<Result>, r: Result)
    ensures AnyOf(rs + [r]) == DoOr(AnyOf(rs), r)
  {
    var all := rs + [r];
    assert forall x :: x in all <==> x in rs || x == r;
  }

  // ----- the information order: ABSTAIN is below TRUE and FALSE

  predicate Below(a: Result, b: Result) {
    a == Abstain || a == b
  }

  ghost predicate AllBelow(xs: seq<Result>, ys: seq<Result>) {
    |xs| == |ys| && forall i :: 0 <= i < |xs| ==> Below(xs[i], ys[i])
  }

  // ----- the C encoding

  /** The result codes of the C engine, whose order differs from the one of the Go engine. */
  function CCode(r: Result): (c: int)
    ensures 0 <= c <= 2
  {
    match r
    case True => 0
    case False => 1
    case Abstain => 2
  }

  /** The C operators, written on codes as in the source: NOT relies on `!code`. */
  function CAnd(a: int, b: int): int {
    if a == 1 || b == 1 then 1 else if a != 2 && b != 2 then 0 else 2
  }

  function COr(a: int, b: int): int {
    if a == 0 || b == 0 then 0 else if a != 2 && b != 2 then 1 else 2
  }

  function CNot(a: int): int {
    if a == 2 then 2 else if a == 0 then 1 else 0
  }

  /** CCode is a faithful translation of the operators: working on codes loses nothing. */
  lemma CCodesRepresentResults(a: Result, b: Result)
    ensures CCode(a) == CCode(b) <==> a == b
    ensures CAnd(CCode(a), CCode(b)) == CCode(DoAnd(a, b))
    ensures COr(CCode(a), CCode(b)) == CCode(DoOr(a, b))
    ensures CNot(CCode(a)) == CCode(DoNot(a))
  {
  }
}
