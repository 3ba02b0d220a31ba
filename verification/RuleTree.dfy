/**
 Rule trees over an arbitrary kind of leaf, and what they mean. Both engines evaluate such a
 tree: they differ in what a leaf is and in how it finds its answer, given here as a valuation.
 */
module RuleTree {
  import opened Tristate

  datatype Op = OpUnknown | OpAnd | OpOr | OpNot

  /** A Blank is a node that is neither a known leaf nor a composite: both engines abstain on it. */
  datatype Tree<L> = Blank | Leaf(leaf: L) | Node(op: Op, children: seq<Tree<L>>)

  /** A node deeper than this is never evaluated. The root is at depth 0. */
  const MAX_DEPTH: nat := 64

  /** The value of a composite, given the values of all of its children. */
  function Combine(op: Op, rs: seq<Result>): Result {
    match op
    case OpAnd => AllOf(rs)
    case OpOr => AnyOf(rs)
    case OpNot => if |rs| == 1 then DoNot(rs[0]) else Abstain
    case OpUnknown => Abstain
  }

  /** The full strong-Kleene value of a tree, with the depth cap: no short-circuit, no order. */
  function Value<L>(t: Tree<L>, v: L -> Result, depth: nat): Result
    decreases t
  {
    if depth > MAX_DEPTH then Abstain
    else
      match t
      case Blank => Abstain
      case Leaf(l) => v(l)
      case Node(op, cs) =>
        Combine(op, seq(|cs|, i requires 0 <= i < |cs| => Value(cs[i], v, depth + 1)))
  }

  function Values<L>(cs: seq<Tree<L>>, v: L -> Result, depth: nat): (rs: seq<Result>)
    ensures |rs| == |cs|
  {
    seq(|cs|, i requires 0 <= i < |cs| => Value(cs[i], v, depth))
  }

  lemma ValueOfNode<L>(op: Op, cs: seq<Tree<L>>, v: L -> Result, depth: nat)
    requires depth <= MAX_DEPTH
    ensures Value(Node(op, cs), v, depth) == Combine(op, Values(cs, v, depth + 1))
  {
    assert Values(cs, v, depth + 1) == seq(|cs|, i requires 0 <= i < |cs| => Value(cs[i], v, depth + 1));
  }

  /** The value of a tree when nothing bounds its depth. */
  function Meaning<L>(t: Tree<L>, v: L -> Result): Result {
    match t
    case Blank => Abstain
    case Leaf(l) => v(l)
    case Node(op, cs) =>
      Combine(op, seq(|cs|, i requires 0 <= i < |cs| => Meaning(cs[i], v)))
  }

  /** Whether every node under t sits at most n levels below it. */
  predicate Within<L>(t: Tree<L>, n: nat) {
    t.Node? ==> forall i :: 0 <= i < |t.children| ==> n > 0 && Within(t.children[i], n - 1)
  }

  // ----- monotonicity of the operators

  lemma CombineMonotone(op: Op, xs: seq<Result>, ys: seq<Result>)
    requires AllBelow(xs, ys)
    ensures Below(Combine(op, xs), Combine(op, ys))
  {
    assert forall r :: r in xs && r != Abstain ==> r in ys by {
      forall r | r in xs && r != Abstain ensures r in ys {
        var i :| 0 <= i < |xs| && xs[i] == r;
        assert ys[i] == r;
      }
    }
    if Abstain !in xs {
      assert xs == ys;
    }
  }

  // ----- the depth cap

  /** Truncation only loses information: a decided capped result is the real one. */
  lemma {:induction false} CapLosesInformation<L>(t: Tree<L>, v: L -> Result, depth: nat)
    ensures Below(Value(t, v, depth), Meaning(t, v))
    decreases t
  {
    if !t.Node? || depth > MAX_DEPTH {
    } else {
      var cs := t.children;
      var rs := seq(|cs|, i requires 0 <= i < |cs| => Meaning(cs[i], v));
      forall i | 0 <= i < |cs| ensures Below(Values(cs, v, depth + 1)[i], rs[i]) {
        CapLosesInformation(cs[i], v, depth + 1);
      }
      ValueOfNode(t.op, cs, v, depth);
      CombineMonotone(t.op, Values(cs, v, depth + 1), rs);
    }
  }

  /** A tree that fits above the cap has its real meaning. */
  lemma {:induction false} CapIsExact<L>(t: Tree<L>, v: L -> Result, depth: nat, n: nat)
    requires Within(t, n) && depth + n <= MAX_DEPTH
    ensures Value(t, v, depth) == Meaning(t, v)
    decreases t
  {
    if !t.Node? {
    } else {
      var cs := t.children;
      var rs := seq(|cs|, i requires 0 <= i < |cs| => Meaning(cs[i], v));
      forall i | 0 <= i < |cs| ensures Values(cs, v, depth + 1)[i] == rs[i] {
        CapIsExact(cs[i], v, depth + 1, n - 1);
      }
      ValueOfNode(t.op, cs, v, depth);
      assert Values(cs, v, depth + 1) == rs;
    }
  }

  /** A leaf under n operators that pass its value on. */
  function Tower<L>(l: L, n: nat): Tree<L> {
    if n == 0 then Leaf(l) else Node(OpAnd, [Tower(l, n - 1)])
  }

  /** The bound is tight: a leaf counts down to the last level, and not one level further. */
  lemma {:induction false} CapIsTight<L>(l: L, n: nat, v: L -> Result, depth: nat)
    ensures Value(Tower(l, n), v, depth) == if depth + n <= 64 then v(l) else Abstain
    ensures Within(Tower(l, n), n) && Meaning(Tower(l, n), v) == v(l)
    decreases n
  {
    if n == 0 {
    } else {
      var cs := [Tower(l, n - 1)];
      CapIsTight(l, n - 1, v, depth + 1);
      if depth <= MAX_DEPTH {
        ValueOfNode(OpAnd, cs, v, depth);
        assert Values(cs, v, depth + 1) == [Value(cs[0], v, depth + 1)];
      }
      assert Meaning(Node(OpAnd, cs), v) == AllOf([Meaning(cs[0], v)]) by {
        assert seq(|cs|, i requires 0 <= i < |cs| => Meaning(cs[i], v)) == [Meaning(cs[0], v)];
      }
    }
  }

  /** Moving a tree up, away from the cap, only adds information. */
  lemma {:induction false} ShallowerKnowsMore<L>(t: Tree<L>, v: L -> Result, depth: nat, deeper: nat)
    requires depth <= deeper
    ensures Below(Value(t, v, deeper), Value(t, v, depth))
    decreases t
  {
    if !t.Node? || deeper > MAX_DEPTH {
    } else {
      var cs := t.children;
      var low, high := Values(cs, v, deeper + 1), Values(cs, v, depth + 1);
      forall i | 0 <= i < |cs| ensures Below(low[i], high[i]) {
        ShallowerKnowsMore(cs[i], v, depth + 1, deeper + 1);
      }
      ValueOfNode(t.op, cs, v, deeper);
      ValueOfNode(t.op, cs, v, depth);
      CombineMonotone(t.op, low, high);
    }
  }

  // ----- better-informed leaves

  /** If every leaf knows at least as much, so does the tree. */
  lemma {:induction false} ValuationMonotone<L(!new)>(t: Tree<L>, v: L -> Result, w: L -> Result, depth: nat)
    requires forall l :: Below(v(l), w(l))
    ensures Below(Value(t, v, depth), Value(t, w, depth))
    decreases t
  {
    if !t.Node? || depth > MAX_DEPTH {
    } else {
      var cs := t.children;
      var low, high := Values(cs, v, depth + 1), Values(cs, w, depth + 1);
      forall i | 0 <= i < |cs| ensures Below(low[i], high[i]) {
        ValuationMonotone(cs[i], v, w, depth + 1);
      }
      ValueOfNode(t.op, cs, v, depth);
      ValueOfNode(t.op, cs, w, depth);
      CombineMonotone(t.op, low, high);
    }
  }

  // ----- order of children

  /** p and q are inverse renumberings of 0..n. */
  predicate Inverse(p: seq<nat>, q: seq<nat>, n: nat) {
    && |p| == |q| == n
    && (forall i :: 0 <= i < n ==> p[i] < n && q[p[i]] == i)
    && (forall i :: 0 <= i < n ==> q[i] < n && p[q[i]] == i)
  }

  /** u is t with the children of any number of composites reordered. */
  ghost predicate Shuffled<L(!new)>(t: Tree<L>, u: Tree<L>) {
    match t
    case Blank => u == t
    case Leaf(_) => u == t
    case Node(op, cs) =>
      && u.Node? && u.op == op && |u.children| == |cs|
      && exists p: seq<nat>, q: seq<nat> ::
           Inverse(p, q, |cs|) && forall i :: 0 <= i < |cs| ==> Shuffled(cs[i], u.children[p[i]])
  }

  lemma CombineIgnoresOrder(op: Op, xs: seq<Result>, ys: seq<Result>, p: seq<nat>, q: seq<nat>)
    requires |xs| == |ys| && Inverse(p, q, |xs|)
    requires forall i :: 0 <= i < |xs| ==> xs[i] == ys[p[i]]
    ensures Combine(op, xs) == Combine(op, ys)
  {
    forall r ensures r in xs <==> r in ys {
      if r in xs {
        var i :| 0 <= i < |xs| && xs[i] == r;
        assert ys[p[i]] == r;
      }
      if r in ys {
        var i :| 0 <= i < |ys| && ys[i] == r;
        assert xs[q[i]] == r;
      }
    }
  }

  /** The order of children never matters, anywhere in the tree. */
  lemma {:induction false} OrderIsIrrelevant<L(!new)>(t: Tree<L>, u: Tree<L>, v: L -> Result, depth: nat)
    requires Shuffled(t, u)
    ensures Value(t, v, depth) == Value(u, v, depth)
    decreases t
  {
    if !t.Node? || depth > MAX_DEPTH {
    } else {
      var cs := t.children;
      var p: seq<nat>, q: seq<nat> :|
        Inverse(p, q, |cs|) && forall i :: 0 <= i < |cs| ==> Shuffled(cs[i], u.children[p[i]]);
      var xs, ys := Values(cs, v, depth + 1), Values(u.children, v, depth + 1);
      forall i | 0 <= i < |cs| ensures xs[i] == ys[p[i]] {
        OrderIsIrrelevant(cs[i], u.children[p[i]], v, depth + 1);
      }
      ValueOfNode(t.op, cs, v, depth);
      ValueOfNode(t.op, u.children, v, depth);
      CombineIgnoresOrder(t.op, xs, ys, p, q);
    }
  }
}
