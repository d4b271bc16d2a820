/**
 * The draft product signature of src/prod.rs, with its own term shape: a
 * term is a named variable or an operator value, and the operator `Mul`
 * holds its two argument terms itself. The argument iterator is a
 * three-state machine `Both -> Right -> Empty`.
 */
module Products {
  import opened Basics

  datatype Term = Var(name: string) | Op(p: Prod)

  datatype Prod = One | Mul(left: Term, right: Term)

  /** The states of `Iter`: no argument left, only the right one, or both. */
  datatype IterState = Empty | Right(right: Term) | Both(left: Term, right: Term)

  /** `Prod::mul`. */
  function MulTerm(left: Term, right: Term): (t: Term)
    ensures t.Op? && t.p.Mul? && Args(t.p) == [left, right]
  {
    Op(Mul(left, right))
  }

  /** `Prod::var`. */
  function VarTerm(s: string): (t: Term)
    ensures t.Var? && t.name == s
  {
    Var(s)
  }

  /** `Prod::one`. */
  function OneTerm(): (t: Term)
    ensures t.Op? && t.p.One? && Args(t.p) == []
  {
    Op(One)
  }

  /** The arguments an operator value holds, in order. */
  function Args(p: Prod): seq<Term>
  {
    match p
    case One => []
    case Mul(l, r) => [l, r]
  }

  /** The arity of the two operators: `One` is a constant, `Mul` is binary. */
  function ProdArity(p: Prod): nat
  {
    match p
    case One => 0
    case Mul(_, _) => 2
  }

  /** The arguments an iterator in state `s` has still to yield. */
  function Remaining(s: IterState): seq<Term>
  {
    match s
    case Empty => []
    case Right(r) => [r]
    case Both(l, r) => [l, r]
  }

  /** `Prod::iter`: the iterator starts with all the arguments of the operator to go. */
  function IterOf(p: Prod): (s: IterState)
    ensures Remaining(s) == Args(p)
    ensures |Remaining(s)| == ProdArity(p)
  {
    match p
    case One => Empty
    case Mul(l, r) => Both(l, r)
  }

  /** `arg_iter` in `impl Operator for Prod`: the same starting state as `iter`. */
  function ArgIterOf(p: Prod): (s: IterState)
    ensures Remaining(s) == Args(p)
  {
    match p
    case One => Empty
    case Mul(l, r) => Both(l, r)
  }

  /** The two ways of starting an iterator agree on every operator. */
  lemma IterAgree(p: Prod)
    ensures IterOf(p) == ArgIterOf(p)
  {
  }

  /** One step of `Iter::next`: the new state and the item yielded. */
  function Step(s: IterState): (r: (IterState, Option<Term>))
    ensures Remaining(s) == [] ==> r.1.None? && r.0 == Empty
    ensures Remaining(s) != [] ==> r.1 == Some(Remaining(s)[0]) && Remaining(r.0) == Remaining(s)[1..]
  {
    match s
    case Empty => (Empty, None)
    case Right(r) => (Empty, Some(r))
    case Both(l, r) => (Right(r), Some(l))
  }

  /** `Iter`: the state is overwritten by every call of `next`. */
  class Iter {
    var state: IterState

    constructor(s: IterState)
      ensures state == s
    {
      state := s;
    }

    /**
     * `Iter::next`: yields the next argument and moves on; once empty it
     * stays empty and yields nothing (the iterator is fused).
     */
    method Next() returns (r: Option<Term>)
      modifies this
      ensures (state, r) == Step(old(state))
      ensures old(Remaining(state)) == [] ==> r.None? && state == Empty
      ensures old(Remaining(state)) != [] ==>
        r == Some(old(Remaining(state))[0]) && Remaining(state) == old(Remaining(state))[1..]
    {
      match state
      case Empty =>
        r := None;
      case Right(right) =>
        state := Empty;
        r := Some(right);
      case Both(left, right) =>
        state := Right(right);
        r := Some(left);
    }
  }

  /** Three steps from `iter()` on `Mul`: the left argument, the right one, then nothing, for good. */
  lemma {:induction false} MulYieldsBoth(left: Term, right: Term)
    ensures var s0 := IterOf(Mul(left, right));
      var (s1, x1) := Step(s0);
      var (s2, x2) := Step(s1);
      var (s3, x3) := Step(s2);
      x1 == Some(left) && x2 == Some(right) && x3.None? && s3 == Empty && Step(s3) == (Empty, None)
  {
  }

  /** From `iter()` on `One` nothing is yielded. */
  lemma OneYieldsNothing()
    ensures Step(IterOf(One)) == (Empty, None)
  {
  }

  /** `opeq`: the same operator, whatever the arguments. */
  predicate OpEq(a: Prod, b: Prod)
  {
    match (a, b)
    case (One, One) => true
    case (Mul(_, _), Mul(_, _)) => true
    case _ => false
  }

  /**
   * `opeq` holds exactly for operators of the same arity; it is reflexive,
   * symmetric and transitive.
   */
  lemma OpEqProperties(a: Prod, b: Prod, c: Prod)
    ensures OpEq(a, b) <==> ProdArity(a) == ProdArity(b)
    ensures OpEq(a, b) <==> |Args(a)| == |Args(b)|
    ensures OpEq(a, a)
    ensures OpEq(a, b) ==> OpEq(b, a)
    ensures OpEq(a, b) && OpEq(b, c) ==> OpEq(a, c)
  {
  }
}
