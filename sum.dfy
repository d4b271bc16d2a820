/**
 * The `Sum` signature of src/sum.rs: a nullary `Zero`, a unary `Negate` and a
 * binary `Add`, with the word constructors `zero`, `negate` and `+`, and the
 * concrete outcomes of equality and of the ordering on small words.
 */
module Sums {
  import opened Basics
  import opened Words
  import opened WordOrder

  datatype Sum = Zero | Negate | Add

  function SumArity(o: Sum): nat
  {
    match o
    case Zero => 0
    case Negate => 1
    case Add => 2
  }

  function SumWeight(o: Sum): nat
  {
    match o
    case Zero => 1
    case Negate => 0
    case Add => 1
  }

  /**
   * `op_index` is required by the operator interface but not given for `Sum`;
   * this model takes the declaration order `Zero < Negate < Add`. None of the
   * results below depends on the choice.
   */
  function SumIndex(o: Sum): nat
  {
    match o
    case Zero => 0
    case Negate => 1
    case Add => 2
  }

  /** `impl Operator for Sum` with `min_weight` 1. */
  function SumSig(): Signature<Sum>
  {
    Signature(1, SumArity, SumWeight, SumIndex)
  }

  type SumWord = Word<string, Sum>

  /**
   * The weights are admissible for a Knuth-Bendix ordering: variables weigh
   * something, no constant is lighter than a variable, and `Negate` is the
   * only operator of weight 0.
   */
  lemma SumWeightsAdmissible()
    ensures SumSig().minWeight > 0
    ensures forall o :: SumArity(o) == 0 ==> SumWeight(o) >= SumSig().minWeight
    ensures forall o :: SumWeight(o) == 0 <==> o == Negate
    ensures SumArity(Negate) == 1
  {
  }

  function V(x: string): SumWord
  {
    VarWord(x)
  }

  /** `zero()`: the constant, a complete term with no subwords, of weight 1. */
  function ZeroWord(): (r: SumWord)
    ensures |r| == 1 && r[0] == Op(Zero)
    ensures Weight(SumSig(), r) == 1
  {
    OpWord(Zero, [])
  }

  /** `negate(w)`: `Negate` weighs nothing, so the result is as heavy as `w`. */
  function Negation(w: SumWord): (r: SumWord)
    ensures Weight(SumSig(), r) == Weight(SumSig(), w)
    ensures forall x :: Count(r, x) == Count(w, x)
    ensures WellFormed(SumSig(), w) ==> WellFormed(SumSig(), r)
  {
    var r := OpWord(Negate, [w]);
    assert Weight(SumSig(), r) == Weight(SumSig(), w) by {
      OpWeight(SumSig(), Negate, [w]);
    }
    assert forall x :: Count(r, x) == Count(w, x) by {
      forall x ensures Count(r, x) == Count(w, x) {
        OpCount(Negate, [w], x);
      }
    }
    assert WellFormed(SumSig(), w) ==> WellFormed(SumSig(), r) by {
      if WellFormed(SumSig(), w) {
        OpWellFormed(SumSig(), Negate, [w]);
      }
    }
    r
  }

  /** `a + b`: one more unit of weight than its two summands together. */
  function Plus(a: SumWord, b: SumWord): (r: SumWord)
    ensures Weight(SumSig(), r) == 1 + Weight(SumSig(), a) + Weight(SumSig(), b)
    ensures forall x :: Count(r, x) == Count(a, x) + Count(b, x)
    ensures WellFormed(SumSig(), a) && WellFormed(SumSig(), b) ==> WellFormed(SumSig(), r)
  {
    var r := OpWord(Add, [a, b]);
    assert Weight(SumSig(), r) == 1 + Weight(SumSig(), a) + Weight(SumSig(), b) by {
      OpWeight(SumSig(), Add, [a, b]);
      assert [a, b][1..] == [b] && [b][1..] == [];
      assert SumWeights(SumSig(), [b]) == Weight(SumSig(), b);
    }
    assert forall x :: Count(r, x) == Count(a, x) + Count(b, x) by {
      forall x ensures Count(r, x) == Count(a, x) + Count(b, x) {
        OpCount(Add, [a, b], x);
        assert [a, b][1..] == [b] && [b][1..] == [];
        assert SumCounts([b], x) == Count(b, x);
      }
    }
    assert WellFormed(SumSig(), a) && WellFormed(SumSig(), b) ==> WellFormed(SumSig(), r) by {
      if WellFormed(SumSig(), a) && WellFormed(SumSig(), b) {
        OpWellFormed(SumSig(), Add, [a, b]);
      }
    }
    r
  }

  /** The constructors build complete terms from complete terms, and the subwords give the arguments back. */
  lemma ConstructorsAreTerms(a: SumWord, b: SumWord)
    requires IsTerm(SumSig(), a) && IsTerm(SumSig(), b)
    ensures IsTerm(SumSig(), ZeroWord()) && Subwords(SumSig(), ZeroWord()) == []
    ensures IsTerm(SumSig(), Negation(a)) && Subwords(SumSig(), Negation(a)) == [a]
    ensures IsTerm(SumSig(), Plus(a, b)) && Subwords(SumSig(), Plus(a, b)) == [a, b]
  {
    OpIsTerm<string, Sum>(SumSig(), Zero, []);
    OpSubwords<string, Sum>(SumSig(), Zero, []);
    OpIsTerm(SumSig(), Negate, [a]);
    OpSubwords(SumSig(), Negate, [a]);
    OpIsTerm(SumSig(), Add, [a, b]);
    OpSubwords(SumSig(), Add, [a, b]);
  }

  /** The `well_formed` test: `a` and `a + 0` pass the check. */
  lemma WellFormedExamples()
    ensures WellFormed(SumSig(), V("a"))
    ensures WellFormed(SumSig(), Plus(V("a"), ZeroWord()))
    ensures IsTerm(SumSig(), Plus(V("a"), ZeroWord()))
  {
    VarWellFormed<string, Sum>(SumSig(), "a");
    ConstructorsAreTerms(V("a"), V("a"));
    ConstructorsAreTerms(V("a"), ZeroWord());
  }

  /** The `subwords` test: `(((a + b) + c) + d) + 0` splits into its two summands. */
  lemma SubwordsExample()
    ensures var abcd := Plus(Plus(Plus(V("a"), V("b")), V("c")), V("d"));
      Subwords(SumSig(), Plus(abcd, ZeroWord())) == [abcd, ZeroWord()]
  {
    var a, b, c, d := V("a"), V("b"), V("c"), V("d");
    VarWellFormed<string, Sum>(SumSig(), "a");
    VarWellFormed<string, Sum>(SumSig(), "b");
    VarWellFormed<string, Sum>(SumSig(), "c");
    VarWellFormed<string, Sum>(SumSig(), "d");
    ConstructorsAreTerms(a, b);
    ConstructorsAreTerms(Plus(a, b), c);
    ConstructorsAreTerms(Plus(Plus(a, b), c), d);
    ConstructorsAreTerms(Plus(Plus(Plus(a, b), c), d), ZeroWord());
  }

  /** A variable word counts its own variable once and nothing else. */
  lemma VarCounts(x: string)
    ensures forall y :: Count(V(x), y) == if x == y then 1 else 0
    ensures Weight(SumSig(), V(x)) == 1
  {
  }

  /** `0` holds no variable. */
  lemma ZeroCounts()
    ensures forall y :: Count(ZeroWord(), y) == 0
  {
  }

  /**
   * The `partial_cmp` test, first lines: `0` and `a` equal themselves, have
   * no relation to each other either way, and two variables have no relation.
   */
  lemma PartialCmpLeaves()
    ensures var o, a := ZeroWord(), V("a");
      Compare(SumSig(), o, o) == Some(Equal) &&
      Compare(SumSig(), o, a) == None && Compare(SumSig(), a, o) == None &&
      Compare(SumSig(), a, a) == Some(Equal) &&
      Compare(SumSig(), a, V("b")) == None
  {
    var o, a := ZeroWord(), V("a");
    VarCounts("a");
    ZeroCounts();
    CompareRefl(SumSig(), o);
    CompareRefl(SumSig(), a);
    CountMismatch(SumSig(), o, a, "a");
    CountMismatch(SumSig(), a, o, "a");
    DistinctVars<string, Sum>(SumSig(), "a", "b");
  }

  /**
   * The `partial_cmp` test, sums: `0 < a + b`, `a + b < (a + b) + c`, and
   * `a + a` against `a + b` has no relation.
   */
  lemma PartialCmpSums()
    ensures var ab := Plus(V("a"), V("b"));
      Compare(SumSig(), ZeroWord(), ab) == Some(Less) &&
      Compare(SumSig(), ab, Plus(ab, V("c"))) == Some(Less) &&
      Compare(SumSig(), Plus(V("a"), V("a")), ab) == None
  {
    var a, b, c := V("a"), V("b"), V("c");
    VarCounts("a");
    VarCounts("b");
    VarCounts("c");
    ZeroCounts();
    var ab := Plus(a, b);
    LighterIsLess(SumSig(), ZeroWord(), ab);
    LighterIsLess(SumSig(), ab, Plus(ab, c));
    CountMismatch(SumSig(), Plus(a, a), ab, "a");
  }

  /**
   * The last two lines of the `partial_cmp` test expect `-c > c` and
   * `-c < --c`. The comparison as written gives no relation for either: at
   * equal weight a variable against an operator has no relation, and `-c`
   * against `--c` reduces to `c` against `-c`.
   */
  lemma NegateExamples()
    ensures var c := V("c");
      Compare(SumSig(), Negation(c), c) == None &&
      Compare(SumSig(), Negation(c), Negation(Negation(c))) == None
  {
    var c := V("c");
    var nc := Negation(c);
    var nnc := Negation(nc);
    VarCounts("c");
    VarWellFormed<string, Sum>(SumSig(), "c");
    ConstructorsAreTerms(c, c);
    ConstructorsAreTerms(nc, nc);
    assert CountsHold(Same, nc, c) && CountsHold(Same, nc, nnc);
    assert Compare(SumSig(), c, nc) == None;
    assert CompareSeq(SumSig(), [c], [nc]) == None;
  }

  /**
   * The `eq` test: `a + b != c + d`, `a + a != b + b`, `a + a != a + b` and
   * `a + b == a + b`; word equality does not identify words that differ
   * only by a renaming of variables.
   */
  lemma EqExamples()
    ensures var a, b, c, d := V("a"), V("b"), V("c"), V("d");
      !WordEq(SumSig(), Plus(a, b), Plus(c, d)) &&
      !WordEq(SumSig(), Plus(a, a), Plus(b, b)) &&
      !WordEq(SumSig(), Plus(a, a), Plus(a, b)) &&
      WordEq(SumSig(), Plus(a, b), Plus(a, b))
  {
    var a, b, c, d := V("a"), V("b"), V("c"), V("d");
    VarCounts("a");
    VarCounts("b");
    VarCounts("c");
    VarCounts("d");
    var ab, cd, aa, bb := Plus(a, b), Plus(c, d), Plus(a, a), Plus(b, b);
    CountMismatch(SumSig(), ab, cd, "a");
    CountMismatch(SumSig(), aa, bb, "a");
    CountMismatch(SumSig(), aa, ab, "a");
    CompareRefl(SumSig(), ab);
  }

  /**
   * `is_well_formed` only checks the total arity balance. `a` followed by a
   * dangling `Negate` passes it, is not a term, and still compares Equal to
   * the different word `a`; `a Add b` (an `Add` between its operands) passes
   * as well. The prefix check `CheckTerm` rejects both.
   */
  lemma BalanceOnlyAccepts()
    ensures var w: SumWord := [Var("a"), Op(Negate)];
      WellFormed(SumSig(), w) && !IsTerm(SumSig(), w) &&
      WordEq(SumSig(), w, V("a")) && w != V("a")
    ensures var w: SumWord := [Var("a"), Op(Add), Var("b")];
      WellFormed(SumSig(), w) && !IsTerm(SumSig(), w)
  {
    var w: SumWord := [Var("a"), Op(Negate)];
    assert Bal(SumSig(), w, 0, 1) == -1;
    assert Bal(SumSig(), w, 0, 2) == -1;
    assert Count(w, "a") == 1 && Vars(w) == {"a"};
    VarCounts("a");
    assert Vars(V("a")) == {"a"};
    var u: SumWord := [Var("a"), Op(Add), Var("b")];
    assert Bal(SumSig(), u, 0, 1) == -1;
    assert Bal(SumSig(), u, 0, 3) == -1;
  }
}
