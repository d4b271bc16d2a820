/**
 * The Knuth-Bendix comparison of words (`PartialOrd` and `PartialEq` for
 * `Word` in src/word.rs).
 *
 * Words are compared by weight and per-variable occurrence counts; at equal
 * weight and counts, by the leading symbols and then lexicographically through
 * the subwords. Word equality is "the comparison says Equal".
 */
module WordOrder {
  import opened Basics
  import opened Words

  /** Which per-variable comparison one of the three loops of `partial_cmp` checks. */
  datatype CountTest = AtLeast | Same | AtMost

  function Holds(test: CountTest, x: nat, y: nat): bool
  {
    match test
    case AtLeast => x >= y
    case Same => x == y
    case AtMost => x <= y
  }

  /** The check holds for every variable of either word. */
  predicate CountsHold<V(==), O>(test: CountTest, a: Word<V, O>, b: Word<V, O>)
  {
    forall v :: v in Vars(a) + Vars(b) ==> Holds(test, Count(a, v), Count(b, v))
  }

  /**
   * `partial_cmp`: heavier with at least as many occurrences of every variable
   * is Greater; lighter with at most as many is Less; at equal weight the counts
   * must agree, and then two variables are Equal when they are the same
   * variable, two operators compare by `op_index` and, on a tie, through their
   * subwords; everything else has no relation.
   */
  function Compare<V(==), O>(sig: Signature<O>, a: Word<V, O>, b: Word<V, O>): Option<Ordering>
    decreases |a| + |b|, 2, 0
  {
    var sw := Weight(sig, a);
    var ow := Weight(sig, b);
    if sw > ow then
      if CountsHold(AtLeast, a, b) then Some(Greater) else None
    else if sw == ow then
      if !CountsHold(Same, a, b) then None else CompareLeading(sig, a, b)
    else
      if CountsHold(AtMost, a, b) then Some(Less) else None
  }

  /**
   * The part of `partial_cmp` after the weights and counts have tied: empty
   * words have no relation, two variables are Equal when they are the same
   * variable, two operators compare by `op_index` and then by their subwords.
   */
  function CompareLeading<V(==), O>(sig: Signature<O>, a: Word<V, O>, b: Word<V, O>): Option<Ordering>
    decreases |a| + |b|, 1, 0
  {
    if |a| == 0 || |b| == 0 then None
    else
      match (a[0], b[0])
      case (Var(x), Var(y)) => if x == y then Some(Equal) else None
      case (Op(f), Op(g)) =>
        if sig.opIndex(f) > sig.opIndex(g) then Some(Greater)
        else if sig.opIndex(f) == sig.opIndex(g) then CompareSeq(sig, Subwords(sig, a), Subwords(sig, b))
        else Some(Less)
      case _ => None
  }

  /**
   * `Iterator::partial_cmp` on two subword iterators: the first pair that is
   * not Equal decides; if one side runs out first it is the Less one.
   */
  function CompareSeq<V(==), O>(sig: Signature<O>, xs: seq<Word<V, O>>, ys: seq<Word<V, O>>): Option<Ordering>
    decreases |Concat(xs)| + |Concat(ys)|, 3, |xs|
  {
    if |xs| == 0 then (if |ys| == 0 then Some(Equal) else Some(Less))
    else if |ys| == 0 then Some(Greater)
    else
      var c := Compare(sig, xs[0], ys[0]);
      if c == Some(Equal) then CompareSeq(sig, xs[1..], ys[1..]) else c
  }

  /** `PartialEq for Word`: equality is the comparison answering Equal. */
  predicate WordEq<V(==), O>(sig: Signature<O>, a: Word<V, O>, b: Word<V, O>)
  {
    Compare(sig, a, b) == Some(Equal)
  }

  /** One of the `for v in vars.iter()` loops: `false` at the first variable that fails the check. */
  method CheckCounts<V(==), O>(test: CountTest, a: Word<V, O>, b: Word<V, O>, vars: set<V>) returns (ok: bool)
    requires vars == Vars(a) + Vars(b)
    ensures ok <==> CountsHold(test, a, b)
  {
    var rest := vars;
    while rest != {}
      invariant rest <= vars
      invariant forall v :: v in vars - rest ==> Holds(test, Count(a, v), Count(b, v))
      decreases rest
    {
      var v :| v in rest;
      if !Holds(test, Count(a, v), Count(b, v)) {
        return false;
      }
      rest := rest - {v};
    }
    return true;
  }

  /**
   * `partial_cmp` as the code runs it: the weight and count loops, then the
   * leading symbols, then two `Subwords` cursors compared pair by pair, with a
   * recursive comparison of each pair.
   */
  method PartialCmp<V(==), O>(sig: Signature<O>, a: Word<V, O>, b: Word<V, O>) returns (r: Option<Ordering>)
    ensures r == Compare(sig, a, b)
    decreases |a| + |b|, 1
  {
    var sw := Weight(sig, a);
    var ow := Weight(sig, b);
    var vars := Vars(a) + Vars(b);
    if sw > ow {
      var ok := CheckCounts(AtLeast, a, b, vars);
      return if ok then Some(Greater) else None;
    } else if sw == ow {
      var ok := CheckCounts(Same, a, b, vars);
      if !ok {
        return None;
      }
      if |a| == 0 || |b| == 0 {
        return None;
      }
      match (a[0], b[0])
      case (Var(x), Var(y)) =>
        return if x == y then Some(Equal) else None;
      case (Op(f), Op(g)) =>
        if sig.opIndex(f) > sig.opIndex(g) {
          return Some(Greater);
        } else if sig.opIndex(f) < sig.opIndex(g) {
          return Some(Less);
        }
        r := CompareSubwords(sig, a, b);
      case _ =>
        return None;
    } else {
      var ok := CheckCounts(AtMost, a, b, vars);
      return if ok then Some(Less) else None;
    }
  }

  /**
   * `Iterator::partial_cmp` on the subword iterators of `a` and `b`: compare
   * pair by pair, stop at the first pair that is not Equal, and when one
   * side runs out first it is the Less one.
   */
  method CompareSubwords<V(==), O>(sig: Signature<O>, a: Word<V, O>, b: Word<V, O>) returns (r: Option<Ordering>)
    ensures r == CompareSeq(sig, Subwords(sig, a), Subwords(sig, b))
    decreases |a| + |b|, 0
  {
    var ia := new SubwordIter(sig, a);
    var ib := new SubwordIter(sig, b);
    while true
      invariant ia != ib && ia.sig == sig && ia.syms == a && ib.sig == sig && ib.syms == b
      invariant CompareSeq(sig, ia.Pending(), ib.Pending()) == CompareSeq(sig, Subwords(sig, a), Subwords(sig, b))
      invariant forall x :: x in ia.Pending() ==> |x| < |a|
      invariant forall y :: y in ib.Pending() ==> |y| < |b|
      decreases ia.nargs
    {
      var x := ia.Next();
      if x.None? {
        var y := ib.Next();
        return if y.None? then Some(Equal) else Some(Less);
      }
      var y := ib.Next();
      if y.None? {
        return Some(Greater);
      }
      var c := PartialCmp(sig, x.value, y.value);
      if c != Some(Equal) {
        return c;
      }
    }
  }

  // ---------------------------------------------------------------------
  // Properties of the comparison
  // ---------------------------------------------------------------------

  /** The per-variable checks seen from the other side. */
  lemma CountsHoldFlip<V, O>(a: Word<V, O>, b: Word<V, O>)
    ensures CountsHold(AtLeast, a, b) <==> CountsHold(AtMost, b, a)
    ensures CountsHold(Same, a, b) <==> CountsHold(Same, b, a)
  {
    assert Vars(a) + Vars(b) == Vars(b) + Vars(a);
  }

  /**
   * Duality: comparing the other way round gives the reversed answer, and
   * "no relation" in one direction is "no relation" in the other.
   */
  lemma {:induction false} CompareDual<V, O>(sig: Signature<O>, a: Word<V, O>, b: Word<V, O>)
    ensures Compare(sig, b, a) == Flip(Compare(sig, a, b))
    decreases |a| + |b|, 1, 0
  {
    CountsHoldFlip(a, b);
    if Weight(sig, a) == Weight(sig, b) && CountsHold(Same, a, b) && |a| > 0 && |b| > 0
      && a[0].Op? && b[0].Op? && sig.opIndex(a[0].o) == sig.opIndex(b[0].o)
    {
      CompareSeqDual(sig, Subwords(sig, a), Subwords(sig, b));
    }
  }

  /** Duality of the lexicographic comparison of subwords. */
  lemma {:induction false} CompareSeqDual<V, O>(sig: Signature<O>, xs: seq<Word<V, O>>, ys: seq<Word<V, O>>)
    ensures CompareSeq(sig, ys, xs) == Flip(CompareSeq(sig, xs, ys))
    decreases |Concat(xs)| + |Concat(ys)|, 2, |xs|
  {
    if |xs| > 0 && |ys| > 0 {
      CompareDual(sig, xs[0], ys[0]);
      if Compare(sig, xs[0], ys[0]) == Some(Equal) {
        CompareSeqDual(sig, xs[1..], ys[1..]);
      }
    }
  }

  /** Every non-empty word compares Equal with itself; the empty word has no relation to itself. */
  lemma {:induction false} CompareRefl<V, O>(sig: Signature<O>, a: Word<V, O>)
    ensures Compare(sig, a, a) == if |a| == 0 then None else Some(Equal)
    decreases |a|, 1, 0
  {
    if |a| > 0 && a[0].Op? {
      CompareSeqRefl(sig, Subwords(sig, a));
    }
  }

  lemma {:induction false} CompareSeqRefl<V, O>(sig: Signature<O>, xs: seq<Word<V, O>>)
    requires forall x :: x in xs ==> |x| > 0
    ensures CompareSeq(sig, xs, xs) == Some(Equal)
    decreases |Concat(xs)|, 2, |xs|
  {
    if xs != [] {
      assert xs[0] in xs;
      CompareRefl(sig, xs[0]);
      forall x | x in xs[1..] ensures |x| > 0 {
        assert x in xs;
      }
      CompareSeqRefl(sig, xs[1..]);
    }
  }

  /** No variable occurs in a word that does not count it. */
  lemma CountsEverywhere<V, O>(test: CountTest, a: Word<V, O>, b: Word<V, O>)
    requires CountsHold(test, a, b)
    ensures forall v :: Holds(test, Count(a, v), Count(b, v))
  {
    forall v ensures Holds(test, Count(a, v), Count(b, v)) {
      VarsCount(a, v);
      VarsCount(b, v);
    }
  }

  /**
   * Greater only ever relates a word to one that is no heavier and has no
   * more occurrences of any variable.
   */
  lemma GreaterDominates<V, O>(sig: Signature<O>, a: Word<V, O>, b: Word<V, O>)
    requires Compare(sig, a, b) == Some(Greater)
    ensures Weight(sig, a) >= Weight(sig, b)
    ensures forall v :: Count(a, v) >= Count(b, v)
  {
    if Weight(sig, a) > Weight(sig, b) {
      CountsEverywhere(AtLeast, a, b);
    } else {
      CountsEverywhere(Same, a, b);
    }
  }

  /** Less is the mirror image: no lighter, and at least as many occurrences of every variable. */
  lemma LessDominated<V, O>(sig: Signature<O>, a: Word<V, O>, b: Word<V, O>)
    requires Compare(sig, a, b) == Some(Less)
    ensures Weight(sig, a) <= Weight(sig, b)
    ensures forall v :: Count(a, v) <= Count(b, v)
  {
    CompareDual(sig, a, b);
    GreaterDominates(sig, b, a);
  }

  /** Equal words have the same weight and the same number of occurrences of every variable. */
  lemma EqualBalanced<V, O>(sig: Signature<O>, a: Word<V, O>, b: Word<V, O>)
    requires Compare(sig, a, b) == Some(Equal)
    ensures Weight(sig, a) == Weight(sig, b)
    ensures forall v :: Count(a, v) == Count(b, v)
  {
    CountsEverywhere(Same, a, b);
  }

  /** At equal weight and counts, a variable and an operator have no relation (no special case for a weight-0 unary operator). */
  lemma VarAgainstOp<V, O>(sig: Signature<O>, a: Word<V, O>, b: Word<V, O>)
    requires |a| > 0 && |b| > 0 && a[0].Var? && b[0].Op?
    ensures Compare(sig, a, b) == None || Weight(sig, a) != Weight(sig, b)
    ensures Compare(sig, b, a) == None || Weight(sig, a) != Weight(sig, b)
  {
  }

  /**
   * Two words led by variables, at equal weight and counts: Equal when the
   * leading variables are the same, no relation otherwise. A word that only
   * balances, such as `[x, y, Add]` against `[y, x, Add]`, reaches this case.
   */
  lemma LeadingVars<V, O>(sig: Signature<O>, a: Word<V, O>, b: Word<V, O>)
    requires |a| > 0 && |b| > 0 && a[0].Var? && b[0].Var?
    ensures Weight(sig, a) == Weight(sig, b) && CountsHold(Same, a, b) ==>
      Compare(sig, a, b) == if a[0].v == b[0].v then Some(Equal) else None
    ensures a[0].v != b[0].v ==> Compare(sig, a, b) == None || Weight(sig, a) != Weight(sig, b)
    ensures a[0].v != b[0].v ==> Compare(sig, b, a) == None || Weight(sig, a) != Weight(sig, b)
  {
  }

  /** Two different variables have no relation. */
  lemma DistinctVars<V, O>(sig: Signature<O>, x: V, y: V)
    requires x != y
    ensures Compare(sig, VarWord<V, O>(x), VarWord<V, O>(y)) == None
  {
    var a, b := VarWord<V, O>(x), VarWord<V, O>(y);
    assert a[1..] == [] && b[1..] == [];
    CountMismatch(sig, a, b, x);
  }

  /** At least: Equal or Greater. */
  predicate AtLeastAsGreat(c: Option<Ordering>)
  {
    c == Some(Equal) || c == Some(Greater)
  }

  /** At least as heavy, with at least as many occurrences of every variable, whenever Equal or Greater. */
  lemma AtLeastDominates<V, O>(sig: Signature<O>, a: Word<V, O>, b: Word<V, O>)
    requires AtLeastAsGreat(Compare(sig, a, b))
    ensures Weight(sig, a) >= Weight(sig, b)
    ensures forall v :: Count(a, v) >= Count(b, v)
    ensures Weight(sig, a) == Weight(sig, b) ==>
      (forall v :: Count(a, v) == Count(b, v)) && Compare(sig, a, b) == CompareLeading(sig, a, b)
  {
    if Compare(sig, a, b) == Some(Greater) {
      GreaterDominates(sig, a, b);
    } else {
      EqualBalanced(sig, a, b);
    }
    if Weight(sig, a) == Weight(sig, b) {
      CountsEverywhere(Same, a, b);
    }
  }

  /** Heavier and dominating in every variable is Greater. */
  lemma HeavierIsGreater<V, O>(sig: Signature<O>, a: Word<V, O>, c: Word<V, O>)
    requires Weight(sig, a) > Weight(sig, c)
    requires forall v :: Count(a, v) >= Count(c, v)
    ensures Compare(sig, a, c) == Some(Greater)
  {
    assert CountsHold(AtLeast, a, c) by {
      forall v | v in Vars(a) + Vars(c) ensures Holds(AtLeast, Count(a, v), Count(c, v)) {
      }
    }
  }

  /** Lighter and dominated in every variable is Less. */
  lemma LighterIsLess<V, O>(sig: Signature<O>, a: Word<V, O>, c: Word<V, O>)
    requires Weight(sig, a) < Weight(sig, c)
    requires forall v :: Count(a, v) <= Count(c, v)
    ensures Compare(sig, a, c) == Some(Less)
  {
    assert CountsHold(AtMost, a, c) by {
      forall v | v in Vars(a) + Vars(c) ensures Holds(AtMost, Count(a, v), Count(c, v)) {
      }
    }
  }

  /** Equally heavy words that count some variable differently have no relation. */
  lemma CountMismatch<V, O>(sig: Signature<O>, a: Word<V, O>, c: Word<V, O>, x: V)
    requires Weight(sig, a) == Weight(sig, c)
    requires Count(a, x) != Count(c, x)
    ensures Compare(sig, a, c) == None
  {
    VarsCount(a, x);
    VarsCount(c, x);
  }

  /** Equally heavy with the same counts everywhere goes on to the leading symbols. */
  lemma LevelIsLeading<V, O>(sig: Signature<O>, a: Word<V, O>, c: Word<V, O>)
    requires Weight(sig, a) == Weight(sig, c)
    requires forall v :: Count(a, v) == Count(c, v)
    ensures Compare(sig, a, c) == CompareLeading(sig, a, c)
  {
    forall v | v in Vars(a) + Vars(c) ensures Holds(Same, Count(a, v), Count(c, v)) {
      assert Count(a, v) == Count(c, v);
    }
  }

  /**
   * Transitivity: two steps of Equal-or-Greater make one, and the result is
   * Equal exactly when both steps are.
   */
  lemma {:induction false} CompareTrans<V, O>(sig: Signature<O>, a: Word<V, O>, b: Word<V, O>, c: Word<V, O>)
    requires AtLeastAsGreat(Compare(sig, a, b)) && AtLeastAsGreat(Compare(sig, b, c))
    ensures Compare(sig, a, c) ==
      if Compare(sig, a, b) == Some(Equal) && Compare(sig, b, c) == Some(Equal) then Some(Equal) else Some(Greater)
    decreases |a| + |b| + |c|, 1, 0
  {
    AtLeastDominates(sig, a, b);
    AtLeastDominates(sig, b, c);
    if Weight(sig, a) > Weight(sig, c) {
      HeavierIsGreater(sig, a, c);
    } else {
      LevelIsLeading(sig, a, c);
      CompareLeadingTrans(sig, a, b, c);
    }
  }

  lemma {:induction false} CompareLeadingTrans<V, O>(sig: Signature<O>, a: Word<V, O>, b: Word<V, O>, c: Word<V, O>)
    requires AtLeastAsGreat(CompareLeading(sig, a, b)) && AtLeastAsGreat(CompareLeading(sig, b, c))
    ensures CompareLeading(sig, a, c) ==
      if CompareLeading(sig, a, b) == Some(Equal) && CompareLeading(sig, b, c) == Some(Equal) then Some(Equal) else Some(Greater)
    decreases |a| + |b| + |c|, 0, 0
  {
    if a[0].Op? && sig.opIndex(a[0].o) == sig.opIndex(b[0].o) == sig.opIndex(c[0].o) {
      CompareSeqTrans(sig, Subwords(sig, a), Subwords(sig, b), Subwords(sig, c));
    }
  }

  lemma {:induction false} CompareSeqTrans<V, O>(sig: Signature<O>, xs: seq<Word<V, O>>, ys: seq<Word<V, O>>, zs: seq<Word<V, O>>)
    requires AtLeastAsGreat(CompareSeq(sig, xs, ys)) && AtLeastAsGreat(CompareSeq(sig, ys, zs))
    ensures CompareSeq(sig, xs, zs) ==
      if CompareSeq(sig, xs, ys) == Some(Equal) && CompareSeq(sig, ys, zs) == Some(Equal) then Some(Equal) else Some(Greater)
    decreases |Concat(xs)| + |Concat(ys)| + |Concat(zs)|, 2, |xs|
  {
    if |xs| > 0 && |ys| > 0 && |zs| > 0 {
      CompareTrans(sig, xs[0], ys[0], zs[0]);
      if Compare(sig, xs[0], ys[0]) == Some(Equal) && Compare(sig, ys[0], zs[0]) == Some(Equal) {
        CompareSeqTrans(sig, xs[1..], ys[1..], zs[1..]);
      }
    }
  }

  /**
   * The strict part is a strict order: irreflexive, asymmetric and transitive,
   * as a reduction ordering must be.
   */
  lemma GreaterIsStrictOrder<V, O>(sig: Signature<O>, a: Word<V, O>, b: Word<V, O>, c: Word<V, O>)
    ensures Compare(sig, a, a) != Some(Greater)
    ensures Compare(sig, a, b) == Some(Greater) ==> Compare(sig, b, a) == Some(Less)
    ensures Compare(sig, a, b) == Some(Greater) && Compare(sig, b, c) == Some(Greater) ==> Compare(sig, a, c) == Some(Greater)
  {
    CompareRefl(sig, a);
    CompareDual(sig, a, b);
    if Compare(sig, a, b) == Some(Greater) && Compare(sig, b, c) == Some(Greater) {
      CompareTrans(sig, a, b, c);
    }
  }

  /** Word equality is reflexive on non-empty words, symmetric and transitive. */
  lemma WordEqEquivalence<V, O>(sig: Signature<O>, a: Word<V, O>, b: Word<V, O>, c: Word<V, O>)
    ensures WordEq(sig, a, a) <==> |a| > 0
    ensures WordEq(sig, a, b) <==> WordEq(sig, b, a)
    ensures WordEq(sig, a, b) && WordEq(sig, b, c) ==> WordEq(sig, a, c)
  {
    CompareRefl(sig, a);
    CompareDual(sig, a, b);
    if WordEq(sig, a, b) && WordEq(sig, b, c) {
      CompareTrans(sig, a, b, c);
    }
  }

  /** Distinct operators have distinct ordering indices. */
  ghost predicate InjectiveIndex<O(!new)>(sig: Signature<O>)
  {
    forall f, g :: sig.opIndex(f) == sig.opIndex(g) ==> f == g
  }

  /**
   * With an injective `op_index`, two complete terms compare Equal exactly
   * when they are the same symbol sequence.
   */
  lemma {:induction false} EqualIffIdentical<V, O(!new)>(sig: Signature<O>, a: Word<V, O>, b: Word<V, O>)
    requires InjectiveIndex(sig) && IsTerm(sig, a) && IsTerm(sig, b)
    ensures WordEq(sig, a, b) <==> a == b
    decreases |a| + |b|, 1, 0
  {
    TermWellFormed(sig, a);
    TermWellFormed(sig, b);
    CompareRefl(sig, a);
    if WordEq(sig, a, b) {
      assert CompareLeading(sig, a, b) == Some(Equal);
      if a[0].Var? {
        TermVar(sig, a);
        TermVar(sig, b);
      } else {
        TermSubwords(sig, a);
        TermSubwords(sig, b);
        CompareSeqIdentical(sig, Subwords(sig, a), Subwords(sig, b));
      }
    }
  }

  lemma {:induction false} CompareSeqIdentical<V, O(!new)>(sig: Signature<O>, xs: seq<Word<V, O>>, ys: seq<Word<V, O>>)
    requires InjectiveIndex(sig)
    requires forall x :: x in xs ==> IsTerm(sig, x)
    requires forall y :: y in ys ==> IsTerm(sig, y)
    requires CompareSeq(sig, xs, ys) == Some(Equal)
    ensures xs == ys
    decreases |Concat(xs)| + |Concat(ys)|, 2, |xs|
  {
    if xs != [] {
      assert xs[0] in xs && ys[0] in ys;
      EqualIffIdentical(sig, xs[0], ys[0]);
      forall x | x in xs[1..] ensures IsTerm(sig, x) {
        assert x in xs;
      }
      forall y | y in ys[1..] ensures IsTerm(sig, y) {
        assert y in ys;
      }
      CompareSeqIdentical(sig, xs[1..], ys[1..]);
      assert xs == [xs[0]] + xs[1..] && ys == [ys[0]] + ys[1..];
    }
  }
}
