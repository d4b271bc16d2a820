/**
 * Prefix-encoded words (src/word.rs).
 *
 * A word is a flat sequence of symbols in Polish notation: an operator symbol
 * is followed directly by the encodings of its arguments, and the arities of
 * the operators alone determine the tree structure.
 */
module Words {
  import opened Basics

  /** A symbol is a variable or an operator instance. */
  datatype Symbol<V, O> = Var(v: V) | Op(o: O)

  /**
   * What an operator family supplies: the weight of every variable
   * (`min_weight`), and per operator its arity, weight and ordering index.
   */
  datatype Signature<-O> = Signature(minWeight: nat, arity: O -> nat, weight: O -> nat, opIndex: O -> nat)

  type Word<V, O> = seq<Symbol<V, O>>

  /** Arity of a symbol; a variable has no arguments. */
  function SymArity<V, O>(sig: Signature<O>, s: Symbol<V, O>): nat
  {
    match s
    case Var(_) => 0
    case Op(o) => sig.arity(o)
  }

  /** Weight of a symbol; every variable weighs `minWeight`. */
  function SymWeight<V, O>(sig: Signature<O>, s: Symbol<V, O>): nat
  {
    match s
    case Var(_) => sig.minWeight
    case Op(o) => sig.weight(o)
  }

  /** The one-symbol word (`Word::from_sym`). */
  function FromSym<V, O>(s: Symbol<V, O>): (w: Word<V, O>)
    ensures |w| == 1 && w[0] == s
  {
    [s]
  }

  /** The word made of one variable (`Word::var`). */
  function VarWord<V, O>(x: V): (w: Word<V, O>)
    ensures |w| == 1 && w[0] == Var(x)
  {
    FromSym(Var(x))
  }

  /** The symbols of all the words, in order. */
  function Concat<V, O>(ws: seq<Word<V, O>>): Word<V, O>
  {
    if ws == [] then [] else ws[0] + Concat(ws[1..])
  }

  /** `Word::op`: the operator symbol followed by the arguments' symbols. There is no arity check. */
  function OpWord<V, O>(o: O, args: seq<Word<V, O>>): Word<V, O>
  {
    [Op(o)] + Concat(args)
  }

  /** Sum of the symbol weights (`Word::weight`). */
  function Weight<V, O>(sig: Signature<O>, w: Word<V, O>): nat
  {
    if w == [] then 0 else SymWeight(sig, w[0]) + Weight(sig, w[1..])
  }

  /** Number of occurrences of variable `x` (`Word::n`). */
  function Count<V(==), O>(w: Word<V, O>, x: V): nat
  {
    if w == [] then 0 else (if w[0].Var? && w[0].v == x then 1 else 0) + Count(w[1..], x)
  }

  /** The variables occurring in the word (`Word::vars`). */
  function Vars<V(==), O>(w: Word<V, O>): set<V>
  {
    if w == [] then {} else (if w[0].Var? then {w[0].v} else {}) + Vars(w[1..])
  }

  /** Sum of the weights of several words. */
  function SumWeights<V, O>(sig: Signature<O>, ws: seq<Word<V, O>>): nat
  {
    if ws == [] then 0 else Weight(sig, ws[0]) + SumWeights(sig, ws[1..])
  }

  /** Sum of the occurrence counts of `x` in several words. */
  function SumCounts<V(==), O>(ws: seq<Word<V, O>>, x: V): nat
  {
    if ws == [] then 0 else Count(ws[0], x) + SumCounts(ws[1..], x)
  }

  /** Union of the variable sets of several words. */
  function UnionVars<V(==), O>(ws: seq<Word<V, O>>): set<V>
  {
    if ws == [] then {} else Vars(ws[0]) + UnionVars(ws[1..])
  }

  // ---------------------------------------------------------------------
  // Weight, occurrence counts and variable sets
  // ---------------------------------------------------------------------

  /** A variable is in `vars` exactly when `n` counts it at least once. */
  lemma {:induction false} VarsCount<V, O>(w: Word<V, O>, x: V)
    ensures x in Vars(w) <==> Count(w, x) > 0
  {
    if w != [] {
      VarsCount(w[1..], x);
    }
  }

  lemma {:induction false} WeightAppend<V, O>(sig: Signature<O>, a: Word<V, O>, b: Word<V, O>)
    ensures Weight(sig, a + b) == Weight(sig, a) + Weight(sig, b)
  {
    if a != [] {
      assert (a + b)[1..] == a[1..] + b;
      WeightAppend(sig, a[1..], b);
    } else {
      assert a + b == b;
    }
  }

  lemma {:induction false} CountAppend<V, O>(a: Word<V, O>, b: Word<V, O>, x: V)
    ensures Count(a + b, x) == Count(a, x) + Count(b, x)
  {
    if a != [] {
      assert (a + b)[1..] == a[1..] + b;
      CountAppend(a[1..], b, x);
    } else {
      assert a + b == b;
    }
  }

  lemma {:induction false} VarsAppend<V, O>(a: Word<V, O>, b: Word<V, O>)
    ensures Vars(a + b) == Vars(a) + Vars(b)
  {
    if a != [] {
      assert (a + b)[1..] == a[1..] + b;
      VarsAppend(a[1..], b);
    } else {
      assert a + b == b;
    }
  }

  lemma {:induction false} ConcatAppend<V, O>(xs: seq<Word<V, O>>, ys: seq<Word<V, O>>)
    ensures Concat(xs + ys) == Concat(xs) + Concat(ys)
  {
    if xs == [] {
      assert xs + ys == ys;
    } else {
      assert (xs + ys)[1..] == xs[1..] + ys;
      ConcatAppend(xs[1..], ys);
    }
  }

  /**
   * The weight of `op(o, args)` is the operator's weight plus the weights of
   * the arguments; a variable weighs `minWeight`.
   */
  lemma {:induction false} OpWeight<V, O>(sig: Signature<O>, o: O, args: seq<Word<V, O>>)
    ensures Weight(sig, OpWord(o, args)) == sig.weight(o) + SumWeights(sig, args)
  {
    ConcatWeight(sig, args);
    WeightAppend(sig, [Op(o)], Concat(args));
  }

  lemma {:induction false} ConcatWeight<V, O>(sig: Signature<O>, ws: seq<Word<V, O>>)
    ensures Weight(sig, Concat(ws)) == SumWeights(sig, ws)
  {
    if ws != [] {
      ConcatWeight(sig, ws[1..]);
      WeightAppend(sig, ws[0], Concat(ws[1..]));
    }
  }

  /** `n(v)` of `op(o, args)` adds up the arguments' counts; the operator symbol counts nothing. */
  lemma {:induction false} OpCount<V, O>(o: O, args: seq<Word<V, O>>, x: V)
    ensures Count(OpWord(o, args), x) == SumCounts(args, x)
  {
    ConcatCount(args, x);
    CountAppend([Op(o)], Concat(args), x);
  }

  lemma {:induction false} ConcatCount<V, O>(ws: seq<Word<V, O>>, x: V)
    ensures Count(Concat(ws), x) == SumCounts(ws, x)
  {
    if ws != [] {
      ConcatCount(ws[1..], x);
      CountAppend(ws[0], Concat(ws[1..]), x);
    }
  }

  /** `vars` of `op(o, args)` is the union of the arguments' variables. */
  lemma {:induction false} OpVars<V, O>(o: O, args: seq<Word<V, O>>)
    ensures Vars(OpWord(o, args)) == UnionVars(args)
  {
    ConcatVars(args);
    VarsAppend([Op(o)], Concat(args));
  }

  lemma {:induction false} ConcatVars<V, O>(ws: seq<Word<V, O>>)
    ensures Vars(Concat(ws)) == UnionVars(ws)
  {
    if ws != [] {
      ConcatVars(ws[1..]);
      VarsAppend(ws[0], Concat(ws[1..]));
    }
  }

  // ---------------------------------------------------------------------
  // Construction
  // ---------------------------------------------------------------------

  /** `Word::op`: start from the operator symbol and extend it with each argument in turn. */
  method MakeOp<V, O>(o: O, args: seq<Word<V, O>>) returns (w: Word<V, O>)
    ensures w == OpWord(o, args)
    ensures |w| == 1 + |Concat(args)| && w[0] == Op(o) && w[1..] == Concat(args)
  {
    w := FromSym(Op(o));
    for k := 0 to |args|
      invariant w == [Op(o)] + Concat(args[..k])
    {
      ConcatAppend(args[..k], [args[k]]);
      assert args[..k + 1] == args[..k] + [args[k]];
      assert Concat([args[k]]) == args[k] + Concat([]);
      w := w + args[k];
    }
    assert args[..|args|] == args;
  }

  // ---------------------------------------------------------------------
  // Arity balance and well-formedness
  // ---------------------------------------------------------------------

  /** Arity of the symbol at position `k`, and 0 past the end (`syms.get(k).map_or(0, arity)`). */
  function ArityAt<V, O>(sig: Signature<O>, w: Word<V, O>, k: nat): nat
  {
    if k < |w| then SymArity(sig, w[k]) else 0
  }

  /** The sum of `arity - 1` over the positions `i .. j`. */
  function Bal<V, O>(sig: Signature<O>, w: Word<V, O>, i: nat, j: nat): int
    requires i <= j
    decreases j - i
  {
    if i == j then 0 else ArityAt(sig, w, i) - 1 + Bal(sig, w, i + 1, j)
  }

  /** What `is_well_formed` checks: `1 + sum(arity - 1) == 0`, the total balance only. */
  predicate WellFormed<V, O>(sig: Signature<O>, w: Word<V, O>)
  {
    1 + Bal(sig, w, 0, |w|) == 0
  }

  lemma {:induction false} BalSplit<V, O>(sig: Signature<O>, w: Word<V, O>, i: nat, j: nat, k: nat)
    requires i <= j <= k
    ensures Bal(sig, w, i, k) == Bal(sig, w, i, j) + Bal(sig, w, j, k)
    decreases j - i
  {
    if i < j {
      BalSplit(sig, w, i + 1, j, k);
    }
  }

  /** The balance of a stretch of a slice is the balance of the same stretch of the whole word. */
  lemma {:induction false} BalSlice<V, O>(sig: Signature<O>, w: Word<V, O>, i: nat, j: nat, q: nat, p: nat)
    requires i <= j <= |w| && q <= p <= j - i
    ensures Bal(sig, w[i..j], q, p) == Bal(sig, w, i + q, i + p)
    decreases p - q
  {
    if q < p {
      BalSlice(sig, w, i, j, q + 1, p);
    }
  }

  /** The balance of a concatenation is the sum of the balances. */
  lemma BalAppend<V, O>(sig: Signature<O>, a: Word<V, O>, b: Word<V, O>)
    ensures Bal(sig, a + b, 0, |a + b|) == Bal(sig, a, 0, |a|) + Bal(sig, b, 0, |b|)
  {
    BalSplit(sig, a + b, 0, |a|, |a + b|);
    BalSlice(sig, a + b, 0, |a|, 0, |a|);
    assert (a + b)[0..|a|] == a;
    BalSlice(sig, a + b, |a|, |a + b|, 0, |b|);
    assert (a + b)[|a|..|a + b|] == b;
  }

  /** `is_well_formed`: an accumulator loop over the symbols. */
  method IsWellFormed<V, O>(sig: Signature<O>, w: Word<V, O>) returns (b: bool)
    ensures b <==> WellFormed(sig, w)
  {
    var nsyms: int := 1;
    for k := 0 to |w|
      invariant nsyms == 1 + Bal(sig, w, 0, k)
    {
      BalSplit(sig, w, 0, k, k + 1);
      nsyms := nsyms + SymArity(sig, w[k]) - 1;
    }
    b := nsyms == 0;
  }

  /** A one-variable word is well formed. */
  lemma VarWellFormed<V, O>(sig: Signature<O>, x: V)
    ensures WellFormed(sig, VarWord<V, O>(x))
    ensures IsTerm(sig, VarWord<V, O>(x))
  {
    var w := VarWord<V, O>(x);
    assert Bal(sig, w, 0, 1) == -1;
  }

  /** The balance of `n` well-formed words laid end to end is `-n`. */
  lemma {:induction false} ConcatBalance<V, O>(sig: Signature<O>, ws: seq<Word<V, O>>)
    requires forall x :: x in ws ==> WellFormed(sig, x)
    ensures Bal(sig, Concat(ws), 0, |Concat(ws)|) == -|ws|
  {
    if ws != [] {
      assert ws[0] in ws;
      ConcatBalance(sig, ws[1..]);
      BalAppend(sig, ws[0], Concat(ws[1..]));
    }
  }

  /**
   * `op(o, args)` over well-formed arguments passes the balance check exactly
   * when the number of arguments is the arity of `o`.
   */
  lemma OpWellFormed<V, O>(sig: Signature<O>, o: O, args: seq<Word<V, O>>)
    requires forall x :: x in args ==> WellFormed(sig, x)
    ensures WellFormed(sig, OpWord(o, args)) <==> |args| == sig.arity(o)
  {
    ConcatBalance(sig, args);
    var w := OpWord(o, args);
    var head: Word<V, O> := [Op(o)];
    BalAppend(sig, head, Concat(args));
    assert Bal(sig, head, 0, 1) == sig.arity(o) - 1;
  }

  // ---------------------------------------------------------------------
  // Complete terms: the prefix condition the balance check leaves out
  // ---------------------------------------------------------------------

  /**
   * Positions `i ..` of `w` hold exactly `m` complete terms: the running count
   * of symbols still needed starts at `m`, stays positive before the end and
   * is 0 at the end.
   */
  ghost predicate Forest<V, O>(sig: Signature<O>, w: Word<V, O>, i: nat, m: nat)
    requires i <= |w|
  {
    && m + Bal(sig, w, i, |w|) == 0
    && forall k :: i <= k < |w| ==> m + Bal(sig, w, i, k) > 0
  }

  /** `w` encodes exactly one term, with no symbol left over or missing. */
  ghost predicate IsTerm<V, O>(sig: Signature<O>, w: Word<V, O>)
  {
    Forest(sig, w, 0, 1)
  }

  /** A complete term passes the balance check, and is never empty. */
  lemma TermWellFormed<V, O>(sig: Signature<O>, w: Word<V, O>)
    requires IsTerm(sig, w)
    ensures WellFormed(sig, w) && |w| > 0
  {
  }

  /** A complete term that starts with a variable is that variable alone. */
  lemma TermVar<V, O>(sig: Signature<O>, w: Word<V, O>)
    requires IsTerm(sig, w) && w[0].Var?
    ensures w == [w[0]]
  {
    assert Bal(sig, w, 0, 1) == -1;
  }

  /**
   * A symbol on its own: a variable takes no arguments and weighs
   * `minWeight`, the word weighs what the symbol weighs, and it passes the
   * balance check, and is a complete term, exactly when the symbol takes no
   * arguments.
   */
  lemma SymbolAlone<V, O>(sig: Signature<O>, s: Symbol<V, O>)
    ensures s.Var? ==> SymArity(sig, s) == 0 && SymWeight(sig, s) == sig.minWeight
    ensures Weight(sig, FromSym(s)) == SymWeight(sig, s)
    ensures WellFormed(sig, FromSym(s)) <==> SymArity(sig, s) == 0
    ensures IsTerm(sig, FromSym(s)) <==> SymArity(sig, s) == 0
  {
    var w := FromSym(s);
    assert w[1..] == [];
    assert Bal(sig, w, 0, 1) == SymArity(sig, s) - 1;
  }

  /** A word led by an operator is a complete term iff the rest holds `arity` complete terms. */
  lemma OpForest<V, O>(sig: Signature<O>, w: Word<V, O>)
    requires |w| > 0 && w[0].Op?
    ensures IsTerm(sig, w) <==> Forest(sig, w, 1, sig.arity(w[0].o))
  {
    var m := sig.arity(w[0].o);
    assert Bal(sig, w, 0, |w|) == m - 1 + Bal(sig, w, 1, |w|);
    forall k | 1 <= k < |w| ensures Bal(sig, w, 0, k) == m - 1 + Bal(sig, w, 1, k) {
    }
    if Forest(sig, w, 1, m) {
      forall k | 0 <= k < |w| ensures 1 + Bal(sig, w, 0, k) > 0 {
        if k > 0 {
          assert m + Bal(sig, w, 1, k) > 0;
        }
      }
    }
    if IsTerm(sig, w) {
      forall k | 1 <= k < |w| ensures m + Bal(sig, w, 1, k) > 0 {
        assert 1 + Bal(sig, w, 0, k) > 0;
      }
    }
  }

  /** A complete term followed by `m - 1` complete terms is `m` complete terms. */
  lemma ForestCons<V, O>(sig: Signature<O>, w: Word<V, O>, i: nat, t: Word<V, O>, m: nat)
    requires i + |t| <= |w| && w[i..i + |t|] == t && IsTerm(sig, t)
    requires m >= 1 && Forest(sig, w, i + |t|, m - 1)
    ensures Forest(sig, w, i, m)
  {
    var e := i + |t|;
    BalSlice(sig, w, i, e, 0, |t|);
    BalSplit(sig, w, i, e, |w|);
    forall k | i <= k < |w| ensures m + Bal(sig, w, i, k) > 0 {
      if k < e {
        BalSlice(sig, w, i, e, 0, k - i);
        assert 1 + Bal(sig, t, 0, k - i) > 0;
      } else {
        BalSplit(sig, w, i, e, k);
      }
    }
  }

  /** Complete terms laid end to end form a forest of that many terms. */
  lemma {:induction false} ConcatForest<V, O>(sig: Signature<O>, w: Word<V, O>, i: nat, ws: seq<Word<V, O>>)
    requires forall x :: x in ws ==> IsTerm(sig, x)
    requires i <= |w| && w[i..] == Concat(ws)
    ensures Forest(sig, w, i, |ws|)
    decreases |ws|
  {
    if ws == [] {
      assert i == |w|;
    } else {
      var t := ws[0];
      assert t in ws;
      assert w[i..i + |t|] == t by {
        assert w[i..] == t + Concat(ws[1..]);
        assert w[i..][..|t|] == t;
      }
      assert w[i + |t|..] == Concat(ws[1..]) by {
        assert w[i..] == t + Concat(ws[1..]);
        assert w[i..][|t|..] == Concat(ws[1..]);
      }
      forall x | x in ws[1..] ensures IsTerm(sig, x) {
        assert x in ws;
      }
      ConcatForest(sig, w, i + |t|, ws[1..]);
      ForestCons(sig, w, i, t, |ws|);
    }
  }

  /**
   * `op(o, args)` over complete terms is a complete term exactly when the
   * number of arguments is the arity of `o`.
   */
  lemma OpIsTerm<V, O>(sig: Signature<O>, o: O, args: seq<Word<V, O>>)
    requires forall x :: x in args ==> IsTerm(sig, x)
    ensures IsTerm(sig, OpWord(o, args)) <==> |args| == sig.arity(o)
  {
    var w := OpWord(o, args);
    assert w[1..] == Concat(args);
    ConcatForest(sig, w, 1, args);
    OpForest(sig, w);
    if IsTerm(sig, w) {
      // the two forest counts agree with the same balance
      assert |args| + Bal(sig, w, 1, |w|) == 0;
      assert sig.arity(o) + Bal(sig, w, 1, |w|) == 0;
    }
  }

  /** The corrected well-formedness check: the balance loop that also insists on the prefix condition. */
  method CheckTerm<V, O>(sig: Signature<O>, w: Word<V, O>) returns (b: bool)
    ensures b <==> IsTerm(sig, w)
  {
    var nsyms: int := 1;
    for k := 0 to |w|
      invariant nsyms == 1 + Bal(sig, w, 0, k)
      invariant forall p :: 0 <= p < k ==> 1 + Bal(sig, w, 0, p) > 0
    {
      if nsyms <= 0 {
        // a complete term has already ended before position k
        return false;
      }
      BalSplit(sig, w, 0, k, k + 1);
      nsyms := nsyms + SymArity(sig, w[k]) - 1;
    }
    b := nsyms == 0;
  }

  // ---------------------------------------------------------------------
  // Subwords: decoding the top-level arguments
  // ---------------------------------------------------------------------

  /**
   * Where the scan of `Subwords::next` stops: starting at position `i` with
   * `n` symbols still needed, each step consumes one symbol and adds its
   * arity; past the end a position contributes arity 0.
   */
  function ScanEnd<V, O>(sig: Signature<O>, w: Word<V, O>, i: nat, n: nat): (j: nat)
    ensures i <= j
    ensures n > 0 ==> i < j
    decreases if i < |w| then |w| - i else 0, n
  {
    if n == 0 then i else ScanEnd(sig, w, i + 1, n - 1 + ArityAt(sig, w, i))
  }

  /**
   * The subwords an iterator at position `i` with `nargs` arguments left yields
   * before its first `None`.
   */
  function Decode<V, O>(sig: Signature<O>, w: Word<V, O>, i: nat, nargs: nat): (r: seq<Word<V, O>>)
    ensures |r| <= nargs
    ensures forall x :: x in r ==> |x| > 0
    ensures i <= |w| ==> i + |Concat(r)| <= |w|
    decreases nargs
  {
    if nargs == 0 then []
    else
      var j := ScanEnd(sig, w, i, 1);
      if j <= |w| then
        var rest := Decode(sig, w, j, nargs - 1);
        assert ([w[i..j]] + rest)[1..] == rest;
        [w[i..j]] + rest
      else []
  }

  /** Every word of a list is at most as long as the list laid end to end. */
  lemma {:induction false} ConcatBound<V, O>(ws: seq<Word<V, O>>)
    ensures forall x :: x in ws ==> |x| <= |Concat(ws)|
  {
    if ws != [] {
      ConcatBound(ws[1..]);
      forall x | x in ws ensures |x| <= |Concat(ws)| {
        if x != ws[0] {
          assert x in ws[1..];
        }
      }
    }
  }

  /** The arguments `subwords()` yields: it starts at position 1 with the leading symbol's arity. */
  function Subwords<V, O>(sig: Signature<O>, w: Word<V, O>): (r: seq<Word<V, O>>)
    ensures forall x :: x in r ==> 0 < |x| < |w|
    ensures |w| > 0 ==> |Concat(r)| < |w|
  {
    var r := Decode(sig, w, 1, if w == [] then 0 else SymArity(sig, w[0]));
    ConcatBound(r);
    r
  }

  /** Once the scan position is at or past the end, nothing more is decoded. */
  lemma DecodePastEnd<V, O>(sig: Signature<O>, w: Word<V, O>, i: nat, nargs: nat)
    requires i >= |w|
    ensures Decode(sig, w, i, nargs) == []
  {
    if nargs > 0 {
      assert ScanEnd(sig, w, i, 1) == ScanEnd(sig, w, i + 1, 0);
    }
  }

  /**
   * The scan with `n` symbols needed stops at the first position where the
   * running count reaches 0.
   */
  lemma {:induction false} ScanStopsAtZero<V, O>(sig: Signature<O>, w: Word<V, O>, i: nat, n: nat, k: nat)
    requires i <= k
    requires n + Bal(sig, w, i, k) == 0
    requires forall q :: i <= q < k ==> n + Bal(sig, w, i, q) > 0
    ensures ScanEnd(sig, w, i, n) == k
    decreases k - i
  {
    if i < k {
      assert n + Bal(sig, w, i, i) > 0;
      var n' := n - 1 + ArityAt(sig, w, i);
      var i1 := i + 1;
      forall q | i1 <= q < k ensures n' + Bal(sig, w, i1, q) > 0 {
        assert n + Bal(sig, w, i, q) > 0;
      }
      ScanStopsAtZero(sig, w, i1, n', k);
    }
  }

  /**
   * Inside a forest of `m` terms, the scan for `n <= m` terms stays inside the
   * word, stops at the first zero of the running count, and leaves a forest of
   * `m - n` terms.
   */
  lemma {:induction false} ScanInForest<V, O>(sig: Signature<O>, w: Word<V, O>, i: nat, n: nat, m: nat)
    requires i <= |w| && n <= m && Forest(sig, w, i, m)
    ensures ScanEnd(sig, w, i, n) <= |w|
    ensures n + Bal(sig, w, i, ScanEnd(sig, w, i, n)) == 0
    ensures forall k :: i <= k < ScanEnd(sig, w, i, n) ==> n + Bal(sig, w, i, k) > 0
    ensures Forest(sig, w, ScanEnd(sig, w, i, n), m - n)
    decreases |w| - i
  {
    if n > 0 {
      assert Bal(sig, w, |w|, |w|) == 0;
      assert i < |w|;
      var a := ArityAt(sig, w, i);
      var n', m' := n - 1 + a, m - 1 + a;
      var i1 := i + 1;
      forall k | i1 <= k < |w| ensures m' + Bal(sig, w, i1, k) > 0 {
        assert m + Bal(sig, w, i, k) > 0;
      }
      assert m' + Bal(sig, w, i + 1, |w|) == m + Bal(sig, w, i, |w|);
      ScanInForest(sig, w, i + 1, n', m');
      var j := ScanEnd(sig, w, i + 1, n');
      assert ScanEnd(sig, w, i, n) == j;
      assert n + Bal(sig, w, i, j) == n' + Bal(sig, w, i + 1, j);
      forall k | i <= k < j ensures n + Bal(sig, w, i, k) > 0 {
        if k > i {
          assert n + Bal(sig, w, i, k) == n' + Bal(sig, w, i + 1, k);
        }
      }
    }
  }

  /** The slice `w[i..j]` is a complete term when the running count from `i` first hits 0 at `j`. */
  lemma SliceIsTerm<V, O>(sig: Signature<O>, w: Word<V, O>, i: nat, j: nat)
    requires i <= j <= |w|
    requires 1 + Bal(sig, w, i, j) == 0
    requires forall k :: i <= k < j ==> 1 + Bal(sig, w, i, k) > 0
    ensures IsTerm(sig, w[i..j])
  {
    var t := w[i..j];
    BalSlice(sig, w, i, j, 0, j - i);
    forall k | 0 <= k < |t| ensures 1 + Bal(sig, t, 0, k) > 0 {
      BalSlice(sig, w, i, j, 0, k);
      assert 1 + Bal(sig, w, i, i + k) > 0;
    }
  }

  /** One step of decoding, when the first scan stays inside the word. */
  lemma DecodeStep<V, O>(sig: Signature<O>, w: Word<V, O>, i: nat, j: nat, m: nat)
    requires m > 0 && ScanEnd(sig, w, i, 1) == j <= |w|
    ensures Decode(sig, w, i, m) == [w[i..j]] + Decode(sig, w, j, m - 1)
  {
  }

  /** Putting one more complete term in front of a decoded list. */
  lemma ConsTerms<V, O>(sig: Signature<O>, w: Word<V, O>, i: nat, j: nat, rest: seq<Word<V, O>>, m: nat)
    requires i <= j <= |w| && m > 0
    requires IsTerm(sig, w[i..j])
    requires |rest| == m - 1 && (forall x :: x in rest ==> IsTerm(sig, x)) && Concat(rest) == w[j..]
    ensures |[w[i..j]] + rest| == m
    ensures forall x :: x in [w[i..j]] + rest ==> IsTerm(sig, x)
    ensures Concat([w[i..j]] + rest) == w[i..]
  {
    var r := [w[i..j]] + rest;
    assert r[1..] == rest;
    assert w[i..] == w[i..j] + w[j..];
  }

  /** Decoding a forest of `m` terms yields `m` complete terms that make up the rest of the word. */
  lemma {:induction false} DecodeForest<V, O>(sig: Signature<O>, w: Word<V, O>, i: nat, m: nat)
    requires i <= |w| && Forest(sig, w, i, m)
    ensures |Decode(sig, w, i, m)| == m
    ensures forall x :: x in Decode(sig, w, i, m) ==> IsTerm(sig, x)
    ensures Concat(Decode(sig, w, i, m)) == w[i..]
    decreases m
  {
    if m == 0 {
      assert Bal(sig, w, i, i) == 0;
      assert i == |w|;
    } else {
      var j := ScanEnd(sig, w, i, 1);
      assert j <= |w| && IsTerm(sig, w[i..j]) && Forest(sig, w, j, m - 1) by {
        ScanInForest(sig, w, i, 1, m);
        SliceIsTerm(sig, w, i, j);
      }
      DecodeForest(sig, w, j, m - 1);
      DecodeStep(sig, w, i, j, m);
      ConsTerms(sig, w, i, j, Decode(sig, w, j, m - 1), m);
    }
  }

  /** Splitting a slice that holds two words laid end to end. */
  lemma SliceParts<V, O>(w: Word<V, O>, i: nat, t: Word<V, O>, u: Word<V, O>)
    requires i + |t| + |u| <= |w| && w[i..i + |t| + |u|] == t + u
    ensures w[i..i + |t|] == t
    ensures w[i + |t|..i + |t| + |u|] == u
  {
    assert w[i..i + |t|] == w[i..i + |t| + |u|][..|t|];
    assert w[i + |t|..i + |t| + |u|] == w[i..i + |t| + |u|][|t|..];
  }

  /** The scan for one term starting where a complete term `t` sits stops right after it. */
  lemma TermScan<V, O>(sig: Signature<O>, w: Word<V, O>, i: nat, t: Word<V, O>)
    requires IsTerm(sig, t) && i + |t| <= |w| && w[i..i + |t|] == t
    ensures ScanEnd(sig, w, i, 1) == i + |t|
  {
    BalSlice(sig, w, i, i + |t|, 0, |t|);
    forall q | i <= q < i + |t| ensures 1 + Bal(sig, w, i, q) > 0 {
      BalSlice(sig, w, i, i + |t|, 0, q - i);
      assert 1 + Bal(sig, t, 0, q - i) > 0;
    }
    ScanStopsAtZero(sig, w, i, 1, i + |t|);
  }

  /** Decoding complete terms laid end to end gives back exactly those terms. */
  lemma {:induction false} DecodeConcat<V, O>(sig: Signature<O>, w: Word<V, O>, i: nat, args: seq<Word<V, O>>)
    requires forall x :: x in args ==> IsTerm(sig, x)
    requires i + |Concat(args)| <= |w| && w[i..i + |Concat(args)|] == Concat(args)
    ensures Decode(sig, w, i, |args|) == args
    decreases |args|
  {
    if args != [] {
      var t, more := args[0], args[1..];
      assert t in args;
      assert Concat(args) == t + Concat(more);
      SliceParts(w, i, t, Concat(more));
      TermScan(sig, w, i, t);
      forall x | x in more ensures IsTerm(sig, x) {
        assert x in args;
      }
      var j, n := i + |t|, |more|;
      DecodeConcat(sig, w, j, more);
      DecodeStep(sig, w, i, j, n + 1);
      assert |args| == n + 1;
      ConsSplit(Decode(sig, w, i, n + 1), w[i..j], Decode(sig, w, j, n), args);
    }
  }

  /** A list that is a head followed by the rest of `xs` is `xs`. */
  lemma ConsSplit<T>(d: seq<T>, head: T, tail: seq<T>, xs: seq<T>)
    requires xs != [] && d == [head] + tail && head == xs[0] && tail == xs[1..]
    ensures d == xs
  {
  }

  /**
   * `subwords()` of `op(o, args)` built from complete terms with
   * `|args| == arity(o)` yields exactly `args`, in order.
   */
  lemma OpSubwords<V, O>(sig: Signature<O>, o: O, args: seq<Word<V, O>>)
    requires forall x :: x in args ==> IsTerm(sig, x)
    requires |args| == sig.arity(o)
    ensures Subwords(sig, OpWord(o, args)) == args
  {
    var w := OpWord(o, args);
    assert w[1..1 + |Concat(args)|] == Concat(args);
    DecodeConcat(sig, w, 1, args);
  }

  /**
   * Conversely, a complete term led by an operator is that operator applied
   * to its subwords, which are `arity` complete terms.
   */
  lemma TermSubwords<V, O>(sig: Signature<O>, w: Word<V, O>)
    requires IsTerm(sig, w) && w[0].Op?
    ensures |Subwords(sig, w)| == sig.arity(w[0].o)
    ensures forall x :: x in Subwords(sig, w) ==> IsTerm(sig, x)
    ensures w == OpWord(w[0].o, Subwords(sig, w))
  {
    OpForest(sig, w);
    DecodeForest(sig, w, 1, sig.arity(w[0].o));
    assert w == [w[0]] + w[1..];
  }

  /** A variable or a nullary operator has no subwords. */
  lemma SubwordsOfLeaf<V, O>(sig: Signature<O>, w: Word<V, O>)
    requires |w| > 0 && SymArity(sig, w[0]) == 0
    ensures Subwords(sig, w) == []
  {
  }

  // ---------------------------------------------------------------------
  // The iterator
  // ---------------------------------------------------------------------

  /**
   * `Subwords`: a cursor over a word's symbols. `i` is the position where
   * the next argument starts and `nargs` the number of arguments still to be
   * yielded.
   */
  class SubwordIter<V, O> {
    const sig: Signature<O>
    const syms: Word<V, O>
    var i: nat
    var nargs: nat

    /** The items still to come before the first `None`. */
    ghost function Pending(): seq<Word<V, O>>
      reads this
    {
      Decode(sig, syms, i, nargs)
    }

    /** `Word::subwords`: a fresh cursor just after the leading symbol. */
    constructor (sig: Signature<O>, w: Word<V, O>)
      ensures this.sig == sig && syms == w
      ensures i == 1 && nargs == (if w == [] then 0 else SymArity(sig, w[0]))
      ensures Pending() == Subwords(sig, w)
    {
      this.sig := sig;
      syms := w;
      i := 1;
      nargs := if w == [] then 0 else SymArity(sig, w[0]);
    }

    /**
     * `Subwords::next`: scan forward from `i` until the count of symbols still
     * needed drops to 0, and yield the scanned slice; `None` if the scan ran
     * past the end of a truncated word, or if no argument is left.
     */
    method Next() returns (r: Option<Word<V, O>>)
      modifies this
      ensures old(nargs) == 0 ==> r == None && i == old(i) && nargs == 0
      ensures old(nargs) > 0 ==>
        && nargs == old(nargs) - 1
        && i == ScanEnd(sig, syms, old(i), 1)
        && r == (if i <= |syms| then Some(syms[old(i)..i]) else None)
      ensures r == (if old(Pending()) == [] then None else Some(old(Pending())[0]))
      ensures r.Some? ==> Pending() == old(Pending())[1..]
      ensures r.None? ==> Pending() == []
    {
      if nargs > 0 {
        nargs := nargs - 1;
        var nsyms: nat := 1;
        var swstart := i;
        while nsyms > 0
          invariant swstart == old(i) <= i && nargs == old(nargs) - 1
          invariant ScanEnd(sig, syms, i, nsyms) == ScanEnd(sig, syms, swstart, 1)
          decreases if i < |syms| then |syms| - i else 0, nsyms
        {
          nsyms := nsyms - 1 + (if i < |syms| then SymArity(sig, syms[i]) else 0);
          i := i + 1;
        }
        if i <= |syms| {
          r := Some(syms[swstart..i]);
        } else {
          r := None;
          DecodePastEnd(sig, syms, i, nargs);
        }
      } else {
        r := None;
      }
    }
  }
}
