/**
 * Tree terms of src/term.rs: a term is a variable or an operator applied to a
 * list of arguments. Well-formedness is the recursive arity check, `varseq`
 * numbers the variable occurrences by first encounter along an explicit
 * stack, and term equality is "same operator skeleton and same `varseq`",
 * which is equality up to a renaming of variables.
 */
module Terms {
  import opened Basics
  import Words

  datatype Term<V, O> = Variable(v: V) | Operator(op: O, args: seq<Term<V, O>>)

  /** `is_var`. */
  predicate IsVar<V, O>(t: Term<V, O>)
  {
    match t
    case Variable(_) => true
    case _ => false
  }

  /** `is_op`. */
  predicate IsOp<V, O>(t: Term<V, O>)
  {
    match t
    case Operator(_, _) => true
    case _ => false
  }

  /** Every term is exactly one of the two. */
  lemma VarOrOp<V, O>(t: Term<V, O>)
    ensures IsVar(t) != IsOp(t)
    ensures IsVar(t) <==> t.Variable?
  {
  }

  /** `is_well_formed`: every operator node has exactly as many arguments as its arity. */
  predicate WellFormed<V, O>(arity: O -> nat, t: Term<V, O>)
  {
    match t
    case Variable(_) => true
    case Operator(o, args) =>
      arity(o) == |args| && forall i :: 0 <= i < |args| ==> WellFormed(arity, args[i])
  }

  /** The prefix word of a tree: a variable alone, or the operator followed by each argument's word in order. */
  function Flatten<V, O>(t: Term<V, O>): Words.Word<V, O>
  {
    match t
    case Variable(x) => Words.VarWord(x)
    case Operator(o, args) => Words.OpWord(o, FlattenAll(args))
  }

  function FlattenAll<V, O>(ts: seq<Term<V, O>>): (r: seq<Words.Word<V, O>>)
    ensures |r| == |ts|
    ensures forall i :: 0 <= i < |ts| ==> r[i] == Flatten(ts[i])
  {
    seq(|ts|, i requires 0 <= i < |ts| => Flatten(ts[i]))
  }

  /**
   * A tree that passes `is_well_formed` flattens to exactly one complete
   * prefix term, and decoding that word's subwords gives back the
   * arguments' words: the tree check and the word encoding agree.
   */
  lemma {:induction false} WellFormedFlattens<V, O>(sig: Words.Signature<O>, t: Term<V, O>)
    requires WellFormed(sig.arity, t)
    ensures Words.IsTerm(sig, Flatten(t))
    ensures t.Operator? ==> Words.Subwords(sig, Flatten(t)) == FlattenAll(t.args)
    decreases t
  {
    match t
    case Variable(x) =>
      Words.VarWellFormed<V, O>(sig, x);
    case Operator(o, args) =>
      var ws := FlattenAll(args);
      forall w | w in ws
        ensures Words.IsTerm(sig, w)
      {
        var i :| 0 <= i < |ws| && ws[i] == w;
        WellFormedFlattens(sig, args[i]);
      }
      Words.OpIsTerm(sig, o, ws);
      Words.OpSubwords(sig, o, ws);
  }

  // ---------------------------------------------------------------------
  // The order in which `varseq` meets the variables
  // ---------------------------------------------------------------------

  /**
   * The variable leaves of `t` in the order the stack traversal of `varseq`
   * visits them: the arguments are pushed left to right and popped, so the
   * last argument is visited first.
   */
  function Leaves<V, O>(t: Term<V, O>): seq<V>
  {
    match t
    case Variable(x) => [x]
    case Operator(_, args) => StackLeaves(args)
  }

  /** The leaves of a stack of terms, top (last element) first. */
  function StackLeaves<V, O>(ts: seq<Term<V, O>>): seq<V>
  {
    if ts == [] then [] else Leaves(ts[|ts| - 1]) + StackLeaves(ts[..|ts| - 1])
  }

  /** Number of variable occurrences, counted left to right. */
  function LeafCount<V, O>(t: Term<V, O>): nat
  {
    match t
    case Variable(_) => 1
    case Operator(_, args) => LeafCountAll(args)
  }

  function LeafCountAll<V, O>(ts: seq<Term<V, O>>): nat
  {
    if ts == [] then 0 else LeafCount(ts[0]) + LeafCountAll(ts[1..])
  }

  /** Number of nodes; it shrinks by one with every pop of the traversal. */
  function Size<V, O>(t: Term<V, O>): nat
  {
    match t
    case Variable(_) => 1
    case Operator(_, args) => 1 + StackSize(args)
  }

  function StackSize<V, O>(ts: seq<Term<V, O>>): nat
  {
    if ts == [] then 0 else StackSize(ts[..|ts| - 1]) + Size(ts[|ts| - 1])
  }

  lemma {:induction false} LeafCountAllSnoc<V, O>(ts: seq<Term<V, O>>, t: Term<V, O>)
    ensures LeafCountAll(ts + [t]) == LeafCountAll(ts) + LeafCount(t)
  {
    if ts != [] {
      assert (ts + [t])[1..] == ts[1..] + [t];
      LeafCountAllSnoc(ts[1..], t);
    }
  }

  /** The traversal visits every variable occurrence once. */
  lemma {:induction false} LeavesCount<V, O>(t: Term<V, O>)
    ensures |Leaves(t)| == LeafCount(t)
    decreases t, 1
  {
    match t
    case Variable(_) =>
    case Operator(_, args) => StackLeavesCount(args);
  }

  lemma {:induction false} StackLeavesCount<V, O>(ts: seq<Term<V, O>>)
    ensures |StackLeaves(ts)| == LeafCountAll(ts)
    decreases ts, 0
  {
    if ts != [] {
      var init, last := ts[..|ts| - 1], ts[|ts| - 1];
      LeavesCount(last);
      StackLeavesCount(init);
      LeafCountAllSnoc(init, last);
      assert init + [last] == ts;
    }
  }

  // ---------------------------------------------------------------------
  // First-encounter numbering
  // ---------------------------------------------------------------------

  /** The counter `n` after `varseq` has met the occurrences `ps`. */
  function Counter<V(==)>(ps: seq<V>): nat
    decreases |ps|, 1
  {
    if ps == [] then 0
    else
      var init := ps[..|ps| - 1];
      if ps[|ps| - 1] in Assign(init) then Counter(init) else Counter(init) + 1
  }

  /**
   * The map `varmap` after `varseq` has met the occurrences `ps`: a variable
   * seen before keeps its number, a new one gets the next value of the
   * counter.
   */
  function Assign<V(==)>(ps: seq<V>): (m: map<V, nat>)
    ensures ps != [] ==> ps[|ps| - 1] in m
    decreases |ps|, 0
  {
    if ps == [] then map[]
    else
      var init, x := ps[..|ps| - 1], ps[|ps| - 1];
      var m := Assign(init);
      if x in m then m else m[x := Counter(init) + 1]
  }

  /** The output `vars` of `varseq` once it has met the occurrences `ps`. */
  function Numbering<V(==)>(ps: seq<V>): (r: seq<nat>)
    ensures |r| == |ps|
    decreases |ps|
  {
    if ps == [] then [] else Numbering(ps[..|ps| - 1]) + [Assign(ps)[ps[|ps| - 1]]]
  }

  /** What `varseq` returns for `t`. */
  function VarSeqOf<V(==), O>(t: Term<V, O>): seq<nat>
  {
    Numbering(Leaves(t))
  }

  /** Taking the top term off a stack. */
  lemma StackPush<V, O>(ts: seq<Term<V, O>>, t: Term<V, O>)
    ensures StackLeaves(ts + [t]) == Leaves(t) + StackLeaves(ts)
    ensures StackSize(ts + [t]) == StackSize(ts) + Size(t)
  {
    assert (ts + [t])[..|ts|] == ts;
  }

  /** Pushing several terms at once. */
  lemma {:induction false} StackAppend<V, O>(xs: seq<Term<V, O>>, ys: seq<Term<V, O>>)
    ensures StackLeaves(xs + ys) == StackLeaves(ys) + StackLeaves(xs)
    ensures StackSize(xs + ys) == StackSize(xs) + StackSize(ys)
    decreases |ys|
  {
    if ys != [] {
      var init, last := ys[..|ys| - 1], ys[|ys| - 1];
      StackAppend(xs, init);
      assert xs + ys == (xs + init) + [last];
      StackPush(xs + init, last);
      StackPush(init, last);
      assert init + [last] == ys;
    } else {
      assert xs + ys == xs;
    }
  }

  /** One more occurrence met by the numbering. */
  lemma NumberingStep<V>(ps: seq<V>, x: V)
    ensures Counter(ps + [x]) == if x in Assign(ps) then Counter(ps) else Counter(ps) + 1
    ensures Assign(ps + [x]) == if x in Assign(ps) then Assign(ps) else Assign(ps)[x := Counter(ps) + 1]
    ensures Numbering(ps + [x]) == Numbering(ps) + [Assign(ps + [x])[x]]
  {
    assert (ps + [x])[..|ps|] == ps;
  }

  /** The `for a in args.iter() { terms.push(a) }` loop of `varseq`: push the arguments left to right. */
  method PushAll<V, O>(terms: seq<Term<V, O>>, args: seq<Term<V, O>>) returns (r: seq<Term<V, O>>)
    ensures r == terms + args
  {
    r := terms;
    for k := 0 to |args|
      invariant r == terms + args[..k]
    {
      PrefixSnoc(args, k);
      r := r + [args[k]];
    }
    assert args[..|args|] == args;
  }

  /**
   * The `vars.push(*varmap.entry(var).or_insert_with(..))` step of `varseq`:
   * a variable already in the map keeps its number, a new one gets the next
   * value of the counter; either way its number is appended to `vars`.
   * `done` holds the occurrences met so far.
   */
  method NumberVar<V(==)>(ghost done: seq<V>, x: V, n: nat, varmap: map<V, nat>, vars: seq<nat>)
    returns (n': nat, varmap': map<V, nat>, vars': seq<nat>)
    requires vars == Numbering(done) && varmap == Assign(done) && n == Counter(done)
    ensures vars' == Numbering(done + [x]) && varmap' == Assign(done + [x]) && n' == Counter(done + [x])
  {
    NumberingStep(done, x);
    n', varmap' := n, varmap;
    if x !in varmap' {
      n' := n' + 1;
      varmap' := varmap'[x := n'];
    }
    vars' := vars + [varmap'[x]];
  }

  /**
   * `varseq`: pop a term off the stack; a variable gets its number from the
   * map (a fresh one from the counter if it is new) and the number is
   * appended to the output; an operator pushes its arguments left to right.
   */
  method VarSeq<V(==), O>(t: Term<V, O>) returns (vars: seq<nat>)
    ensures vars == VarSeqOf(t)
  {
    var n: nat := 0;
    var varmap: map<V, nat> := map[];
    var terms: seq<Term<V, O>> := [t];
    vars := [];
    ghost var done: seq<V> := [];
    StackPush([], t);
    while terms != []
      invariant done + StackLeaves(terms) == Leaves(t)
      invariant vars == Numbering(done) && varmap == Assign(done) && n == Counter(done)
      decreases StackSize(terms)
    {
      var top := terms[|terms| - 1];
      var rest := terms[..|terms| - 1];
      ghost var size := StackSize(terms);
      assert done + Leaves(top) + StackLeaves(rest) == Leaves(t) && StackSize(rest) + Size(top) == size by {
        LastSplit(terms);
        StackPush(rest, top);
      }
      terms := rest;
      match top
      case Variable(x) =>
        n, varmap, vars := NumberVar(done, x, n, varmap, vars);
        done := done + [x];
      case Operator(_, args) =>
        terms := PushAll(terms, args);
        StackAppend(rest, args);
    }
    assert done + StackLeaves(terms) == done;
  }

  // ---------------------------------------------------------------------
  // What the numbering is: a restricted-growth renaming of the occurrences
  // ---------------------------------------------------------------------

  /** The largest entry, 0 for the empty sequence. */
  function Max(s: seq<nat>): nat
  {
    if s == [] then 0
    else
      var m := Max(s[..|s| - 1]);
      if s[|s| - 1] > m then s[|s| - 1] else m
  }

  /**
   * A first-encounter numbering, independently of how `varseq` computes it:
   * one number per occurrence, equal numbers exactly for equal variables, and
   * a variable met for the first time gets one more than the largest number
   * handed out so far (so the numbers used are 1, 2, ... in order of first
   * appearance).
   */
  predicate Canonical<V(==)>(vs: seq<V>, r: seq<nat>)
  {
    |r| == |vs| &&
    (forall i, j :: 0 <= i < |vs| && 0 <= j < |vs| ==> (r[i] == r[j] <==> vs[i] == vs[j])) &&
    (forall i :: 0 <= i < |vs| && vs[i] !in vs[..i] ==> r[i] == Max(r[..i]) + 1)
  }

  /** The state of the map and counter after meeting `ps`. */
  lemma {:induction false} AssignFacts<V>(ps: seq<V>)
    ensures forall x :: x in Assign(ps) ==> x in ps && 1 <= Assign(ps)[x] <= Counter(ps)
    ensures forall i :: 0 <= i < |ps| ==> ps[i] in Assign(ps)
    ensures forall x, y :: x in Assign(ps) && y in Assign(ps) && Assign(ps)[x] == Assign(ps)[y] ==> x == y
    ensures Max(Numbering(ps)) == Counter(ps)
    ensures forall i :: 0 <= i < |ps| ==> Numbering(ps)[i] == Assign(ps)[ps[i]]
    decreases |ps|
  {
    if ps != [] {
      var init, x := ps[..|ps| - 1], ps[|ps| - 1];
      AssignFacts(init);
      assert init + [x] == ps;
      NumberingStep(init, x);
      var r := Numbering(ps);
      assert r[..|init|] == Numbering(init);
      forall i | 0 <= i < |init| ensures r[i] == Assign(ps)[ps[i]] {
        assert ps[i] == init[i];
      }
    }
  }

  /** The map holds exactly the variables met, one per counter value. */
  lemma {:induction false} AssignKeys<V>(ps: seq<V>)
    ensures Assign(ps).Keys == set x | x in ps
    ensures |Assign(ps).Keys| == Counter(ps)
    decreases |ps|
  {
    if ps != [] {
      var init, x := ps[..|ps| - 1], ps[|ps| - 1];
      AssignKeys(init);
      LastSplit(ps);
      assert (set y | y in ps) == (set y | y in init) + {x};
      if x !in Assign(init) {
        assert Assign(ps).Keys == Assign(init).Keys + {x};
      }
    }
  }

  /** The numbering of a prefix is the prefix of the numbering. */
  lemma {:induction false} NumberingPrefix<V>(ps: seq<V>, k: nat)
    requires k <= |ps|
    ensures Numbering(ps[..k]) == Numbering(ps)[..k]
    decreases |ps|
  {
    if k < |ps| {
      var init := ps[..|ps| - 1];
      NumberingPrefix(init, k);
      assert init[..k] == ps[..k];
    } else {
      assert ps[..k] == ps;
    }
  }

  /** A variable met for the first time gets one more than the largest number so far. */
  lemma {:induction false} FirstEncounter<V>(vs: seq<V>, i: nat)
    requires i < |vs| && vs[i] !in vs[..i]
    ensures Numbering(vs)[i] == Max(Numbering(vs)[..i]) + 1
  {
    var p := vs[..i];
    NumberingPrefix(vs, i + 1);
    NumberingPrefix(vs, i);
    assert vs[..i + 1] == p + [vs[i]];
    NumberingStep(p, vs[i]);
    AssignFacts(p);
    assert vs[i] !in Assign(p);
  }

  /** `varseq`'s numbering is the first-encounter numbering. */
  lemma {:induction false} NumberingCanonical<V>(vs: seq<V>)
    ensures Canonical(vs, Numbering(vs))
  {
    var r := Numbering(vs);
    AssignFacts(vs);
    forall i | 0 <= i < |vs| && vs[i] !in vs[..i] ensures r[i] == Max(r[..i]) + 1 {
      FirstEncounter(vs, i);
    }
  }

  lemma {:induction false} CanonicalPrefix<V>(vs: seq<V>, r: seq<nat>, k: nat)
    requires Canonical(vs, r) && k <= |vs|
    ensures Canonical(vs[..k], r[..k])
  {
    forall i | 0 <= i < k && vs[..k][i] !in vs[..k][..i]
      ensures r[..k][i] == Max(r[..k][..i]) + 1
    {
      assert vs[..k][..i] == vs[..i] && r[..k][..i] == r[..i];
    }
  }

  /** There is only one first-encounter numbering of a sequence of occurrences. */
  lemma {:induction false} CanonicalUnique<V>(vs: seq<V>, r1: seq<nat>, r2: seq<nat>)
    requires Canonical(vs, r1) && Canonical(vs, r2)
    ensures r1 == r2
    decreases |vs|
  {
    if vs != [] {
      var n := |vs| - 1;
      CanonicalPrefix(vs, r1, n);
      CanonicalPrefix(vs, r2, n);
      CanonicalUnique(vs[..n], r1[..n], r2[..n]);
      assert r1[n] == r2[n] by {
        if vs[n] in vs[..n] {
          var j :| 0 <= j < n && vs[..n][j] == vs[n];
          assert vs[j] == vs[n];
          assert r1[j] == r1[n] && r2[j] == r2[n];
          assert r1[..n][j] == r2[..n][j];
        } else {
          assert r1[n] == Max(r1[..n]) + 1 && r2[n] == Max(r2[..n]) + 1;
        }
      }
      LastSplit(r1);
      LastSplit(r2);
    }
  }

  /** Two sequences of occurrences have the same equality pattern. */
  predicate SamePattern<V(==), W(==)>(a: seq<V>, b: seq<W>)
  {
    |a| == |b| && forall i, j :: 0 <= i < |a| && 0 <= j < |a| ==> (a[i] == a[j] <==> b[i] == b[j])
  }

  /** Same pattern, same first occurrences. */
  lemma PatternFirst<V, W>(a: seq<V>, b: seq<W>, i: nat)
    requires SamePattern(a, b) && i < |b| && b[i] !in b[..i]
    ensures a[i] !in a[..i]
  {
    forall j | 0 <= j < i ensures a[j] != a[i] {
      assert b[..i][j] == b[j];
    }
  }

  lemma {:induction false} PatternGivesNumbering<V, W>(a: seq<V>, b: seq<W>)
    requires SamePattern(a, b)
    ensures Numbering(a) == Numbering(b)
  {
    NumberingCanonical(a);
    var r := Numbering(a);
    forall i | 0 <= i < |b| && b[i] !in b[..i] ensures r[i] == Max(r[..i]) + 1 {
      PatternFirst(a, b, i);
    }
    assert Canonical(b, r);
    NumberingCanonical(b);
    CanonicalUnique(b, r, Numbering(b));
  }

  lemma {:induction false} NumberingGivesPattern<V, W>(a: seq<V>, b: seq<W>)
    requires Numbering(a) == Numbering(b)
    ensures SamePattern(a, b)
  {
    NumberingCanonical(a);
    NumberingCanonical(b);
  }

  /** Two sequences get the same numbering exactly when they have the same equality pattern. */
  lemma NumberingPattern<V, W>(a: seq<V>, b: seq<W>)
    ensures Numbering(a) == Numbering(b) <==> SamePattern(a, b)
  {
    if SamePattern(a, b) {
      PatternGivesNumbering(a, b);
    }
    if Numbering(a) == Numbering(b) {
      NumberingGivesPattern(a, b);
    }
  }

  /**
   * What `varseq` returns: one number per variable occurrence; equal numbers
   * exactly for equal variables; a variable met for the first time gets the
   * largest number so far plus one; so the numbers used are 1..k for the k
   * distinct variables of the term.
   */
  lemma VarSeqFacts<V, O>(t: Term<V, O>)
    ensures |VarSeqOf(t)| == LeafCount(t)
    ensures Canonical(Leaves(t), VarSeqOf(t))
    ensures forall i :: 0 <= i < |VarSeqOf(t)| ==> 1 <= VarSeqOf(t)[i] <= Max(VarSeqOf(t))
    ensures forall j :: 1 <= j <= Max(VarSeqOf(t)) ==> j in VarSeqOf(t)
    ensures Max(VarSeqOf(t)) == |set x | x in Leaves(t)|
  {
    LeavesCount(t);
    NumberingCanonical(Leaves(t));
    AssignFacts(Leaves(t));
    AssignKeys(Leaves(t));
    NumberingCovers(Leaves(t));
  }

  /** Every number up to the counter is handed out to some occurrence: no gaps. */
  lemma {:induction false} NumberingCovers<V>(ps: seq<V>)
    ensures forall j :: 1 <= j <= Counter(ps) ==> j in Numbering(ps)
    decreases |ps|
  {
    if ps != [] {
      var init, x := ps[..|ps| - 1], ps[|ps| - 1];
      NumberingCovers(init);
      assert Numbering(ps) == Numbering(init) + [Assign(ps)[x]];
      forall j | 1 <= j <= Counter(ps)
        ensures j in Numbering(ps)
      {
        if j <= Counter(init) {
          assert j in Numbering(init);
        } else {
          assert Assign(ps)[x] == j;
        }
      }
    }
  }

  // ---------------------------------------------------------------------
  // Renaming variables
  // ---------------------------------------------------------------------

  function MapSeq<V, W>(f: V -> W, s: seq<V>): (r: seq<W>)
    ensures |r| == |s| && forall i :: 0 <= i < |s| ==> r[i] == f(s[i])
  {
    seq(|s|, i requires 0 <= i < |s| => f(s[i]))
  }

  /** Apply `f` to every variable of `t`. */
  function Rename<V, W, O>(f: V -> W, t: Term<V, O>): Term<W, O>
  {
    match t
    case Variable(x) => Variable(f(x))
    case Operator(o, args) => Operator(o, RenameAll(f, args))
  }

  function RenameAll<V, W, O>(f: V -> W, ts: seq<Term<V, O>>): (r: seq<Term<W, O>>)
    ensures |r| == |ts|
  {
    if ts == [] then [] else RenameAll(f, ts[..|ts| - 1]) + [Rename(f, ts[|ts| - 1])]
  }

  ghost predicate Injective<V(!new), W>(f: V -> W)
  {
    forall x, y :: f(x) == f(y) ==> x == y
  }

  lemma {:induction false} RenameAllIndex<V, W, O>(f: V -> W, ts: seq<Term<V, O>>)
    ensures forall i :: 0 <= i < |ts| ==> RenameAll(f, ts)[i] == Rename(f, ts[i])
    decreases |ts|
  {
    if ts != [] {
      var init := ts[..|ts| - 1];
      RenameAllIndex(f, init);
    }
  }

  /** Renaming visits the same leaves in the same order. */
  lemma {:induction false} RenameLeaves<V, W, O>(f: V -> W, t: Term<V, O>)
    ensures Leaves(Rename(f, t)) == MapSeq(f, Leaves(t))
    decreases t, 1
  {
    match t
    case Variable(_) =>
    case Operator(_, args) => RenameStackLeaves(f, args);
  }

  lemma {:induction false} RenameStackLeaves<V, W, O>(f: V -> W, ts: seq<Term<V, O>>)
    ensures StackLeaves(RenameAll(f, ts)) == MapSeq(f, StackLeaves(ts))
    decreases ts, 0
  {
    if ts != [] {
      var init, last := ts[..|ts| - 1], ts[|ts| - 1];
      var rs := RenameAll(f, ts);
      assert rs[..|rs| - 1] == RenameAll(f, init) && rs[|rs| - 1] == Rename(f, last);
      RenameLeaves(f, last);
      RenameStackLeaves(f, init);
    }
  }

  /** `varseq` does not see an injective renaming of the variables. */
  lemma VarSeqRename<V(!new), W, O>(f: V -> W, t: Term<V, O>)
    requires Injective(f)
    ensures VarSeqOf(Rename(f, t)) == VarSeqOf(t)
  {
    RenameLeaves(f, t);
    var l := Leaves(t);
    assert SamePattern(MapSeq(f, l), l);
    PatternGivesNumbering(MapSeq(f, l), l);
  }

  // ---------------------------------------------------------------------
  // Operator skeletons and term equality
  // ---------------------------------------------------------------------

  /** Same operators in the same places; any variable matches any variable. */
  predicate SameSkeleton<V, W, O(==)>(s: Term<V, O>, o: Term<W, O>)
  {
    match s
    case Variable(_) => o.Variable?
    case Operator(f, fa) =>
      o.Operator? && o.op == f && |fa| == |o.args| &&
      forall i :: 0 <= i < |fa| ==> SameSkeleton(fa[i], o.args[i])
  }

  /**
   * `PartialEq for Term`: both sides well-formed, the same operator at the
   * root with the arguments pairwise equal (over the shorter of the two
   * argument lists), or two variables, and the same `varseq`.
   */
  predicate Eq<V(==), O(==)>(arity: O -> nat, s: Term<V, O>, o: Term<V, O>)
  {
    WellFormed(arity, s) && WellFormed(arity, o) &&
    (match s
     case Variable(_) => IsVar(o)
     case Operator(f, fa) =>
       match o
       case Variable(_) => false
       case Operator(g, ga) => f == g && forall i :: 0 <= i < |fa| && i < |ga| ==> Eq(arity, fa[i], ga[i])) &&
    VarSeqOf(s) == VarSeqOf(o)
  }

  /** `PartialOrd for Term` is a stub: no two terms are ordered. */
  function PartialCmp<V, O>(s: Term<V, O>, o: Term<V, O>): (r: Option<Ordering>)
    ensures r.None?
  {
    None
  }

  lemma {:induction false} SkeletonLeaves<V, W, O>(s: Term<V, O>, o: Term<W, O>)
    requires SameSkeleton(s, o)
    ensures |Leaves(s)| == |Leaves(o)|
    decreases s, 1
  {
    match s
    case Variable(_) =>
    case Operator(_, fa) => SkeletonStackLeaves(fa, o.args);
  }

  lemma {:induction false} SkeletonStackLeaves<V, W, O>(xs: seq<Term<V, O>>, ys: seq<Term<W, O>>)
    requires |xs| == |ys| && forall i :: 0 <= i < |xs| ==> SameSkeleton(xs[i], ys[i])
    ensures |StackLeaves(xs)| == |StackLeaves(ys)|
    decreases xs, 0
  {
    if xs != [] {
      var n := |xs| - 1;
      SkeletonLeaves(xs[n], ys[n]);
      SkeletonStackLeaves(xs[..n], ys[..n]);
    }
  }

  /** The leaves of argument `i` sit between those of the later and the earlier arguments. */
  lemma {:induction false} StackLeavesSplit<V, O>(ts: seq<Term<V, O>>, i: nat)
    requires i < |ts|
    ensures StackLeaves(ts) == StackLeaves(ts[i + 1..]) + Leaves(ts[i]) + StackLeaves(ts[..i])
  {
    var front, back := ts[..i] + [ts[i]], ts[i + 1..];
    assert ts == front + back;
    StackAppend(front, back);
    StackPush(ts[..i], ts[i]);
    calc {
      StackLeaves(ts);
      StackLeaves(back) + StackLeaves(front);
      StackLeaves(back) + (Leaves(ts[i]) + StackLeaves(ts[..i]));
      StackLeaves(back) + Leaves(ts[i]) + StackLeaves(ts[..i]);
    }
  }

  /** A middle slice of two sequences with the same pattern has the same pattern. */
  lemma PatternSlice<V, W>(a1: seq<V>, a2: seq<V>, a3: seq<V>, b1: seq<W>, b2: seq<W>, b3: seq<W>)
    requires |a1| == |b1| && |a2| == |b2|
    requires SamePattern(a1 + a2 + a3, b1 + b2 + b3)
    ensures SamePattern(a2, b2)
  {
    var a, b := a1 + a2 + a3, b1 + b2 + b3;
    forall i, j | 0 <= i < |a2| && 0 <= j < |a2| ensures a2[i] == a2[j] <==> b2[i] == b2[j] {
      assert a[|a1| + i] == a2[i] && a[|a1| + j] == a2[j];
      assert b[|b1| + i] == b2[i] && b[|b1| + j] == b2[j];
    }
  }

  /** Equal numberings of two argument lists of the same skeleton give equal numberings of each argument. */
  lemma ChildVarSeq<V, O>(fa: seq<Term<V, O>>, ga: seq<Term<V, O>>, i: nat)
    requires |fa| == |ga| && forall k :: 0 <= k < |fa| ==> SameSkeleton(fa[k], ga[k])
    requires Numbering(StackLeaves(fa)) == Numbering(StackLeaves(ga))
    requires i < |fa|
    ensures VarSeqOf(fa[i]) == VarSeqOf(ga[i])
  {
    StackLeavesSplit(fa, i);
    StackLeavesSplit(ga, i);
    SkeletonStackLeaves(fa[i + 1..], ga[i + 1..]);
    SkeletonLeaves(fa[i], ga[i]);
    NumberingGivesPattern(StackLeaves(fa), StackLeaves(ga));
    PatternSlice(StackLeaves(fa[i + 1..]), Leaves(fa[i]), StackLeaves(fa[..i]),
                 StackLeaves(ga[i + 1..]), Leaves(ga[i]), StackLeaves(ga[..i]));
    PatternGivesNumbering(Leaves(fa[i]), Leaves(ga[i]));
  }

  /**
   * Term equality is: both well-formed, the same operator skeleton, and the
   * same `varseq`. The recursive comparison of the arguments adds nothing.
   */
  lemma {:induction false} EqCharacterization<V, O>(arity: O -> nat, s: Term<V, O>, o: Term<V, O>)
    ensures Eq(arity, s, o) <==>
      WellFormed(arity, s) && WellFormed(arity, o) && SameSkeleton(s, o) && VarSeqOf(s) == VarSeqOf(o)
    decreases s
  {
    if WellFormed(arity, s) && WellFormed(arity, o) && s.Operator? && o.Operator? && s.op == o.op {
      var fa, ga := s.args, o.args;
      assert |fa| == |ga|;
      forall i | 0 <= i < |fa| ensures Eq(arity, fa[i], ga[i]) <==>
        WellFormed(arity, fa[i]) && WellFormed(arity, ga[i]) && SameSkeleton(fa[i], ga[i]) && VarSeqOf(fa[i]) == VarSeqOf(ga[i])
      {
        EqCharacterization(arity, fa[i], ga[i]);
      }
      if SameSkeleton(s, o) && VarSeqOf(s) == VarSeqOf(o) {
        forall i | 0 <= i < |fa| ensures VarSeqOf(fa[i]) == VarSeqOf(ga[i]) {
          ChildVarSeq(fa, ga, i);
        }
      }
    }
  }

  lemma {:induction false} SkeletonRefl<V, O>(t: Term<V, O>)
    ensures SameSkeleton(t, t)
    decreases t
  {
    match t
    case Variable(_) =>
    case Operator(_, args) =>
      forall i | 0 <= i < |args| ensures SameSkeleton(args[i], args[i]) {
        SkeletonRefl(args[i]);
      }
  }

  lemma {:induction false} SkeletonSymm<V, W, O>(s: Term<V, O>, o: Term<W, O>)
    requires SameSkeleton(s, o)
    ensures SameSkeleton(o, s)
    decreases s
  {
    match s
    case Variable(_) =>
    case Operator(_, fa) =>
      forall i | 0 <= i < |fa| ensures SameSkeleton(o.args[i], fa[i]) {
        SkeletonSymm(fa[i], o.args[i]);
      }
  }

  lemma {:induction false} SkeletonTrans<V, W, U, O>(s: Term<V, O>, o: Term<W, O>, u: Term<U, O>)
    requires SameSkeleton(s, o) && SameSkeleton(o, u)
    ensures SameSkeleton(s, u)
    decreases s
  {
    match s
    case Variable(_) =>
    case Operator(_, fa) =>
      forall i | 0 <= i < |fa| ensures SameSkeleton(fa[i], u.args[i]) {
        SkeletonTrans(fa[i], o.args[i], u.args[i]);
      }
  }

  /**
   * Term equality is reflexive exactly on well-formed terms, symmetric, and
   * transitive.
   */
  lemma EqEquivalence<V, O>(arity: O -> nat, s: Term<V, O>, o: Term<V, O>, u: Term<V, O>)
    ensures Eq(arity, s, s) <==> WellFormed(arity, s)
    ensures Eq(arity, s, o) <==> Eq(arity, o, s)
    ensures Eq(arity, s, o) && Eq(arity, o, u) ==> Eq(arity, s, u)
  {
    EqCharacterization(arity, s, s);
    EqCharacterization(arity, s, o);
    EqCharacterization(arity, o, s);
    EqCharacterization(arity, o, u);
    EqCharacterization(arity, s, u);
    SkeletonRefl(s);
    if SameSkeleton(s, o) {
      SkeletonSymm(s, o);
    }
    if SameSkeleton(o, s) {
      SkeletonSymm(o, s);
    }
    if SameSkeleton(s, o) && SameSkeleton(o, u) {
      SkeletonTrans(s, o, u);
    }
  }

  /** Renaming keeps the skeleton. */
  lemma {:induction false} RenameSkeleton<V, W, O>(f: V -> W, t: Term<V, O>)
    ensures SameSkeleton(t, Rename(f, t))
    ensures forall arity: O -> nat :: WellFormed(arity, Rename(f, t)) <==> WellFormed(arity, t)
    decreases t
  {
    match t
    case Variable(_) =>
    case Operator(_, args) =>
      RenameAllIndex(f, args);
      forall i | 0 <= i < |args|
        ensures SameSkeleton(args[i], Rename(f, args[i]))
        ensures forall arity: O -> nat :: WellFormed(arity, Rename(f, args[i])) <==> WellFormed(arity, args[i])
      {
        RenameSkeleton(f, args[i]);
      }
  }

  /** A well-formed term equals every injective renaming of itself: equality is up to renaming. */
  lemma EqUpToRenaming<V(!new), O>(arity: O -> nat, f: V -> V, t: Term<V, O>)
    requires Injective(f)
    ensures Eq(arity, t, Rename(f, t)) <==> WellFormed(arity, t)
  {
    RenameSkeleton(f, t);
    VarSeqRename(f, t);
    EqCharacterization(arity, t, Rename(f, t));
  }

  // ---------------------------------------------------------------------
  // The worked examples and the tests of src/term.rs
  // ---------------------------------------------------------------------

  /** A binary operator applied to two variables is visited right to left. */
  lemma LeavesOfPair<O>(o: O, a: string, b: string)
    ensures Leaves(Operator(o, [Variable(a), Variable(b)])) == [b, a]
  {
    var ts: seq<Term<string, O>> := [Variable(a), Variable(b)];
    assert ts[..1] == [Variable(a)] && ts[..1][..0] == [];
    assert StackLeaves(ts[..1][..0]) == [];
    assert StackLeaves(ts[..1]) == [a];
    assert StackLeaves(ts) == [b] + [a];
  }

  /** `+(x, y)` numbers `y` first: `[1, 2]` with `y` mapped to 1. */
  lemma VarSeqDistinct()
    ensures var t := Operator("+", [Variable("x"), Variable("y")]);
      VarSeqOf(t) == [1, 2] && Assign(Leaves(t))["y"] == 1
  {
    LeavesOfPair("+", "x", "y");
    NumberingStep([], "y");
    assert [] + ["y"] == ["y"];
    assert Assign(["y"]) == map["y" := 1] && Counter(["y"]) == 1 && Numbering(["y"]) == [1];
    assert "x" != "y";
    NumberingStep(["y"], "x");
    assert ["y"] + ["x"] == ["y", "x"];
    assert Assign(["y", "x"]) == map["y" := 1, "x" := 2];
  }

  /** `+(z, z)` gives `[1, 1]`. */
  lemma VarSeqRepeated()
    ensures VarSeqOf(Operator("+", [Variable("z"), Variable("z")])) == [1, 1]
  {
    LeavesOfPair("+", "z", "z");
    NumberingStep([], "z");
    assert [] + ["z"] == ["z"];
    assert Assign(["z"]) == map["z" := 1] && Numbering(["z"]) == [1];
    NumberingStep(["z"], "z");
    assert ["z"] + ["z"] == ["z", "z"];
    assert Assign(["z", "z"]) == map["z" := 1];
  }

  /** The operators of the tests in src/term.rs. */
  datatype TestOp = Mul | Id

  function TestArity(o: TestOp): nat
  {
    match o
    case Mul => 2
    case Id => 0
  }

  function M(a: string, b: string): Term<string, TestOp>
  {
    Operator(Mul, [Variable(a), Variable(b)])
  }

  /** The `well_formed` test: `x`, `x * y` and `1` are well-formed, `Mul` with one argument is not. */
  lemma WellFormedExamples()
    ensures WellFormed(TestArity, Variable("x"))
    ensures WellFormed(TestArity, M("x", "y"))
    ensures WellFormed<string, TestOp>(TestArity, Operator(Id, []))
    ensures !WellFormed(TestArity, Operator(Mul, [Variable("x")]))
    ensures !Eq(TestArity, Operator(Mul, [Variable("x")]), Operator(Mul, [Variable("x")]))
  {
  }

  lemma PairLeaves(a: string, b: string)
    ensures Leaves(M(a, b)) == [b, a]
    ensures WellFormed(TestArity, M(a, b))
    ensures SameSkeleton(M(a, b), M("a", "b"))
  {
    LeavesOfPair(Mul, a, b);
    var ts: seq<Term<string, TestOp>> := [Variable(a), Variable(b)];
    var us: seq<Term<string, TestOp>> := [Variable("a"), Variable("b")];
    forall i | 0 <= i < 2 ensures SameSkeleton(ts[i], us[i]) {
    }
  }

  /** The `eq` test: `a * b == c * d`, `a * a == b * b`, and `a * a != a * b`. */
  lemma EqExamples()
    ensures Eq(TestArity, M("a", "b"), M("c", "d"))
    ensures Eq(TestArity, M("a", "a"), M("b", "b"))
    ensures !Eq(TestArity, M("a", "a"), M("a", "b"))
  {
    PairLeaves("a", "b");
    PairLeaves("c", "d");
    PairLeaves("a", "a");
    PairLeaves("b", "b");
    SkeletonSymm(M("c", "d"), M("a", "b"));
    SkeletonSymm(M("b", "b"), M("a", "b"));
    SkeletonTrans(M("a", "b"), M("a", "b"), M("c", "d"));
    SkeletonTrans(M("a", "a"), M("a", "b"), M("b", "b"));
    PatternGivesNumbering(["b", "a"], ["d", "c"]);
    PatternGivesNumbering(["a", "a"], ["b", "b"]);
    NumberingPattern(["a", "a"], ["b", "a"]);
    assert !SamePattern(["a", "a"], ["b", "a"]) by {
      assert ["a", "a"][0] == ["a", "a"][1];
    }
    EqCharacterization(TestArity, M("a", "b"), M("c", "d"));
    EqCharacterization(TestArity, M("a", "a"), M("b", "b"));
    EqCharacterization(TestArity, M("a", "a"), M("a", "b"));
  }
}
