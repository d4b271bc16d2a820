# Knuth–Bendix term layer, modelled in Dafny

This project models the term layer of a small Knuth–Bendix completion
prover written in Rust (chrisnc/knuth-bendix). It covers four files.

- **Prefix-encoded words** (`src/word.rs`, module `Words`). A word is a flat
  sequence of symbols in Polish notation. The module models:
  - the symbol arity and weight, where every variable weighs `min_weight`;
  - the constructors `from_sym`, `var` and `op`;
  - `weight`, the occurrence count `n` and the variable set `vars`;
  - the arity-balance check `is_well_formed`;
  - the `Subwords` cursor that decodes the top-level arguments of a word.

  An operator family (the `Operator` trait) becomes a `Signature` record:
  `min_weight`, and per operator its `arity`, `weight` and `op_index`.
- **The Knuth–Bendix ordering on words** (`src/word.rs`, module `WordOrder`).
  `partial_cmp` compares weights, then per-variable occurrence counts, then
  the leading symbols. On operators with the same `op_index` it compares the
  two subword iterators lexicographically. Word equality is "compares
  Equal". The comparison is specified by the recursive function `Compare`.
  The imperative `PartialCmp` and `CompareSubwords` methods are proved to
  compute it. The lemmas about `Compare` cover duality, reflexivity,
  transitivity, domination by weight and counts, and identity of Equal
  complete terms.
- **Tree terms** (`src/term.rs`, module `Terms`). These are the recursive
  arity check, the stack-based `varseq` numbering and term equality.
  - `varseq` is proved against an independent characterisation: the unique
    first-encounter (restricted-growth) numbering of the leaves, visited in
    stack order. The proofs show it has the same equality pattern as the
    leaves, that it is unchanged by injective renaming, and that it uses
    exactly 1..k for k distinct variables.
  - Term equality is characterised as "both well-formed, same operator
    skeleton, same `varseq`". It is an equivalence on well-formed terms and
    holds up to renaming.
- **Concrete signatures** (`src/sum.rs`, module `Sums`; `src/prod.rs`, module
  `Products`).
  - The `Zero/Negate/Add` signature with its constructors, and the outcomes
    its tests assert.
  - The draft product operator with its own term shape, the three-state
    argument iterator (`Both -> Right -> Empty`), and `opeq`.

`Basics` holds `Option`, `Ordering` with its `Reverse`, the swap `Flip`, and two small sequence facts.

## Model

| member | source | states |
|---|---|---|
| Words.SymbolAlone | src/word.rs:23-46 | `Symbol::arity` and `Symbol::weight`: a variable takes no arguments and weighs `min_weight`; a one-symbol word weighs what its symbol weighs, and passes the balance check (and is a complete term) exactly when the symbol's arity is 0 |
| Words.FromSym | src/word.rs:54-56 | the word is exactly the one symbol |
| Words.VarWord | src/word.rs:58-60 | the word is exactly the one variable symbol |
| Words.MakeOp | src/word.rs:62-68 | the extend loop yields the operator symbol followed by all argument symbols in order, with no arity check |
| Words.OpWeight | src/word.rs:70-72 | weight of `op(o, args)` is `o.weight` plus the sum of the argument weights |
| Words.OpCount | src/word.rs:74-77 | `n(v)` of `op(o, args)` is the sum of the arguments' counts of `v` |
| Words.OpVars | src/word.rs:79-88 | `vars` of `op(o, args)` is the union of the arguments' variable sets |
| Words.VarsCount | src/word.rs:74-88 | a variable is in `vars` exactly when `n` counts it at least once |
| Words.IsWellFormed | src/word.rs:90-96 | the accumulator loop returns true iff `1 + sum(arity - 1) == 0` over all symbols |
| Words.VarWellFormed | src/word.rs:58-60 | `var(x)` passes the balance check and is a complete term |
| Words.OpWellFormed | src/word.rs:62-68 | over well-formed arguments, `op(o, args)` passes the balance check iff `|args| == arity(o)` |
| Words.CheckTerm | src/word.rs:90-96 | corrected check: the balance loop with the prefix condition returns true iff the word encodes exactly one term |
| Words.TermWellFormed | src/word.rs:90-96 | a complete term passes the balance check and is non-empty |
| Words.OpIsTerm | src/word.rs:62-68 | over complete-term arguments, `op(o, args)` is a complete term iff `|args| == arity(o)` |
| Words.Subwords | src/word.rs:98-104 | every decoded argument is non-empty and strictly shorter than the word, and together they fit inside it |
| Words.SubwordIter.constructor | src/word.rs:98-104 | the cursor starts at position 1 with the leading symbol's arity (0 for the empty word); what it will yield is `Subwords` |
| Words.SubwordIter.Next | src/word.rs:115-131 | with no argument left it yields None and changes nothing; otherwise it decrements `nargs`, scans to where the count of missing symbols reaches 0, and yields that slice or None when the scan ran past the end; it yields the first pending argument and the rest stays pending |
| Words.DecodePastEnd | src/word.rs:125 | once the cursor is at or past the end, nothing more is yielded (no out-of-range read) |
| Words.OpSubwords | src/word.rs:98-131 | `subwords` of `op(o, args)` over complete terms with `|args| == arity(o)` yields exactly `args`, in order |
| Words.TermSubwords | src/word.rs:98-131 | a complete term led by an operator has arity-many subwords, each a complete term, and is that operator applied to them |
| Words.SubwordsOfLeaf | src/word.rs:102 | a variable or a nullary operator has no subwords |
| Words.DecodeForest | src/word.rs:115-131 | decoding a stretch that holds m complete terms yields m complete terms that concatenate back to the stretch |
| WordOrder.CheckCounts | src/word.rs:158-163 | the per-variable loop returns true iff the count test holds for every variable of either word |
| WordOrder.PartialCmp | src/word.rs:140-193 | the method computes `Compare`: heavier with at least the counts is Greater, lighter with at most the counts is Less, at equal weight and counts the leading symbols decide, otherwise None |
| WordOrder.CompareSubwords | src/word.rs:176-177 | the iterator comparison of the two subword cursors computes the lexicographic `CompareSeq` of the decoded arguments |
| WordOrder.CompareDual | src/word.rs:140-193 | `partial_cmp(b, a)` is the reverse of `partial_cmp(a, b)`, and one is None exactly when the other is |
| WordOrder.CompareSeqDual | src/word.rs:176-177 | the same duality for the lexicographic subword comparison |
| WordOrder.CompareRefl | src/word.rs:134-138 | every non-empty word compares Equal with itself; the empty word has no relation to itself |
| WordOrder.GreaterDominates | src/word.rs:148-154 | Greater implies at least the weight and at least the count of every variable |
| WordOrder.LessDominated | src/word.rs:184-191 | Less implies at most the weight and at most the count of every variable |
| WordOrder.EqualBalanced | src/word.rs:158-163 | Equal implies equal weight and equal count of every variable |
| WordOrder.HeavierIsGreater | src/word.rs:148-154 | heavier and at least every count gives Greater |
| WordOrder.LighterIsLess | src/word.rs:184-191 | lighter and at most every count gives Less |
| WordOrder.CountMismatch | src/word.rs:158-163 | equal weight with a variable counted differently gives None |
| WordOrder.VarAgainstOp | src/word.rs:164-183 | at equal weight a variable against an operator gives None in both directions (no weight-0 unary case) |
| WordOrder.LeadingVars | src/word.rs:164-171 | two words led by variables: at equal weight and counts they are Equal when the leading variables are the same and unrelated otherwise; with different leading variables they are unrelated in both directions unless the weights differ |
| WordOrder.DistinctVars | src/word.rs:158-171 | two different one-variable words have no relation (their counts already differ) |
| WordOrder.CompareTrans | src/word.rs:140-193 | Equal-or-Greater is transitive; the composite is Equal exactly when both steps are |
| WordOrder.GreaterIsStrictOrder | src/word.rs:140-193 | Greater is irreflexive, asymmetric (its converse is Less) and transitive |
| WordOrder.WordEqEquivalence | src/word.rs:134-138 | word equality is reflexive on non-empty words, symmetric and transitive |
| WordOrder.EqualIffIdentical | src/word.rs:166-181 | with an injective `op_index`, two complete terms are equal exactly when they are the same symbol sequence |
| Terms.WellFormedFlattens | src/term.rs:57-66 | a tree that passes `is_well_formed` (every operator node has exactly arity-many arguments, recursively) flattens to exactly one complete prefix word, whose subwords are the arguments' words |
| Terms.VarOrOp | src/term.rs:38-50 | every term is exactly one of `is_var` and `is_op`; `is_var` holds exactly for variables |
| Terms.PushAll | src/term.rs:86-88 | the push loop leaves the stack followed by all the arguments, left to right |
| Terms.NumberVar | src/term.rs:78-84 | one variable step keeps the output, map and counter equal to the numbering of the occurrences met so far |
| Terms.VarSeq | src/term.rs:71-93 | the stack loop returns the numbering of the leaves in stack order (last argument first) |
| Terms.NumberingCovers | src/term.rs:78-84 | every number from 1 up to the counter is handed to some occurrence, so the numbering has no gaps |
| Terms.LeavesCount | src/term.rs:71-93 | the stack traversal visits as many leaves as the term has variable occurrences |
| Terms.VarSeqFacts | src/term.rs:69-93 | one entry per occurrence; equal numbers exactly for equal variables; a new variable gets the previous maximum plus one; numbers are 1..k for k distinct variables |
| Terms.NumberingCanonical | src/term.rs:69-84 | the numbering is a first-encounter numbering of the occurrences |
| Terms.CanonicalUnique | src/term.rs:69-84 | a sequence has only one first-encounter numbering |
| Terms.AssignKeys | src/term.rs:72-84 | the map holds exactly the variables met, and their number is the counter |
| Terms.NumberingPattern | src/term.rs:69-84 | two occurrence sequences get the same numbering iff they have the same equality pattern |
| Terms.VarSeqRename | src/term.rs:69-93 | `varseq` is unchanged by an injective renaming of variables |
| Terms.PartialCmp | src/term.rs:114-119 | term comparison always returns None |
| Terms.EqCharacterization | src/term.rs:96-110 | `eq` holds iff both terms are well-formed, have the same operator skeleton and the same `varseq` |
| Terms.EqEquivalence | src/term.rs:96-110 | a term `eq`s itself exactly when it is well-formed; `eq` is symmetric and transitive |
| Terms.EqUpToRenaming | src/term.rs:96-110 | a well-formed term equals its image under any injective renaming |
| Terms.VarSeqDistinct | src/bin/varseq.rs:5-8 | `+(x, y)` numbers `y` first and gives `[1, 2]` |
| Terms.VarSeqRepeated | src/bin/varseq.rs:7-10 | `+(z, z)` gives `[1, 1]` |
| Terms.WellFormedExamples | src/term.rs:153-163 | `x`, `x * y` and `1` are well-formed; `Mul(x)` is not, so it is not equal to itself |
| Terms.EqExamples | src/term.rs:171-180 | `a*b == c*d`, `a*a == b*b` and `a*a != a*b` |
| Sums.SumWeightsAdmissible | src/sum.rs:29-49 | `min_weight` is positive; no constant is lighter than a variable; `Negate` is the only weight-0 operator, and it is unary |
| Sums.ZeroWord | src/sum.rs:83-85 | `zero()` is the single `Zero` symbol, of weight 1 |
| Sums.Negation | src/sum.rs:87-89 | `negate(w)` has the weight and variable counts of `w`, and is well-formed when `w` is |
| Sums.Plus | src/sum.rs:51-77 | `a + b` weighs one more than `a` and `b` together, counts add, and well-formed inputs give a well-formed sum |
| Sums.ConstructorsAreTerms | src/sum.rs:51-89 | `zero`, `negate` and `+` build complete terms from complete terms, and `subwords` gives the arguments back |
| Sums.VarCounts | src/sum.rs:79-81 | `var(x)` counts `x` once, nothing else, and weighs 1 |
| Sums.WellFormedExamples | src/sum.rs:148-154 | `a` and `a + 0` are well-formed |
| Sums.SubwordsExample | src/sum.rs:156-167 | `(((a + b) + c) + d) + 0` splits into its two summands |
| Sums.EqExamples | src/sum.rs:185-199 | `a+b != c+d`, `a+a != b+b`, `a+a != a+b`, `a+b == a+b` |
| Sums.PartialCmpLeaves | src/sum.rs:201-213 | `0` vs `0` and `a` vs `a` are Equal; `0` vs `a` is None both ways; `a` vs `b` is None |
| Sums.PartialCmpSums | src/sum.rs:214-219 | `0 < a+b`, `a+b < (a+b)+c`, and `a+a` vs `a+b` is None |
| Sums.NegateExamples | src/sum.rs:220-221 | the comparison as written gives None for `-c` vs `c` and for `-c` vs `--c` |
| Sums.BalanceOnlyAccepts | src/word.rs:90-96 | `[a, Negate]` and `[a, Add, b]` pass `is_well_formed` but are not terms; `[a, Negate]` compares Equal to the different word `a` |
| Products.MulTerm | src/prod.rs:44-49 | `mul` builds a `Mul` operator whose arguments are `[left, right]` |
| Products.VarTerm | src/prod.rs:51-53 | `var` builds a variable with the given name |
| Products.OneTerm | src/prod.rs:55-57 | `one` builds the nullary `One` operator, which has no arguments |
| Products.IterOf | src/prod.rs:59-64 | `iter` starts with exactly the operator's arguments to go; as many as its arity |
| Products.ArgIterOf | src/prod.rs:71-76 | `arg_iter` starts with exactly the operator's arguments to go |
| Products.IterAgree | src/prod.rs:59-76 | `iter` and `arg_iter` give the same starting state for every operator |
| Products.Step | src/prod.rs:28-40 | one step yields the first remaining argument and leaves the rest; with nothing left it yields None and stays empty |
| Products.Iter.Next | src/prod.rs:28-40 | `next` overwrites the state as `Step` says: the first remaining argument is yielded and the rest remain; an empty iterator yields None and stays empty |
| Products.MulYieldsBoth | src/prod.rs:31-38 | from `Mul{left, right}` the iterator yields `left`, `right`, then None for good |
| Products.OneYieldsNothing | src/prod.rs:30 | from `One` the iterator yields nothing |
| Products.OpEqProperties | src/prod.rs:78-84 | `opeq` holds iff both operators have the same arity (both `One` or both `Mul`); it is reflexive, symmetric and transitive |

## Left out

- Display and formatting code in every file. It writes through a formatter, and nothing asserts its output.
- `subst`, `unify`, `critical_term`, `print_subs` and completion. The `sum.rs` tests call them, but none of `word.rs`, `term.rs`, `sum.rs`, `prod.rs` defines them.
- `src/relation.rs` is not part of this model: it is entirely commented out.
- The `prod.rs` `eq` test is left out. It relies on a `Term` and an equality for the draft product operator that are not defined anywhere.
- The common-subterm search is left out. It exists only as a TODO (`src/word.rs:204`).
- The special case for a weight-0 unary operator is not modelled: the code marks it TODO (`src/word.rs:164`).
  - The last two assertions of the `sum.rs` `partial_cmp` test expect `-c > c` and `-c < --c`.
  - The code as written gives None for both, and `Sums.NegateExamples` proves that.
  - The model follows the code.
- `Sums.SumIndex`: the `Sum` operator supplies no `op_index`, which the operator interface requires. The model takes the declaration order `Zero < Negate < Add`. No result stated about `Sum` depends on this choice.
- Integer widths are not modelled. `u64` weights, the `usize` counts and cursor, the `isize` balance and the `u32` numbering are all unbounded integers. None of the source's arithmetic is meant to wrap.
- `BTreeSet` and `BTreeMap` are modelled as `set` and `map`. Their iteration order is not observable in any result.
- Borrowing and laziness are not modelled.
  - The iterators hold references in the source. Here they hold values: `SubwordIter` keeps the word as a constant field, and `Products.Iter` keeps the argument terms.
  - The iterator protocol is modelled only through `next`.
- `Products.ArgIterOf` repeats the body of `Products.IterOf`, as the source does.
- `Words.Subwords`: the iterator's ghost `Pending` sequence, and the `Subwords` and `Decode` functions behind it, describe what the cursor yields until its first None. Calls to `next` after a None are described only by `Words.SubwordIter.Next`'s own postcondition.

## Findings

| source | as written | input that shows it | evidently intended | confidence | as-written member | corrected member |
|---|---|---|---|---|---|---|
| src/word.rs:90-96 | `is_well_formed` checks only the total balance `1 + sum(arity - 1) == 0` | in the `Sum` signature, `[a, Negate]` (a dangling unary operator after a variable) and `[a, Add, b]` both pass; `[a, Negate]` then compares Equal to the different word `a` | a word is well-formed when it encodes exactly one term: the running count of missing symbols stays positive until the last symbol | not executed | Sums.BalanceOnlyAccepts | Words.CheckTerm |

The corrected predicate `IsTerm` is what the subword and equality results
rely on:
- `Words.OpIsTerm` and `Words.TermSubwords` show that complete terms are
  exactly operators over arity-many complete terms;
- `Words.OpSubwords` shows that `subwords` gives the arguments back;
- `WordOrder.EqualIffIdentical` shows that, with an injective `op_index`,
  word equality on complete terms is identity.
