# ProofDroid reasoning core in Dafny

ProofDroid is an interactive proof assistant. Its core represents first-order
formulas and terms as trees and works on them in four steps:

- it unifies two trees under a substitution (`unify.js`);
- it renames clashing variables and applies substitutions (`node_helper.js`, `moves.js`);
- it runs the inference moves: modus ponens, universal specification and negation (`moves.js`, `node_helper.js`);
- it renders formulas in identifier, Unicode and Polish notation (`strings.js`).

This project models that core and proves properties of the model. It has six modules:

- `Wrappers` (`wrappers.dfy`): `Option` and `Result`.
- `NodeHelper` (`node_helper.dfy`) covers `node_helper.js`:
  - the `Node` tree and the node constructors;
  - `is_term`, `bind_var`, `unbind_variable` and `universal_specification`;
  - `negate_formula`, with a classical semantics under which it is proved to be a negation;
  - `vars_used`, modelled as methods over an insertion-ordered set;
  - `lists_merge`.
- `Renaming` (`renaming.dfy`) covers `vars_rename` and its `newName` closure:
  - the `(.*)_(\d+)$` suffix split and the decimal numerals;
  - the probe loop;
  - a rename map and an in-use list threaded through the walk.

  The walk is written as methods, and each method is proved equal to a
  specification function.
- `Unify` (`unify.dfy`) covers `unify.js`:
  - `unify`, `unify_var`, `unify_metavar`, `unify_lists`, `extend_subst` and `clone_subst`, as mutually recursive functions;
  - `unify_sets`, as a method with its two passes of nested loops, proved equal to a specification function.
- `Soundness` (`soundness.dfy`) relates `unify` to `substitution`. Take the
  trees where `unify` compares only what `substitution` rewrites. There,
  applying a unifier to both sides gives one tree whenever both applications
  complete. The module also exhibits the two ways the code breaks this
  elsewhere. Completion is a real condition: a unifier can bind a variable to
  itself, and then no application that reaches it completes (see below).
- `Moves` (`moves.dfy`) covers `moves.js`:
  - `intersect` and `substitution`;
  - `modus_ponens`, as a method following the source's step sequence and proved equal to a specification function.
- `Printer` (`strings.dfy`) covers `strings.js`. The printer walks its own node
  schema (Predicate, Function, Negation, BinaryConnective and so on, each carrying
  its display forms, precedence and associativity), so it has its own datatype.

Two of the source's recursions need not terminate:

- `unify` goes through existing bindings (`unify.js:56`, `58`, `67`);
- `substitution` follows chained bindings (`moves.js:15`).

There are two causes:

- There is no occurs check, so `{x: f(x)}` can arise.
- Neither `unify_var` (`unify.js:54-62`) nor `unify_metavar` (`unify.js:65-71`)
  tests whether the node met is the variable itself. So whenever `unify` meets
  an unbound free variable or metavariable against itself, it binds it to
  itself (`Unify.UnifyBindsItself`). `applySubst` then follows that variable to
  itself for ever (`Moves.SelfBindingDiverges`).

  A repeated pattern variable that meets the same free variable at both places
  is one such case. `unify(R(x, x), R(a, a), {})` returns `{x: a, a: a}`
  (`Moves.UnifyBindsSelf`), and `modus_ponens(R(x, x) -> S(x), R(a, a))` has no
  answer (`Moves.ModusPonensSelfBound`). Against two different variables there
  is no self-binding: `unify(R(x, x), R(a, b), {})` returns `{x: a, a: b}`, and
  `S(x)` resolves to `S(b)` (`Moves.UnifyChainsDistinct`).

Both take a `fuel` bound in the model. `Outcome` tells the source's `null`
(`Fail`) apart from running out of fuel (`Exhausted`). The fuel-monotonicity
lemmas show that `Exhausted` stands only for a recursion deeper than the bound.

The repository's design description and its code differ in a few places. The
model follows the code:

- **Set unification tries all candidates.** Both passes try every candidate,
  claimed or not. So `{a}` against `{b, c}` succeeds, binding both `b` and `c` to
  `a` (`Unify.SetOneAgainstTwo`). `{a, b}` against `{b, a}`, with free variables,
  fails (`Unify.SetSwappedPairFails`).
- **Substitution ignores scope.** `substitution` rewrites a Quantifier's own
  binder and every Variable with a mapped name, whether it is bound or not. It
  does not descend into Sets (`Soundness.SetsBreakSoundness`).
- **Parentheses ignore associativity.** `parenthesize` wraps a child of equal
  precedence whatever its associativity. Both of its equal-precedence branches and
  its fallback wrap (`Printer.ParenthesizeSpec`, `Printer.ConjunctionChains`).
- **Modus ponens only accepts `implies`.** It has no `iff` reading.
- **A larger precedence number binds tighter.** The design reads a smaller
  number as binding tighter. In `precedence.js:2-9` `neg`
  and the quantifiers have 0, `wedge` and `vee` 3, `implies` and `iff` 4.
  `parenthesize` leaves a child bare when its precedence number is strictly
  larger than the parent's (`strings.js:63`), which is the opposite of that
  reading. So `¬` applied to `A ∧ B` prints as `¬A ∧ B`, and `(¬A) ∧ B` keeps its
  parentheses (`Printer.PrecedenceDirection`).

## Model

| member | source | states |
|---|---|---|
| `NodeHelper.JsSlice` | node_helper.js:16-42 | `slice(0, count)` yields a prefix of the arguments: `count` elements when there are enough, fewer when there are not; a negative count drops that many from the end |
| `NodeHelper.InsertAll` | node_helper.js:79-83 | adding names to an insertion-ordered set keeps what was there as a prefix, holds exactly the old and new names, and never duplicates |
| `NodeHelper.InsertAllAppend` | node_helper.js:81-99 | collecting a concatenation is collecting one part, then the other into the result |
| `NodeHelper.DedupOrder` | node_helper.js:102 | `Array.from(new Set(xs))` lists every element of `xs` exactly once, in order of first occurrence |
| `NodeHelper.ListsMerge` | node_helper.js:158-160 | the merged list holds each name of either list once and none other, ordered by first occurrence in list1 then list2 |
| `NodeHelper.VarsUsed` | node_helper.js:78-103 | returns each name occurring as a Variable or a Quantifier binder exactly once, and no other name |
| `NodeHelper.Collect` | node_helper.js:81-99 | the recursive `collect` adds the tree's occurrences, in visiting order, to the set |
| `NodeHelper.CollectAll` | node_helper.js:85-89 | `forEach(collect)` adds the children's occurrences left to right |
| `NodeHelper.BindVarSpec` | node_helper.js:45-63 | `bind_var` sets the bound flag of exactly the occurrences of the binder's name outside Sets, and leaves every other flag, every name and the shape as they were; afterwards no such occurrence is free; unbinding afterwards is the same as unbinding the original; a binder without a name changes nothing |
| `NodeHelper.UnbindVariableSpec` | node_helper.js:180-235 | occurrence by occurrence, a Variable of the name loses its bound flag and every other occurrence keeps its own; names and shape are unchanged; no bound Variable of the name is left; a tree with no bound occurrence comes back equal |
| `NodeHelper.UniversalSpecificationSpec` | node_helper.js:162-177 | on `forall x. body` the result is the body with every occurrence of `x` made free and every other occurrence's flag, every name and the shape unchanged; with a nameless binder it is the body itself; any other node is returned as it is |
| `NodeHelper.FlagContractsDetermine` | node_helper.js:45-63 | the flag-by-flag contracts of `bind_var` and `unbind_variable` are complete: a tree of the same shape and names whose flags they describe is that function's result |
| `NodeHelper.NegateInvolution` | node_helper.js:237-274 | negating twice gives the formula back when no `neg` lies on the spine it rewrites |
| `NodeHelper.NegateSound` | node_helper.js:237-274 | in every classical interpretation the negated formula holds exactly when the formula does not |
| `Renaming.ParseNatToString` | node_helper.js:119-122 | `parseInt` of a printed number `${num}` gives the number back |
| `Renaming.LineStart` | node_helper.js:116 | the regex's `(.*)` cannot cross a line terminator: the first group starts after the last one |
| `Renaming.LastUnderscore` | node_helper.js:116 | the `_` before the numeric suffix is the last underscore of the name |
| `Renaming.SplitCandidate` | node_helper.js:113-122 | a generated name `base_n` splits back into its base and `n`, so renaming a renamed name continues from its number |
| `Renaming.CandidateInjective` | node_helper.js:122-126 | different numbers give different candidate names, so the probe loop meets a new candidate at every step |
| `Renaming.NextFree` | node_helper.js:122-126 | the probe stops at the first number at or after the start whose candidate is free; every number skipped was taken |
| `Renaming.FreshName` | node_helper.js:113-129 | the chosen name has the form `base_n` with `n` at least the original suffix (0 if none), is outside `inUse` and the map's keys, and is the first such |
| `Renaming.NewNameSpec` | node_helper.js:108-131 | a name already mapped returns its mapping and changes nothing; otherwise the new name is absent from `inUse` and the map, is recorded, and is appended to `inUse` |
| `Renaming.NewNameValid` | node_helper.js:108-131 | choosing a name keeps the call's invariant: `inUse` only grows, chosen names were not initially in use, no two names share a new name |
| `Renaming.RenameBinderSpec` | node_helper.js:142-145 | a Quantifier binder in `needRename` gets the same new name as the Variables |
| `Renaming.RenameNodeSpec` | node_helper.js:133-155 | every occurrence and binder in `needRename` is renamed through one map for the whole call; other names, flags, Consts and the tree's shape are untouched; the invariant is kept |
| `Renaming.RenameListSpec` | node_helper.js:137-141 | the same over a list of children walked left to right |
| `Renaming.RenameShape` | node_helper.js:133-155 | renaming changes names only: with every Variable name and binder name blanked, the renamed tree is the original, with its flags and Consts |
| `Renaming.RenameNodeNothing` | node_helper.js:133-155 | with nothing to rename the walk changes neither the tree nor the map nor `inUse` |
| `Renaming.VarsRenamedFresh` | node_helper.js:105-156 | after `vars_rename` each name is an original name outside `needRename` or a new name that was not in `inUse` and now is; `inUse` only grows |
| `Renaming.Probe` | node_helper.js:122-126 | the `while` loop ends at the candidate of `NextFree` |
| `Renaming.NewName` | node_helper.js:108-131 | the closure `newName` returns and records what `NewNameSpec` says |
| `Renaming.Rename` | node_helper.js:133-153 | the recursive `rename` produces the tree and state of `RenameNode` |
| `Renaming.RenameAll` | node_helper.js:137-141 | `forEach(rename)` over children produces those of `RenameList` |
| `Renaming.VarsRename` | node_helper.js:105-156 | `vars_rename` yields the renamed tree and the extended `inUse` of `VarsRenamed` |
| `Unify.ExtendSubst` | unify.js:133-137 | the copy binds `v`'s name to `x`, keeps every other binding, and extends the input when the name was absent |
| `Unify.Unify` | unify.js:10-38 | every successful result contains every binding of the input substitution unchanged |
| `Unify.UnifyVar` | unify.js:54-62 | likewise for a variable against a term |
| `Unify.UnifyMetavar` | unify.js:65-71 | likewise for a metavariable against any node |
| `Unify.UnifyLists` | unify.js:41-51 | likewise for pairwise list unification |
| `Unify.MetavarFirst` | unify.js:11-14 | a metavariable on either side, `x` first, is handled before anything else: a bound one unifies its value with the other side, an unbound one is bound to the other side whatever it is |
| `Unify.FreeVariableNeedsTerm` | unify.js:15-18 | a free Variable against a Const or a formula node yields `null`, on either side |
| `Unify.FreeVariableTakesTerms` | node_helper.js:65-76 | under an empty substitution a free Variable unifies with a non-metavariable node exactly when `is_term` holds of it (Variable, Application, Tuple or Set), and is then bound to it |
| `Unify.UnifyBindsItself` | unify.js:54-71 | an unbound free Variable or a metavariable met against itself under the empty substitution is bound to itself |
| `Unify.RigidMismatchFails` | unify.js:19-37 | with no free variable or metavariable on either side, different node types never unify, and neither do two Quantifiers |
| `Unify.EqualLeavesUnify` | unify.js:20-23 | equal-named bound Variables and equal-named Consts return the substitution unchanged |
| `Unify.CompoundShapesAgree` | unify.js:24-35 | success needs equal symbol names and argument counts for Applications, equal lengths for Tuples, equal names for connectives |
| `Unify.UnifyListsAppend` | unify.js:41-51 | list unification threads the substitution left to right and stops at the first failure |
| `Unify.ConnectiveAsPair` | unify.js:30-32 | two LogicalBinary nodes with the same name unify as the list of their sides: left first, then right under the result |
| `Unify.ScanFrom` | unify.js:82-92 | a scan's single match is a later candidate whose unification extends the substitution |
| `Unify.FirstPass` | unify.js:80-98 | the first pass never fails; it only adds claims and bindings, and claims only valid indices |
| `Unify.SecondPass` | unify.js:101-122 | when the second pass finishes, every `ys` index from its start on is claimed |
| `Unify.SetClaims` | unify.js:74-122 | after both passes the substitution extends the input and all claims are valid indices |
| `Unify.SetMatch` | unify.js:74-130 | a successful set unification extends the input substitution |
| `Unify.ScanAll` | unify.js:82-92 | the inner `for` loop with its `break` computes the scan `ScanFrom` describes |
| `Unify.UnifySets` | unify.js:74-130 | the nested loops with their early returns compute `SetMatch` |
| `Unify.ScanSpec` | unify.js:82-92 | a scan answers by the number of candidates that unify: none exactly when there are none, the unique one with its substitution, or two distinct ones |
| `Unify.SetMatchSpec` | unify.js:124-129 | set unification succeeds exactly when both passes finish and every index of `xs` and `ys` is claimed; the second pass alone claims all of `ys` |
| `Unify.SetOneAgainstTwo` | unify.js:74-130 | `{a}` against `{b, c}` succeeds with `b` and `c` both bound to `a` |
| `Unify.SetSwappedPairFails` | unify.js:74-130 | `{a, b}` against `{b, a}` with free variables yields `null` |
| `Unify.UnifyFuelMonotone` | unify.js:10-71 | an answer reached under some fuel is the answer under all larger fuel |
| `Soundness.SubstituteCompose` | moves.js:12-48 | applying a substitution and then one extending it is applying the extension alone, whenever both complete |
| `Soundness.UnifySound` | unify.js:10-71 | on trees without Sets and with one symbol node per name, a successful `unify` returns a substitution under which `substitution` makes the two sides equal whenever both applications complete, and every binding stays on such trees; on a self-binding such as `{a: a}` no application reaching `a` completes, so the statement is empty there |
| `Soundness.UnifierMakesEqual` | unify.js:10-38 | `unify(x, y, {})` on such trees: applying the result to `x` and to `y` gives the same tree whenever both complete |
| `Soundness.SetsBreakSoundness` | unify.js:74-130 | `{x}` against `{y}` binds `x` to `y`, yet `substitution` leaves both Sets as they are, and they differ |
| `Soundness.SymbolsBreakSoundness` | unify.js:24-25 | a Const symbol and an operator symbol of the same name unify under the empty substitution, yet the trees differ |
| `Moves.Intersect` | moves.js:7-9 | keeps exactly the elements of the first list that occur in the second |
| `Moves.IntersectAppend` | moves.js:7-9 | filtering distributes over concatenation, so kept elements stay in the first list's order |
| `Moves.IntersectNoDups` | moves.js:7-9 | a duplicate-free list stays duplicate-free |
| `Moves.SubstituteFixes` | moves.js:12-48 | a tree with no mapped Variable where `applySubst` looks comes back unchanged |
| `Moves.SubstituteEmpty` | moves.js:12-48 | `substitution(f, {})` is structurally `f` |
| `Moves.SubstituteResolves` | moves.js:13-45 | a completed substitution leaves no mapped Variable where `applySubst` looks |
| `Moves.SubstituteIdempotent` | moves.js:12-48 | substituting the result again changes nothing |
| `Moves.SubstituteFuelMonotone` | moves.js:14-15 | a substitution completed under some fuel is the same under all larger fuel |
| `Moves.RenamedCopy` | moves.js:58-73 | the renamed copy of an implication is still an implication |
| `Moves.ModusPonens` | moves.js:51-88 | the step sequence (copy, `vars_used`, `lists_merge`, `intersect`, `vars_rename`, `unify`, `substitution`) computes `ModusPonensSpec` |
| `Moves.RenamedApart` | moves.js:65-73 | after renaming, the copy shares no name with `formula`: each name is an unshared original or a new name outside the merged in-use list |
| `Moves.ModusPonensResult` | moves.js:53-87 | the result is `null` exactly when the argument is no `implies` node or the renamed antecedent does not unify with `formula`; a result has no Variable left that the unifier binds where `applySubst` looks (not inside Sets) |
| `Moves.ModusPonensFuel` | moves.js:76-87 | an answer reached under some fuel is the answer under all larger fuel |
| `Moves.ModusPonensOnVariable` | moves.js:51-88 | `P(x) -> Q(x)` applied to `P(c)` with `c` a Variable gives `Q(c)` |
| `Moves.ModusPonensOnConst` | moves.js:51-88 | `P(x) -> Q(x)` applied to `P(c)` with `c` a Const gives `null`, since a Const is not a term |
| `Moves.ModusPonensRenamesClash` | moves.js:51-88 | against the caller's own `P(x)`, the implication's `x` is renamed to `x_0` before unifying, and the result is `Q(x)` with the caller's `x` |
| `Moves.ClashingCopy` | moves.js:65-73 | in that case both occurrences of the implication's `x` become `x_0` |
| `Moves.NoClashNoRename` | moves.js:58-73 | when the two formulas share no name, the renamed copy is the implication itself |
| `Moves.UnifyBindsSelf` | unify.js:54-62 | `unify(R(x, x), R(a, a), {})` returns `{x: a, a: a}`: the second pair binds `a` to itself |
| `Moves.SelfBindingDiverges` | moves.js:14-15 | the substitution of a Variable bound to itself completes under no fuel |
| `Moves.SelfBoundDiverges` | moves.js:14-15 | under `{x: a, a: a}` the substitution of `a` and of `x` completes under no fuel |
| `Moves.ModusPonensSelfBound` | moves.js:51-88 | `modus_ponens(R(x, x) -> S(x), R(a, a))` has no answer under any fuel |
| `Moves.UnifyChainsDistinct` | unify.js:54-62 | `unify(R(x, x), R(a, b), {})` returns `{x: a, a: b}`, with no self-binding, and `S(x)` then resolves to `S(b)` |
| `Printer.ParenthesizeSpec` | strings.js:59-73 | the output is the child's rendering, bare exactly when the child is a Variable, Predicate, Function, Set or Tuple or has a strictly larger precedence number than the parent, and in `(…)` otherwise; errors pass through |
| `Printer.PrecedenceDirection` | strings.js:59-73 | with `neg` at 0 and `wedge` at 3, `¬` over `A ∧ B` prints `¬A ∧ B` and `(¬A) ∧ B` keeps its parentheses |
| `Printer.InfixBalanced` | strings.js:13-34 | the infix rendering opens as many parentheses as it closes |
| `Printer.ParenthesizeBalanced` | strings.js:59-73 | the same for a parenthesized child |
| `Printer.PolishParenFree` | strings.js:36-57 | Polish notation adds no parentheses: without Tuples the output has none |
| `Printer.RenderErrors` | strings.js:31-55 | both renderers fail exactly on trees holding an unhandled node type, with "Unknown node type: " and the first such type |
| `Printer.FieldOnlySelectsForms` | strings.js:1-11 | `str_repr` and `str_unicode` differ only through display forms: where the forms agree, so do the outputs |
| `Printer.ConjunctionChains` | strings.js:1-73 | `(A ∧ B) ∧ C` and `A ∧ (B ∧ C)` are both wrapped; Polish gives `∧ ∧ A B C`; `str_repr` prints `A \wedge B` |

## Left out

- Termination: `unify`, `substitution` and `modus_ponens` take a `fuel` bound. The source recurses without bound on a cyclic substitution and overflows its stack; the model answers `Exhausted` or `None` there. Such a substitution arises in two ways: from the missing occurs check (`{x: f(x)}`), and from the missing test in `unify_var` and `unify_metavar` for a variable met against itself (`{a: a}`, `Unify.UnifyBindsItself`, `Moves.UnifyBindsSelf`).
- Update in place and aliasing: `bind_var` and `vars_rename` mutate nodes, and `vars_used` fills a mutable `Set`. The model returns the updated tree or list as a value. A node object shared between two places of a JS tree is not modelled.
- `deep_copy` is imported by `moves.js:3` but node_helper.js neither defines nor exports it (its export list is at `node_helper.js:276`). The model takes it to be a structural copy, which for a value is the value itself.
- `clone_subst` is the value itself: nothing is shared in a value, so a copy can be neither told apart nor mutated.
- `Unify.UnifyVar`: the lookup of `x.name` in the substitution is made only when `x` is a Variable. The other terms have no `name`, and JS would look up the key `"undefined"`.
- JS objects as maps: `in` and `subst[name]` also see inherited keys such as `"constructor"`. The model's substitutions are plain maps.
- `Renaming.ParseNatToString`: `parseInt` loses precision beyond 2^53. The model's numbers are unbounded.
- A Quantifier binder without a `name` adds `undefined` to `vars_used`; in the model it adds nothing.
- `Unify.Unify`: the result does not make both sides equal in general. `unify_sets` binds inside Sets where `substitution` does not look (`Soundness.SetsBreakSoundness`), and Application symbols are compared by name alone (`Soundness.SymbolsBreakSoundness`). Soundness is proved only on trees with neither (`Soundness.UnifySound`), and only for applications of the result that complete within their fuel. Those that reach a self-binding never complete (`Moves.SelfBindingDiverges`).
- The design's claim that `unify(x, y)` and `unify(y, x)` agree is not proved. The two orders bind different sides, so the pairs after the first continue from different substitutions. Stating the claim needs equivalence of substitutions up to the choice of bound side, which the model does not define.
- `Unify.UnifyLists` requires equal lengths. Every caller checks this first; with unequal lengths the source would read `undefined`.
- Strings are sequences of Dafny characters, not UTF-16 code units.
- The printer takes a field name as a string and reads `node[field]`. The model has exactly the two fields the wrappers use, `identifier` and `unicode`. Any other node type is `Other(type)`, and the thrown error is an `Err` carrying its message.
- interface_helper.js (browser caret handling), list_files.js (network fetch) and context.js (a global mutable holder) are not part of this model.
- precedence.js is not part of this model. The printer reads precedence and associativity from the nodes themselves.
