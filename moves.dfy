/** The inference moves (moves.js): list intersection, application of a
    substitution, and modus ponens built from renaming, unification and
    substitution. */
module Moves {
  import opened Wrappers
  import opened NodeHelper
  import opened Renaming
  import opened Unify

  // ---------------------------------------------------------------------------
  // intersect

  /** `arr1.filter(value => arr2.includes(value))`. */
  function Intersect(a: seq<string>, b: seq<string>): (r: seq<string>)
    ensures forall x :: x in r <==> x in a && x in b
    ensures |r| <= |a|
    decreases |a|
  {
    if a == [] then []
    else (if a[0] in b then [a[0]] else []) + Intersect(a[1..], b)
  }

  /** Filtering distributes over concatenation: the kept elements stay in the
      order of the first list. */
  lemma {:induction false} IntersectAppend(a1: seq<string>, a2: seq<string>, b: seq<string>)
    ensures Intersect(a1 + a2, b) == Intersect(a1, b) + Intersect(a2, b)
    decreases |a1|
  {
    if a1 == [] {
      assert a1 + a2 == a2;
    } else {
      assert (a1 + a2)[0] == a1[0];
      assert (a1 + a2)[1..] == a1[1..] + a2;
      IntersectAppend(a1[1..], a2, b);
    }
  }

  /** A list without duplicates keeps none. */
  lemma {:induction false} IntersectNoDups(a: seq<string>, b: seq<string>)
    requires NoDups(a)
    ensures NoDups(Intersect(a, b))
    decreases |a|
  {
    if a != [] {
      assert NoDups(a[1..]) by {
        forall i, j | 0 <= i < j < |a[1..]| ensures a[1..][i] != a[1..][j] {
          assert a[1..][i] == a[i + 1] && a[1..][j] == a[j + 1];
        }
      }
      IntersectNoDups(a[1..], b);
      var rest := Intersect(a[1..], b);
      assert a[0] !in a[1..] by {
        forall i | 0 <= i < |a[1..]| ensures a[1..][i] != a[0] {
          assert a[1..][i] == a[i + 1];
        }
      }
      assert a[0] !in rest;
      var r := Intersect(a, b);
      forall i, j | 0 <= i < j < |r| ensures r[i] != r[j] {
        if a[0] in b {
          assert r == [a[0]] + rest;
          if i == 0 {
            assert r[j] == rest[j - 1];
          } else {
            assert r[i] == rest[i - 1] && r[j] == rest[j - 1];
          }
        } else {
          assert r == rest;
        }
      }
    }
  }

  // ---------------------------------------------------------------------------
  // substitution

  /** `applySubst` of `substitution(formula, subst)`. A mapped Variable is
      replaced by the substitution of its image, so chained bindings are
      followed; the source has no occurs check, so a cyclic binding recurses
      forever: each chained lookup spends one unit of `fuel`, and `None` means
      the fuel ran out. Application arguments, Tuple elements, both parts of a
      Quantifier (its binder included), and the subformulas of connectives are
      rewritten; every other node, Sets included, is returned as it is. */
  function Substitute(n: Node, s: Subst, fuel: nat): (r: Option<Node>)
    decreases fuel, n
  {
    match n
    case Variable(x, _, _) =>
      if x in s then
        (if fuel == 0 then None else Substitute(s[x], s, fuel - 1))
      else Some(n)
    case Application(f, args) =>
      (match SubstituteAll(args, s, fuel)
       case Some(args') => Some(Application(f, args'))
       case None => None)
    case Tuple(es) =>
      (match SubstituteAll(es, s, fuel)
       case Some(es') => Some(Tuple(es'))
       case None => None)
    case Quantifier(v, body, q) =>
      (match Substitute(v, s, fuel)
       case Some(v') =>
         (match Substitute(body, s, fuel)
          case Some(body') => Some(Quantifier(v', body', q))
          case None => None)
       case None => None)
    case LogicalUnary(body, op) =>
      (match Substitute(body, s, fuel)
       case Some(body') => Some(LogicalUnary(body', op))
       case None => None)
    case LogicalBinary(l, r, op) =>
      (match Substitute(l, s, fuel)
       case Some(l') =>
         (match Substitute(r, s, fuel)
          case Some(r') => Some(LogicalBinary(l', r', op))
          case None => None)
       case None => None)
    case _ => Some(n)
  }

  /** `.map(applySubst)` over a list of children. */
  function SubstituteAll(ns: seq<Node>, s: Subst, fuel: nat): (r: Option<seq<Node>>)
    ensures r.Some? ==> |r.value| == |ns|
    decreases fuel, ns
  {
    if ns == [] then Some([])
    else
      match Substitute(ns[0], s, fuel)
      case Some(m) =>
        (match SubstituteAll(ns[1..], s, fuel)
         case Some(ms) => Some([m] + ms)
         case None => None)
      case None => None
  }

  /** No Variable that `applySubst` would visit is a key of `s`. */
  predicate Resolved(n: Node, s: Subst)
    decreases n
  {
    match n
    case Variable(x, _, _) => x !in s
    case Application(_, args) => ResolvedAll(args, s)
    case Tuple(es) => ResolvedAll(es, s)
    case Quantifier(v, body, _) => Resolved(v, s) && Resolved(body, s)
    case LogicalUnary(body, _) => Resolved(body, s)
    case LogicalBinary(l, r, _) => Resolved(l, s) && Resolved(r, s)
    case _ => true
  }

  predicate ResolvedAll(ns: seq<Node>, s: Subst)
    decreases ns
  {
    ns == [] || (Resolved(ns[0], s) && ResolvedAll(ns[1..], s))
  }

  /** A tree with nothing left to replace is returned unchanged. */
  lemma {:induction false} SubstituteFixes(n: Node, s: Subst, fuel: nat)
    requires Resolved(n, s)
    ensures Substitute(n, s, fuel) == Some(n)
    decreases n
  {
    match n
    case Variable(_, _, _) =>
    case Application(_, args) => SubstituteAllFixes(args, s, fuel);
    case Tuple(es) => SubstituteAllFixes(es, s, fuel);
    case Quantifier(v, body, _) =>
      SubstituteFixes(v, s, fuel);
      SubstituteFixes(body, s, fuel);
    case LogicalUnary(body, _) => SubstituteFixes(body, s, fuel);
    case LogicalBinary(l, r, _) =>
      SubstituteFixes(l, s, fuel);
      SubstituteFixes(r, s, fuel);
    case _ =>
  }

  lemma {:induction false} SubstituteAllFixes(ns: seq<Node>, s: Subst, fuel: nat)
    requires ResolvedAll(ns, s)
    ensures SubstituteAll(ns, s, fuel) == Some(ns)
    decreases ns
  {
    if ns != [] {
      SubstituteFixes(ns[0], s, fuel);
      SubstituteAllFixes(ns[1..], s, fuel);
      assert [ns[0]] + ns[1..] == ns;
    }
  }

  /** Under the empty map every tree is resolved. */
  lemma {:induction false} ResolvedEmpty(n: Node)
    ensures Resolved(n, map[])
    decreases n
  {
    match n
    case Application(_, args) => ResolvedAllEmpty(args);
    case Tuple(es) => ResolvedAllEmpty(es);
    case Quantifier(v, body, _) =>
      ResolvedEmpty(v);
      ResolvedEmpty(body);
    case LogicalUnary(body, _) => ResolvedEmpty(body);
    case LogicalBinary(l, r, _) =>
      ResolvedEmpty(l);
      ResolvedEmpty(r);
    case _ =>
  }

  lemma {:induction false} ResolvedAllEmpty(ns: seq<Node>)
    ensures ResolvedAll(ns, map[])
    decreases ns
  {
    if ns != [] {
      ResolvedEmpty(ns[0]);
      ResolvedAllEmpty(ns[1..]);
    }
  }

  /** `substitution(f, {})` is structurally `f`, whatever the fuel. */
  lemma SubstituteEmpty(n: Node, fuel: nat)
    ensures Substitute(n, map[], fuel) == Some(n)
  {
    ResolvedEmpty(n);
    SubstituteFixes(n, map[], fuel);
  }

  /** A completed substitution leaves no mapped Variable where `applySubst`
      would look. */
  lemma {:induction false} SubstituteResolves(n: Node, s: Subst, fuel: nat)
    requires Substitute(n, s, fuel).Some?
    ensures Resolved(Substitute(n, s, fuel).value, s)
    decreases fuel, n
  {
    match n
    case Variable(x, _, _) =>
      if x in s {
        SubstituteResolves(s[x], s, fuel - 1);
      }
    case Application(_, args) => SubstituteAllResolves(args, s, fuel);
    case Tuple(es) => SubstituteAllResolves(es, s, fuel);
    case Quantifier(v, body, _) =>
      SubstituteResolves(v, s, fuel);
      SubstituteResolves(body, s, fuel);
    case LogicalUnary(body, _) => SubstituteResolves(body, s, fuel);
    case LogicalBinary(l, r, _) =>
      SubstituteResolves(l, s, fuel);
      SubstituteResolves(r, s, fuel);
    case _ =>
  }

  lemma {:induction false} SubstituteAllResolves(ns: seq<Node>, s: Subst, fuel: nat)
    requires SubstituteAll(ns, s, fuel).Some?
    ensures ResolvedAll(SubstituteAll(ns, s, fuel).value, s)
    decreases fuel, ns
  {
    if ns != [] {
      SubstituteResolves(ns[0], s, fuel);
      SubstituteAllResolves(ns[1..], s, fuel);
      var ms := SubstituteAll(ns, s, fuel).value;
      assert ms[0] == Substitute(ns[0], s, fuel).value;
      assert ms[1..] == SubstituteAll(ns[1..], s, fuel).value;
    }
  }

  /** Substituting twice is substituting once. */
  lemma SubstituteIdempotent(n: Node, s: Subst, fuel: nat, fuel': nat)
    requires Substitute(n, s, fuel).Some?
    ensures Substitute(Substitute(n, s, fuel).value, s, fuel') == Substitute(n, s, fuel)
  {
    SubstituteResolves(n, s, fuel);
    SubstituteFixes(Substitute(n, s, fuel).value, s, fuel');
  }

  /** One more unit of fuel changes no completed substitution. */
  lemma {:induction false} SubstituteFuel(n: Node, s: Subst, fuel: nat)
    requires Substitute(n, s, fuel).Some?
    ensures Substitute(n, s, fuel + 1) == Substitute(n, s, fuel)
    decreases fuel, n
  {
    match n
    case Variable(x, _, _) =>
      if x in s {
        SubstituteFuel(s[x], s, fuel - 1);
      }
    case Application(_, args) => SubstituteAllFuel(args, s, fuel);
    case Tuple(es) => SubstituteAllFuel(es, s, fuel);
    case Quantifier(v, body, _) =>
      SubstituteFuel(v, s, fuel);
      SubstituteFuel(body, s, fuel);
    case LogicalUnary(body, _) => SubstituteFuel(body, s, fuel);
    case LogicalBinary(l, r, _) =>
      SubstituteFuel(l, s, fuel);
      SubstituteFuel(r, s, fuel);
    case _ =>
  }

  lemma {:induction false} SubstituteAllFuel(ns: seq<Node>, s: Subst, fuel: nat)
    requires SubstituteAll(ns, s, fuel).Some?
    ensures SubstituteAll(ns, s, fuel + 1) == SubstituteAll(ns, s, fuel)
    decreases fuel, ns
  {
    if ns != [] {
      SubstituteFuel(ns[0], s, fuel);
      SubstituteAllFuel(ns[1..], s, fuel);
    }
  }

  /** Any substitution completed under some fuel is the same under all larger
      fuel: `None` only ever stands for a chain too long for the bound. */
  lemma {:induction false} SubstituteFuelMonotone(n: Node, s: Subst, fuel: nat, more: nat)
    requires fuel <= more
    requires Substitute(n, s, fuel).Some?
    ensures Substitute(n, s, more) == Substitute(n, s, fuel)
    decreases more - fuel
  {
    if fuel < more {
      SubstituteFuel(n, s, fuel);
      SubstituteFuelMonotone(n, s, fuel + 1, more);
    }
  }

  // ---------------------------------------------------------------------------
  // modus_ponens

  /** A LogicalBinary named "implies". */
  predicate IsImplication(n: Node)
  {
    n.LogicalBinary? && n.name == "implies"
  }

  /** The names `modus_ponens` must rename: those used by both formulas. */
  function Clashing(implication: Node, formula: Node): seq<string>
  {
    Intersect(UsedNames(implication), UsedNames(formula))
  }

  /** The names in use: the merged name lists of both formulas. */
  function InUse(implication: Node, formula: Node): seq<string>
  {
    ListsMerge(UsedNames(implication), UsedNames(formula))
  }

  /** The copy of the implication after `vars_rename`. Renaming rewrites names
      only, so the copy is still an implication. */
  function RenamedCopy(implication: Node, formula: Node): (r: Node)
    requires IsImplication(implication)
    ensures IsImplication(r)
  {
    VarsRenamed(Clashing(implication, formula), InUse(implication, formula), implication).0
  }

  /** `modus_ponens(implication, formula)`: `Fail` is the source's `null`,
      `Exhausted` means the fuel of unification or substitution ran out. */
  function ModusPonensSpec(implication: Node, formula: Node, fuel: nat): Outcome<Node>
  {
    if !IsImplication(implication) then Fail
    else
      var copy := RenamedCopy(implication, formula);
      match Unify.Unify(copy.left, formula, map[], fuel)
      case Fail => Fail
      case Exhausted => Exhausted
      case Done(mgu) =>
        match Substitute(copy.right, mgu, fuel)
        case Some(c) => Done(c)
        case None => Exhausted
  }

  /** The step sequence of `modus_ponens`. The deep copy is the value itself,
      and the renamed consequent is read from the renamed copy, as the source
      reads it after `vars_rename` has renamed the copy in place. */
  method ModusPonens(implication: Node, formula: Node, fuel: nat) returns (r: Outcome<Node>)
    ensures r == ModusPonensSpec(implication, formula, fuel)
  {
    if !(implication.LogicalBinary? && implication.name == "implies") {
      return Fail;
    }
    var implicationCopy := implication;
    var varsInImplication := VarsUsed(implicationCopy);
    var varsInFormula := VarsUsed(formula);
    var inUseList := ListsMerge(varsInImplication, varsInFormula);
    var needsRenamingList := Intersect(varsInImplication, varsInFormula);
    var renamed, _ := VarsRename(needsRenamingList, inUseList, implicationCopy);
    assert renamed == RenamedCopy(implication, formula);
    var subst := Unify.Unify(renamed.left, formula, map[], fuel);
    if subst.Fail? {
      return Fail;
    } else if subst.Exhausted? {
      return Exhausted;
    }
    var result := Substitute(renamed.right, subst.value, fuel);
    if result.None? {
      return Exhausted;
    }
    return Done(result.value);
  }

  /** After renaming, the copy shares no name with `formula`: each of its names
      is either one of the implication's own names that `formula` does not use,
      or a new name outside the merged in-use list. */
  lemma RenamedApart(implication: Node, formula: Node)
    requires IsImplication(implication)
    ensures forall y :: y in Occurrences(RenamedCopy(implication, formula)) ==>
      && y !in Occurrences(formula)
      && ((y in Occurrences(implication) && y !in Clashing(implication, formula))
          || y !in InUse(implication, formula))
  {
    var need, inUse := Clashing(implication, formula), InUse(implication, formula);
    VarsRenamedFresh(need, inUse, implication);
    var copy := RenamedCopy(implication, formula);
    forall y | y in Occurrences(copy)
      ensures y !in Occurrences(formula)
    {
      assert y in UsedNames(formula) <==> y in Occurrences(formula);
      assert y in UsedNames(implication) <==> y in Occurrences(implication);
    }
  }

  /** The result is `null` exactly when the argument is no implication or the
      renamed antecedent does not unify with `formula`; a result is the renamed
      consequent with every Variable the unifier binds replaced. */
  lemma ModusPonensResult(implication: Node, formula: Node, fuel: nat)
    ensures ModusPonensSpec(implication, formula, fuel).Fail? <==>
      !IsImplication(implication) ||
      Unify.Unify(RenamedCopy(implication, formula).left, formula, map[], fuel).Fail?
    ensures ModusPonensSpec(implication, formula, fuel).Done? ==>
      && IsImplication(implication)
      && var mgu := Unify.Unify(RenamedCopy(implication, formula).left, formula, map[], fuel);
      && mgu.Done?
      && Resolved(ModusPonensSpec(implication, formula, fuel).value, mgu.value)
  {
    if IsImplication(implication) {
      var copy := RenamedCopy(implication, formula);
      var mgu := Unify.Unify(copy.left, formula, map[], fuel);
      if mgu.Done? && Substitute(copy.right, mgu.value, fuel).Some? {
        SubstituteResolves(copy.right, mgu.value, fuel);
      }
    }
  }

  /** Any answer reached under some fuel is the answer under all larger fuel. */
  lemma ModusPonensFuel(implication: Node, formula: Node, fuel: nat, more: nat)
    requires fuel <= more
    requires !ModusPonensSpec(implication, formula, fuel).Exhausted?
    ensures ModusPonensSpec(implication, formula, more) == ModusPonensSpec(implication, formula, fuel)
  {
    if IsImplication(implication) {
      var copy := RenamedCopy(implication, formula);
      UnifyFuelMonotone(copy.left, formula, map[], fuel, more);
      var mgu := Unify.Unify(copy.left, formula, map[], fuel);
      if mgu.Done? {
        SubstituteFuelMonotone(copy.right, mgu.value, fuel, more);
      }
    }
  }

  // ---------------------------------------------------------------------------
  // P(x) -> Q(x)

  /** The atom `p(t)`. */
  function Atom(p: string, t: Node): Node
  {
    Application(Const(p), [t])
  }

  /** `P(x) -> Q(x)` with `x` a free Variable. */
  function PImpliesQ(): Node
  {
    LogicalBinary(Atom("P", Free("x")), Atom("Q", Free("x")), "implies")
  }

  lemma AtomNames(a: string)
    ensures UsedNames(Atom("P", Free(a))) == [a]
    ensures UsedNames(Atom("P", Const(a))) == []
    ensures UsedNames(PImpliesQ()) == ["x"]
  {
    assert OccurrencesOf([Free(a)]) == [a];
    assert OccurrencesOf([Const(a)]) == [];
    assert OccurrencesOf([Free("x")]) == ["x"];
    assert Occurrences(PImpliesQ()) == ["x", "x"];
    assert InsertAll([], [a]) == [a];
    assert InsertAll([], ["x"]) == ["x"];
    assert ["x", "x"][..1] == ["x"];
  }

  /** A formula that shares no name with `P(x) -> Q(x)` leaves it as it is. */
  lemma UnclashedCopy(f: Node)
    requires UsedNames(f) == [] || UsedNames(f) == ["c"]
    ensures RenamedCopy(PImpliesQ(), f) == PImpliesQ()
  {
    AtomNames("c");
    assert Intersect(["x"], UsedNames(f)) == [];
    RenameNodeNothing(PImpliesQ(), RenameState(map[], InUse(PImpliesQ(), f)));
  }

  lemma UnifyAtoms(a: string, b: string)
    ensures Unify.Unify(Atom("P", Free(a)), Atom("P", Free(b)), map[], 3) == Done(map[a := Free(b)])
  {
    var x, c := Free(a), Free(b);
    var s: Subst := map[];
    assert UnifyVar(x, c, s, 1) == Done(map[a := c]);
    assert Unify.Unify(x, c, s, 2) == Done(map[a := c]);
    assert [x][1..] == [] && [c][1..] == [];
    assert UnifyLists([], [], map[a := c], 2) == Done(map[a := c]);
    assert UnifyLists([x], [c], s, 2) == Done(map[a := c]);
  }

  lemma SubstituteAtom(a: string, b: string)
    requires a != b
    ensures Substitute(Atom("Q", Free(a)), map[a := Free(b)], 3) == Some(Atom("Q", Free(b)))
  {
    var x, c := Free(a), Free(b);
    var s: Subst := map[a := c];
    assert Substitute(c, s, 2) == Some(c);
    assert Substitute(x, s, 3) == Some(c);
    assert [x][0] == x && [x][1..] == [];
    assert SubstituteAll([], s, 3) == Some([]);
    assert [c] + [] == [c];
    assert SubstituteAll([x], s, 3) == Some([c]);
  }

  /** `P(x) -> Q(x)` applied to `P(c)`, `c` a Variable, gives `Q(c)`. */
  lemma ModusPonensOnVariable()
    ensures ModusPonensSpec(PImpliesQ(), Atom("P", Free("c")), 3) == Done(Atom("Q", Free("c")))
  {
    AtomNames("c");
    UnclashedCopy(Atom("P", Free("c")));
    UnifyAtoms("x", "c");
    SubstituteAtom("x", "c");
  }

  /** `P(x) -> Q(x)` applied to `P(c)`, `c` a Const, gives `null`: a free
      Variable unifies only with a term, and a Const is none. */
  lemma ModusPonensOnConst()
    ensures ModusPonensSpec(PImpliesQ(), Atom("P", Const("c")), 3) == Fail
  {
    var x, k := Free("x"), Const("c");
    AtomNames("c");
    UnclashedCopy(Atom("P", k));
    var s: Subst := map[];
    assert Unify.Unify(x, k, s, 2) == Fail;
    assert UnifyLists([x], [k], s, 2) == Fail;
  }

  /** The first fresh name for `x` when `x` is in use is `x_0`. */
  lemma FreshX()
    ensures NewNameSpec("x", RenameState(map[], ["x"])) == ("x_0", RenameState(map["x" := "x_0"], ["x", "x_0"]))
  {
    assert LastUnderscore("x") == None;
    assert SplitSuffix("x") == ("x", 0);
    assert NatToString(0) == "0";
    assert Candidate("x", 0) == "x_0";
    var st := RenameState(map[], ["x"]);
    var pool := Pool(st);
    assert pool == {"x"};
    assert NextFree("x", 0, pool) == 0;
    assert FreshName("x", pool) == "x_0";
    assert st.inUse + ["x_0"] == ["x", "x_0"];
    assert st.renameMap["x" := "x_0"] == map["x" := "x_0"];
  }

  lemma RenameAtom(p: string, st: RenameState, st': RenameState)
    requires RenameNode(["x"], Free("x"), st) == (Free("x_0"), st')
    ensures RenameNode(["x"], Atom(p, Free("x")), st) == (Atom(p, Free("x_0")), st')
  {
    var x := Free("x");
    assert [x][..0] == [] && [x][0] == x;
    assert RenameList(["x"], [], st) == ([], st);
    assert [] + [Free("x_0")] == [Free("x_0")];
    assert RenameList(["x"], [x], st) == ([Free("x_0")], st');
  }

  /** Against `P(x)`, both occurrences of the implication's `x` become `x_0`. */
  lemma ClashingCopy()
    ensures RenamedCopy(PImpliesQ(), Atom("P", Free("x")))
         == LogicalBinary(Atom("P", Free("x_0")), Atom("Q", Free("x_0")), "implies")
  {
    AtomNames("x");
    assert Intersect(["x"], ["x"]) == ["x"];
    assert ListsMerge(["x"], ["x"]) == ["x"] by {
      assert ["x"] + ["x"] == ["x", "x"];
      assert ["x", "x"][..1] == ["x"];
    }
    var st0 := RenameState(map[], ["x"]);
    var st1 := RenameState(map["x" := "x_0"], ["x", "x_0"]);
    FreshX();
    assert RenameNode(["x"], Free("x"), st0) == (Free("x_0"), st1);
    assert RenameNode(["x"], Free("x"), st1) == (Free("x_0"), st1);
    RenameAtom("P", st0, st1);
    RenameAtom("Q", st1, st1);
  }

  /** `P(x) -> Q(x)` applied to the caller's own `P(x)`: the implication's `x`
      is renamed to `x_0` first, unification binds `x_0` to the caller's `x`,
      and the result is `Q(x)` with the caller's `x`. */
  lemma ModusPonensRenamesClash()
    ensures ModusPonensSpec(PImpliesQ(), Atom("P", Free("x")), 3) == Done(Atom("Q", Free("x")))
  {
    var f := Atom("P", Free("x"));
    ClashingCopy();
    var copy := RenamedCopy(PImpliesQ(), f);
    assert copy.left == Atom("P", Free("x_0")) && copy.right == Atom("Q", Free("x_0"));
    UnifyAtoms("x_0", "x");
    var mgu := map["x_0" := Free("x")];
    assert Unify.Unify(copy.left, f, map[], 3) == Done(mgu);
    SubstituteAtom("x_0", "x");
    assert Substitute(copy.right, mgu, 3) == Some(Atom("Q", Free("x")));
  }

  // ---------------------------------------------------------------------------
  // R(x, x) -> S(x): a variable bound to itself

  /** The atom `p(t, t)`. */
  function Twice(p: string, t: Node): Node
  {
    Application(Const(p), [t, t])
  }

  /** `R(x, x) -> S(x)` with `x` a free Variable. */
  function RImpliesS(): Node
  {
    LogicalBinary(Twice("R", Free("x")), Atom("S", Free("x")), "implies")
  }

  /** The unifier of `R(x, x)` and `R(a, a)`: `unify_var` has no test for a
      variable met against itself, so the second pair binds `a` to `a`. */
  function SelfBound(): Subst
  {
    map["x" := Free("a"), "a" := Free("a")]
  }

  /** `unify(R(x, x), R(a, a), {})` returns `{x: a, a: a}`. */
  lemma UnifyBindsSelf(fuel: nat)
    ensures Unify.Unify(Twice("R", Free("x")), Twice("R", Free("a")), map[], fuel + 3) == Done(SelfBound())
  {
    var x, a := Free("x"), Free("a");
    var s: Subst := map[];
    var s1 := map["x" := a];
    assert Unify.Unify(x, a, s, fuel + 2) == Done(s1);
    assert UnifyVar(a, a, s1, fuel) == Done(SelfBound());
    assert Unify.Unify(a, a, s1, fuel + 1) == Done(SelfBound());
    assert UnifyVar(x, a, s1, fuel + 1) == Done(SelfBound());
    assert Unify.Unify(x, a, s1, fuel + 2) == Done(SelfBound());
    assert [x, x][1..] == [x] && [a, a][1..] == [a];
    assert UnifyLists([x], [a], s1, fuel + 2) == Done(SelfBound());
    assert UnifyLists([x, x], [a, a], s, fuel + 2) == Done(SelfBound());
  }

  /** A Variable bound to itself is never resolved: `applySubst` follows it to
      itself at every step. */
  lemma {:induction false} SelfBindingDiverges(v: Node, s: Subst, k: nat)
    requires v.Variable? && v.name in s && s[v.name] == v
    ensures Substitute(v, s, k) == None
  {
    if k > 0 {
      SelfBindingDiverges(v, s, k - 1);
    }
  }

  /** Under `{x: a, a: a}` the substitution of `a`, and so of `x`, never ends:
      `applySubst` follows `a` to `a` again at every step. */
  lemma SelfBoundDiverges(k: nat)
    ensures Substitute(Free("a"), SelfBound(), k) == None
    ensures Substitute(Free("x"), SelfBound(), k) == None
  {
    SelfBindingDiverges(Free("a"), SelfBound(), k);
    if k > 0 {
      SelfBindingDiverges(Free("a"), SelfBound(), k - 1);
    }
  }

  lemma RepeatedDedup(a: string)
    ensures Dedup([a, a]) == [a]
    ensures Dedup([a, a, a]) == [a]
  {
    assert [a, a][..1] == [a];
    assert [a, a, a][..2] == [a, a];
    assert InsertAll([], [a]) == [a];
    assert InsertAll([], [a, a]) == [a];
  }

  lemma TwiceOccurrences(a: string)
    ensures Occurrences(Twice("R", Free(a))) == [a, a]
  {
    var v := Free(a);
    assert [v, v][..1] == [v];
    assert OccurrencesOf([v]) == [a];
    assert OccurrencesOf([v, v]) == [a, a];
  }

  lemma TwiceNames(a: string)
    ensures UsedNames(Twice("R", Free(a))) == [a]
    ensures UsedNames(RImpliesS()) == ["x"]
  {
    TwiceOccurrences(a);
    TwiceOccurrences("x");
    RepeatedDedup(a);
    RepeatedDedup("x");
    assert OccurrencesOf([Free("x")]) == ["x"];
    assert Occurrences(RImpliesS()) == ["x", "x"] + ["x"];
    assert ["x", "x"] + ["x"] == ["x", "x", "x"];
  }

  /** With no name in common, `vars_rename` leaves the copy as it is. */
  lemma NoClashNoRename(implication: Node, formula: Node)
    requires IsImplication(implication)
    requires Clashing(implication, formula) == []
    ensures RenamedCopy(implication, formula) == implication
  {
    RenameNodeNothing(implication, RenameState(map[], InUse(implication, formula)));
  }

  /** `R(a, a)` shares no name with `R(x, x) -> S(x)` when `a` is not `x`. */
  lemma SelfBoundCopy(a: string)
    requires a != "x"
    ensures RenamedCopy(RImpliesS(), Twice("R", Free(a))) == RImpliesS()
  {
    TwiceNames(a);
    assert Intersect(["x"], [a]) == [];
    NoClashNoRename(RImpliesS(), Twice("R", Free(a)));
  }

  /** Under any fuel, `unify(R(x, x), R(a, a), {})` either runs out or
      returns `{x: a, a: a}`. */
  lemma UnifySelfBoundAnswer(fuel: nat)
    ensures Unify.Unify(Twice("R", Free("x")), Twice("R", Free("a")), map[], fuel) in {Exhausted, Done(SelfBound())}
  {
    UnifyBindsSelf(fuel);
    if !Unify.Unify(Twice("R", Free("x")), Twice("R", Free("a")), map[], fuel).Exhausted? {
      UnifyFuelMonotone(Twice("R", Free("x")), Twice("R", Free("a")), map[], fuel, fuel + 3);
    }
  }

  lemma SelfBoundConsequent(k: nat)
    ensures Substitute(Atom("S", Free("x")), SelfBound(), k) == None
  {
    SelfBoundDiverges(k);
    assert SubstituteAll([Free("x")], SelfBound(), k) == None;
  }

  /** `modus_ponens(R(x, x) -> S(x), R(a, a))` has no answer under any fuel:
      the source recurses without end in `applySubst`. */
  lemma ModusPonensSelfBound(fuel: nat)
    ensures ModusPonensSpec(RImpliesS(), Twice("R", Free("a")), fuel) == Exhausted
  {
    SelfBoundCopy("a");
    UnifySelfBoundAnswer(fuel);
    SelfBoundConsequent(fuel);
  }

  /** A repeated pattern variable met against two different free variables
      binds them in a chain without a self-binding: `unify(R(x, x), R(a, b), {})`
      returns `{x: a, a: b}`, and `S(x)` then resolves to `S(b)`. */
  lemma UnifyChainsDistinct(fuel: nat)
    ensures Unify.Unify(Twice("R", Free("x")), Application(Const("R"), [Free("a"), Free("b")]), map[], fuel + 3)
         == Done(map["x" := Free("a"), "a" := Free("b")])
    ensures Substitute(Atom("S", Free("x")), map["x" := Free("a"), "a" := Free("b")], 3) == Some(Atom("S", Free("b")))
  {
    var x, a, b := Free("x"), Free("a"), Free("b");
    var s: Subst := map[];
    var s1 := map["x" := a];
    var s2 := map["x" := a, "a" := b];
    assert Unify.Unify(x, a, s, fuel + 2) == Done(s1);
    assert UnifyVar(a, b, s1, fuel) == Done(s2);
    assert Unify.Unify(a, b, s1, fuel + 1) == Done(s2);
    assert UnifyVar(x, b, s1, fuel + 1) == Done(s2);
    assert Unify.Unify(x, b, s1, fuel + 2) == Done(s2);
    assert [x, x][1..] == [x] && [a, b][1..] == [b];
    assert UnifyLists([x], [b], s1, fuel + 2) == Done(s2);
    assert UnifyLists([x, x], [a, b], s, fuel + 2) == Done(s2);
    assert Substitute(b, s2, 1) == Some(b);
    assert Substitute(a, s2, 2) == Some(b);
    assert Substitute(x, s2, 3) == Some(b);
    assert [x][1..] == [];
    assert SubstituteAll([], s2, 3) == Some([]);
    assert [b] + [] == [b];
    assert SubstituteAll([x], s2, 3) == Some([b]);
  }
}
