/** The unifier of unify.js measured against the substitution of moves.js:
    a unifier is sound when applying it to both sides gives one tree. The code
    is sound on the fragment where `unify` compares only what substitution
    rewrites, and two counterexamples show where it is not: Set against Set,
    and Application symbols that share a name but not a kind. The source has
    no occurs check, so applying a unifier need not terminate; soundness is
    stated for the applications that complete. */
module Soundness {
  import opened Wrappers
  import opened NodeHelper
  import opened Unify
  import opened Moves

  /** Applying `s` to `a` and to `b` gives the same tree whenever both
      complete under the same fuel; since a completed result is the same
      under more fuel, this covers every pair of completed applications. */
  ghost predicate Agree(a: Node, b: Node, s: Subst)
  {
    forall k: nat :: Substitute(a, s, k).Some? && Substitute(b, s, k).Some? ==> Substitute(a, s, k) == Substitute(b, s, k)
  }

  /** The trees on which `unify` compares only what substitution rewrites:
      no Set where `unify` descends, and every Application symbol is the node
      `sym` gives for its name (`unify` compares symbols by name alone, and
      substitution leaves them as they are). `unify` never descends into a
      Quantifier. */
  predicate Plain(n: Node, sym: string -> Node)
    decreases n
  {
    match n
    case Set(_) => false
    case Application(f, args) =>
      && NameOf(f).Some? && f == sym(NameOf(f).value)
      && forall i :: 0 <= i < |args| ==> Plain(args[i], sym)
    case Tuple(es) => forall i :: 0 <= i < |es| ==> Plain(es[i], sym)
    case LogicalUnary(body, _) => Plain(body, sym)
    case LogicalBinary(l, r, _) => Plain(l, sym) && Plain(r, sym)
    case _ => true
  }

  predicate PlainSubst(s: Subst, sym: string -> Node)
  {
    forall k | k in s :: Plain(s[k], sym)
  }

  // ---------------------------------------------------------------------------
  // Substitution under a larger map

  /** A list substitution that completes completes element by element. */
  lemma {:induction false} SubstituteAllParts(ns: seq<Node>, s: Subst, k: nat)
    requires SubstituteAll(ns, s, k).Some?
    ensures forall i :: 0 <= i < |ns| ==> Substitute(ns[i], s, k) == Some(SubstituteAll(ns, s, k).value[i])
    decreases ns
  {
    if ns != [] {
      SubstituteAllParts(ns[1..], s, k);
      var ms := SubstituteAll(ns, s, k).value;
      forall i | 0 <= i < |ns| ensures Substitute(ns[i], s, k) == Some(ms[i]) {
        if i > 0 {
          assert ns[i] == ns[1..][i - 1];
        }
      }
    }
  }

  /** What completes under a map completes under any part of it. */
  lemma {:induction false} SubstituteFewer(t: Node, s1: Subst, r: Subst, k: nat)
    requires Extends(s1, r)
    requires Substitute(t, r, k).Some?
    ensures Substitute(t, s1, k).Some?
    decreases k, t
  {
    match t
    case Variable(x, _, _) =>
      if x in s1 {
        SubstituteFewer(s1[x], s1, r, k - 1);
      }
    case Application(_, args) => SubstituteAllFewer(args, s1, r, k);
    case Tuple(es) => SubstituteAllFewer(es, s1, r, k);
    case Quantifier(v, body, _) =>
      SubstituteFewer(v, s1, r, k);
      SubstituteFewer(body, s1, r, k);
    case LogicalUnary(body, _) => SubstituteFewer(body, s1, r, k);
    case LogicalBinary(a, b, _) =>
      SubstituteFewer(a, s1, r, k);
      SubstituteFewer(b, s1, r, k);
    case _ =>
  }

  lemma {:induction false} SubstituteAllFewer(ns: seq<Node>, s1: Subst, r: Subst, k: nat)
    requires Extends(s1, r)
    requires SubstituteAll(ns, r, k).Some?
    ensures SubstituteAll(ns, s1, k).Some?
    decreases k, ns
  {
    if ns != [] {
      SubstituteFewer(ns[0], s1, r, k);
      SubstituteAllFewer(ns[1..], s1, r, k);
    }
  }

  /** Substitutions are triangular: applying a larger map after a smaller one
      is applying the larger map alone. */
  lemma {:induction false} SubstituteCompose(t: Node, s1: Subst, r: Subst, k1: nat, k: nat)
    requires Extends(s1, r)
    requires Substitute(t, s1, k1).Some? && Substitute(t, r, k).Some?
    ensures Substitute(Substitute(t, s1, k1).value, r, k) == Substitute(t, r, k)
    decreases k1, t
  {
    match t
    case Variable(x, _, _) =>
      if x in s1 {
        SubstituteCompose(s1[x], s1, r, k1 - 1, k - 1);
        SubstituteFuel(Substitute(t, s1, k1).value, r, k - 1);
      }
    case Application(_, args) => SubstituteAllCompose(args, s1, r, k1, k);
    case Tuple(es) => SubstituteAllCompose(es, s1, r, k1, k);
    case Quantifier(v, body, _) =>
      SubstituteCompose(v, s1, r, k1, k);
      SubstituteCompose(body, s1, r, k1, k);
    case LogicalUnary(body, _) => SubstituteCompose(body, s1, r, k1, k);
    case LogicalBinary(a, b, _) =>
      SubstituteCompose(a, s1, r, k1, k);
      SubstituteCompose(b, s1, r, k1, k);
    case _ =>
  }

  lemma {:induction false} SubstituteAllCompose(ns: seq<Node>, s1: Subst, r: Subst, k1: nat, k: nat)
    requires Extends(s1, r)
    requires SubstituteAll(ns, s1, k1).Some? && SubstituteAll(ns, r, k).Some?
    ensures SubstituteAll(SubstituteAll(ns, s1, k1).value, r, k) == SubstituteAll(ns, r, k)
    decreases k1, ns
  {
    if ns != [] {
      SubstituteCompose(ns[0], s1, r, k1, k);
      SubstituteAllCompose(ns[1..], s1, r, k1, k);
      var us := SubstituteAll(ns, s1, k1).value;
      assert us[0] == Substitute(ns[0], s1, k1).value;
      assert us[1..] == SubstituteAll(ns[1..], s1, k1).value;
    }
  }

  // ---------------------------------------------------------------------------
  // Agreement

  /** Agreement survives extending the map. */
  lemma AgreeExtends(a: Node, b: Node, s1: Subst, r: Subst)
    requires Agree(a, b, s1) && Extends(s1, r)
    ensures Agree(a, b, r)
  {
    forall k: nat | Substitute(a, r, k).Some? && Substitute(b, r, k).Some?
      ensures Substitute(a, r, k) == Substitute(b, r, k)
    {
      SubstituteFewer(a, s1, r, k);
      SubstituteFewer(b, s1, r, k);
      SubstituteCompose(a, s1, r, k, k);
      SubstituteCompose(b, s1, r, k, k);
    }
  }

  /** A mapped Variable agrees with whatever its image agrees with. */
  lemma AgreeLookup(v: Node, y: Node, r: Subst)
    requires v.Variable? && v.name in r && Agree(r[v.name], y, r)
    ensures Agree(v, y, r)
  {
    forall k: nat | Substitute(v, r, k).Some? && Substitute(y, r, k).Some?
      ensures Substitute(v, r, k) == Substitute(y, r, k)
    {
      SubstituteFuel(r[v.name], r, k - 1);
    }
  }

  /** Lists that agree element by element agree as a whole. */
  lemma AgreeLists(xs: seq<Node>, ys: seq<Node>, r: Subst)
    requires |xs| == |ys|
    requires forall i :: 0 <= i < |xs| ==> Agree(xs[i], ys[i], r)
    ensures forall f :: Agree(Application(f, xs), Application(f, ys), r)
    ensures Agree(Tuple(xs), Tuple(ys), r)
  {
    forall k: nat | SubstituteAll(xs, r, k).Some? && SubstituteAll(ys, r, k).Some?
      ensures SubstituteAll(xs, r, k) == SubstituteAll(ys, r, k)
    {
      SubstituteAllParts(xs, r, k);
      SubstituteAllParts(ys, r, k);
      var us, ws := SubstituteAll(xs, r, k).value, SubstituteAll(ys, r, k).value;
      forall i | 0 <= i < |xs| ensures us[i] == ws[i] {
        assert Agree(xs[i], ys[i], r);
        assert Substitute(xs[i], r, k) == Some(us[i]) && Substitute(ys[i], r, k) == Some(ws[i]);
      }
      assert us == ws;
    }
    forall f ensures Agree(Application(f, xs), Application(f, ys), r) {
      forall k: nat | Substitute(Application(f, xs), r, k).Some? && Substitute(Application(f, ys), r, k).Some?
        ensures Substitute(Application(f, xs), r, k) == Substitute(Application(f, ys), r, k)
      {
        assert SubstituteAll(xs, r, k).Some? && SubstituteAll(ys, r, k).Some?;
      }
    }
    forall k: nat | Substitute(Tuple(xs), r, k).Some? && Substitute(Tuple(ys), r, k).Some?
      ensures Substitute(Tuple(xs), r, k) == Substitute(Tuple(ys), r, k)
    {
      assert SubstituteAll(xs, r, k).Some? && SubstituteAll(ys, r, k).Some?;
    }
  }

  // ---------------------------------------------------------------------------
  // Soundness

  /** `unify` is sound on the plain fragment: the substitution it returns makes
      the two sides agree, and stays within the fragment. */
  lemma {:induction false} UnifySound(x: Node, y: Node, s: Subst, fuel: nat, sym: string -> Node)
    requires Plain(x, sym) && Plain(y, sym) && PlainSubst(s, sym)
    requires Unify.Unify(x, y, s, fuel).Done?
    ensures Agree(x, y, Unify.Unify(x, y, s, fuel).value)
    ensures PlainSubst(Unify.Unify(x, y, s, fuel).value, sym)
    decreases fuel, 0, 1
  {
    if x.Variable? && x.metavar {
      UnifyMetavarSound(x, y, s, fuel - 1, sym);
    } else if y.Variable? && y.metavar {
      UnifyMetavarSound(y, x, s, fuel - 1, sym);
    } else if x.Variable? && !x.bound {
      UnifyVarSound(x, y, s, fuel - 1, sym);
    } else if y.Variable? && !y.bound {
      UnifyVarSound(y, x, s, fuel - 1, sym);
    } else {
      RigidSound(x, y, s, fuel, sym);
    }
  }

  /** The structural cases of `unify`, with no free variable or metavariable
      on either side. */
  lemma {:induction false} RigidSound(x: Node, y: Node, s: Subst, fuel: nat, sym: string -> Node)
    requires !(x.Variable? && x.metavar) && !(y.Variable? && y.metavar)
    requires !(x.Variable? && !x.bound) && !(y.Variable? && !y.bound)
    requires Plain(x, sym) && Plain(y, sym) && PlainSubst(s, sym)
    requires Unify.Unify(x, y, s, fuel).Done?
    ensures Agree(x, y, Unify.Unify(x, y, s, fuel).value)
    ensures PlainSubst(Unify.Unify(x, y, s, fuel).value, sym)
    decreases fuel, 0, 0
  {
    match (x, y)
    case (Application(f, xs), Application(g, ys)) =>
      UnifyListsSound(xs, ys, s, fuel - 1, sym);
      AgreeLists(xs, ys, UnifyLists(xs, ys, s, fuel - 1).value);
    case (Tuple(xs), Tuple(ys)) =>
      UnifyListsSound(xs, ys, s, fuel - 1, sym);
      AgreeLists(xs, ys, UnifyLists(xs, ys, s, fuel - 1).value);
    case (LogicalBinary(l1, r1, _), LogicalBinary(l2, r2, _)) =>
      var s1 := Unify.Unify(l1, l2, s, fuel - 1).value;
      UnifySound(l1, l2, s, fuel - 1, sym);
      UnifySound(r1, r2, s1, fuel - 1, sym);
      AgreeExtends(l1, l2, s1, Unify.Unify(r1, r2, s1, fuel - 1).value);
    case (LogicalUnary(f1, _), LogicalUnary(f2, _)) =>
      UnifySound(f1, f2, s, fuel - 1, sym);
    case _ =>
  }

  lemma {:induction false} UnifyVarSound(v: Node, x: Node, s: Subst, fuel: nat, sym: string -> Node)
    requires v.Variable? && Plain(x, sym) && PlainSubst(s, sym)
    requires UnifyVar(v, x, s, fuel).Done?
    ensures Agree(v, x, UnifyVar(v, x, s, fuel).value)
    ensures PlainSubst(UnifyVar(v, x, s, fuel).value, sym)
    decreases fuel, 1, 0
  {
    var r := UnifyVar(v, x, s, fuel).value;
    if v.name in s {
      UnifySound(s[v.name], x, s, fuel, sym);
      AgreeLookup(v, x, r);
    } else if x.Variable? && x.name in s {
      UnifySound(v, s[x.name], s, fuel, sym);
      AgreeLookup(x, v, r);
    } else {
      AgreeLookup(v, x, r);
    }
  }

  lemma {:induction false} UnifyMetavarSound(mv: Node, x: Node, s: Subst, fuel: nat, sym: string -> Node)
    requires mv.Variable? && Plain(x, sym) && PlainSubst(s, sym)
    requires UnifyMetavar(mv, x, s, fuel).Done?
    ensures Agree(mv, x, UnifyMetavar(mv, x, s, fuel).value)
    ensures PlainSubst(UnifyMetavar(mv, x, s, fuel).value, sym)
    decreases fuel, 1, 0
  {
    var r := UnifyMetavar(mv, x, s, fuel).value;
    if mv.name in s {
      UnifySound(s[mv.name], x, s, fuel, sym);
    }
    AgreeLookup(mv, x, r);
  }

  lemma {:induction false} UnifyListsSound(xs: seq<Node>, ys: seq<Node>, s: Subst, fuel: nat, sym: string -> Node)
    requires |xs| == |ys|
    requires forall i :: 0 <= i < |xs| ==> Plain(xs[i], sym) && Plain(ys[i], sym)
    requires PlainSubst(s, sym)
    requires UnifyLists(xs, ys, s, fuel).Done?
    ensures forall i :: 0 <= i < |xs| ==> Agree(xs[i], ys[i], UnifyLists(xs, ys, s, fuel).value)
    ensures PlainSubst(UnifyLists(xs, ys, s, fuel).value, sym)
    decreases fuel, 1, |xs|
  {
    if |xs| > 0 {
      var s1 := Unify.Unify(xs[0], ys[0], s, fuel).value;
      var r := UnifyLists(xs, ys, s, fuel).value;
      UnifySound(xs[0], ys[0], s, fuel, sym);
      UnifyListsSound(xs[1..], ys[1..], s1, fuel, sym);
      AgreeExtends(xs[0], ys[0], s1, r);
      forall i | 1 <= i < |xs| ensures Agree(xs[i], ys[i], r) {
        assert xs[i] == xs[1..][i - 1] && ys[i] == ys[1..][i - 1];
      }
    }
  }

  /** The unifier's defining property on the plain fragment: when
      `unify(x, y, {})` returns a substitution and applying it to `x` and to
      `y` completes, the two results are the same tree. */
  lemma UnifierMakesEqual(x: Node, y: Node, fuel: nat, sym: string -> Node, k1: nat, k2: nat)
    requires Plain(x, sym) && Plain(y, sym)
    requires Unify.Unify(x, y, map[], fuel).Done?
    requires Substitute(x, Unify.Unify(x, y, map[], fuel).value, k1).Some?
    requires Substitute(y, Unify.Unify(x, y, map[], fuel).value, k2).Some?
    ensures Substitute(x, Unify.Unify(x, y, map[], fuel).value, k1)
         == Substitute(y, Unify.Unify(x, y, map[], fuel).value, k2)
  {
    var mgu := Unify.Unify(x, y, map[], fuel).value;
    UnifySound(x, y, map[], fuel, sym);
    var k := if k1 < k2 then k2 else k1;
    SubstituteFuelMonotone(x, mgu, k1, k);
    SubstituteFuelMonotone(y, mgu, k2, k);
  }

  // ---------------------------------------------------------------------------
  // Where the code is not sound

  /** `unify_sets` binds `x` to `y` for `{x}` against `{y}`, but substitution
      never enters a Set, so the two sides stay different. */
  lemma SetsBreakSoundness(k: nat)
    ensures Unify.Unify(Set([Free("x")]), Set([Free("y")]), map[], 3) == Done(map["x" := Free("y")])
    ensures Substitute(Set([Free("x")]), map["x" := Free("y")], k) == Some(Set([Free("x")]))
    ensures Substitute(Set([Free("y")]), map["x" := Free("y")], k) == Some(Set([Free("y")]))
    ensures Set([Free("x")]) != Set([Free("y")])
  {
  }

  /** `unify` compares Application symbols by name alone, and substitution
      leaves symbols as they are: a Const symbol and an operator symbol of the
      same name unify under the empty substitution, yet the trees differ. */
  lemma SymbolsBreakSoundness(k: nat)
    ensures Unify.Unify(Application(Const("f"), []), Application(UnaryOp("f"), []), map[], 2) == Done(map[])
    ensures Substitute(Application(Const("f"), []), map[], k) == Some(Application(Const("f"), []))
    ensures Substitute(Application(UnaryOp("f"), []), map[], k) == Some(Application(UnaryOp("f"), []))
    ensures Application(Const("f"), []) != Application(UnaryOp("f"), [])
  {
  }
}
