/** The unifier of unify.js: syntactic unification of node trees with
    metavariables, over copy-on-write substitution maps, and the two-pass
    matching of `Set` nodes.

    The source can recurse forever through a binding that mentions its own
    variable (there is no occurs check), so every function here takes a `fuel`
    bound and answers `Exhausted` when it runs out; `Fail` is the source's
    `null` and `Done(s)` its returned substitution. */
module Unify {
  import opened Wrappers
  import opened NodeHelper

  /** A substitution: variable names to nodes. */
  type Subst = map<string, Node>

  /** The answer of a fuelled computation. */
  datatype Outcome<+T> = Done(value: T) | Fail | Exhausted

  /** Every binding of `s` is in `r`, unchanged. */
  predicate Extends(s: Subst, r: Subst)
  {
    forall k | k in s :: k in r && r[k] == s[k]
  }

  /** `clone_subst`: a copy; on map values the copy is the map itself. */
  function CloneSubst(s: Subst): (r: Subst)
    ensures r == s
  {
    s
  }

  /** `extend_subst`: a copy of `s` with `v`'s name bound to `x`. */
  function ExtendSubst(v: Node, x: Node, s: Subst): (r: Subst)
    requires v.Variable?
    ensures v.name !in s ==> Extends(s, r)
    ensures r.Keys == s.Keys + {v.name} && r[v.name] == x
    ensures forall k | k in s && k != v.name :: r[k] == s[k]
  {
    s[v.name := x]
  }

  /** A Variable that `unify` may bind: a metavariable or a free variable. */
  predicate Flexible(n: Node)
  {
    n.Variable? && (n.metavar || !n.bound)
  }

  /** Whether two nodes have the same `type`. */
  predicate SameType(x: Node, y: Node)
  {
    match (x, y)
    case (Variable(_, _, _), Variable(_, _, _)) => true
    case (Const(_), Const(_)) => true
    case (Application(_, _), Application(_, _)) => true
    case (Tuple(_), Tuple(_)) => true
    case (Set(_), Set(_)) => true
    case (Quantifier(_, _, _), Quantifier(_, _, _)) => true
    case (LogicalUnary(_, _), LogicalUnary(_, _)) => true
    case (LogicalBinary(_, _, _), LogicalBinary(_, _, _)) => true
    case (UnaryOp(_), UnaryOp(_)) => true
    case (BinaryOp(_), BinaryOp(_)) => true
    case _ => false
  }

  // ---------------------------------------------------------------------------
  // unify, unify_var, unify_metavar, unify_lists

  /** `unify(x, y, subst)`. */
  function Unify(x: Node, y: Node, s: Subst, fuel: nat): (r: Outcome<Subst>)
    ensures r.Done? ==> Extends(s, r.value)
    decreases fuel, 0, 0
  {
    if fuel == 0 then Exhausted
    else if x.Variable? && x.metavar then UnifyMetavar(x, y, s, fuel - 1)
    else if y.Variable? && y.metavar then UnifyMetavar(y, x, s, fuel - 1)
    else if x.Variable? && !x.bound then (if IsTerm(y) then UnifyVar(x, y, s, fuel - 1) else Fail)
    else if y.Variable? && !y.bound then (if IsTerm(x) then UnifyVar(y, x, s, fuel - 1) else Fail)
    else
      match (x, y)
      case (Variable(a, _, _), Variable(b, _, _)) => if a == b then Done(s) else Fail
      case (Const(a), Const(b)) => if a == b then Done(s) else Fail
      case (Application(f, xs), Application(g, ys)) =>
        if NameOf(f) == NameOf(g) && |xs| == |ys| then UnifyLists(xs, ys, s, fuel - 1) else Fail
      case (Tuple(xs), Tuple(ys)) =>
        if |xs| == |ys| then UnifyLists(xs, ys, s, fuel - 1) else Fail
      case (Set(xs), Set(ys)) => SetMatch(xs, ys, s, fuel - 1)
      case (LogicalBinary(l1, r1, a), LogicalBinary(l2, r2, b)) =>
        if a == b then
          match Unify(l1, l2, s, fuel - 1)
          case Done(s1) => Unify(r1, r2, s1, fuel - 1)
          case Fail => Fail
          case Exhausted => Exhausted
        else Fail
      case (LogicalUnary(f1, a), LogicalUnary(f2, b)) =>
        if a == b then Unify(f1, f2, s, fuel - 1) else Fail
      case _ => Fail
  }

  /** `unify_var(v, x, subst)`: `x` is a term. The lookup of `x.name` is made
      only when `x` is a Variable; the other terms have no name. */
  function UnifyVar(v: Node, x: Node, s: Subst, fuel: nat): (r: Outcome<Subst>)
    requires v.Variable?
    ensures r.Done? ==> Extends(s, r.value)
    decreases fuel, 1, 0
  {
    if v.name in s then Unify(s[v.name], x, s, fuel)
    else if x.Variable? && x.name in s then Unify(v, s[x.name], s, fuel)
    else Done(ExtendSubst(v, x, s))
  }

  /** `unify_metavar(mv, x, subst)`: `x` may be any node. */
  function UnifyMetavar(mv: Node, x: Node, s: Subst, fuel: nat): (r: Outcome<Subst>)
    requires mv.Variable?
    ensures r.Done? ==> Extends(s, r.value)
    decreases fuel, 1, 0
  {
    if mv.name in s then Unify(s[mv.name], x, s, fuel)
    else Done(ExtendSubst(mv, x, s))
  }

  /** `unify_lists(xs, ys, subst)`: pairwise, left to right, threading the
      substitution and stopping at the first pair that does not unify. */
  function UnifyLists(xs: seq<Node>, ys: seq<Node>, s: Subst, fuel: nat): (r: Outcome<Subst>)
    requires |xs| == |ys|
    ensures r.Done? ==> Extends(s, r.value)
    decreases fuel, 1, |xs|
  {
    if |xs| == 0 then Done(s)
    else
      match Unify(xs[0], ys[0], s, fuel)
      case Done(s1) => UnifyLists(xs[1..], ys[1..], s1, fuel)
      case Fail => Fail
      case Exhausted => Exhausted
  }

  // ---------------------------------------------------------------------------
  // unify_sets

  /** The state of a scan over candidates: no match yet, exactly one so far (the
      unified substitution and the candidate's index), a second match (the scan
      stops there), or a unification that ran out of fuel. */
  datatype Scan = NoMatch | One(subst: Subst, index: nat) | Many | Stalled

  /** The indices a `unify_sets` pass has dealt with, and the current
      substitution. */
  datatype Claims = Claims(subst: Subst, xs: set<nat>, ys: set<nat>)

  /** The inner loop of both passes: unifies `x` with `cands[k..]` in order,
      every attempt from the same substitution `s`, and stops at the second
      match. */
  function ScanFrom(x: Node, cands: seq<Node>, k: nat, found: Scan, s: Subst, fuel: nat): (r: Scan)
    requires k <= |cands|
    requires found.NoMatch? || found.One?
    ensures r.One? ==> r == found || (Extends(s, r.subst) && k <= r.index < |cands|)
    decreases fuel, 2, |cands| - k
  {
    if k == |cands| then found
    else
      match Unify(x, cands[k], s, fuel)
      case Exhausted => Stalled
      case Fail => ScanFrom(x, cands, k + 1, found, s, fuel)
      case Done(r) => if found.One? then Many else ScanFrom(x, cands, k + 1, One(r, k), s, fuel)
  }

  /** Every claimed index is an index of its list. */
  predicate Within(c: Claims, nx: nat, ny: nat)
  {
    (forall i | i in c.xs :: i < nx) && (forall j | j in c.ys :: j < ny)
  }

  /** The first pass, from `xs[i]` on: an element is claimed, with its unique
      match, only when exactly one element of `ys` unifies with it. */
  function FirstPass(xs: seq<Node>, ys: seq<Node>, i: nat, c: Claims, fuel: nat): (r: Outcome<Claims>)
    requires i <= |xs|
    ensures !r.Fail?
    ensures r.Done? ==> Extends(c.subst, r.value.subst) && c.xs <= r.value.xs && c.ys <= r.value.ys
    ensures r.Done? && Within(c, |xs|, |ys|) ==> Within(r.value, |xs|, |ys|)
    decreases fuel, 3, |xs| - i
  {
    if i == |xs| then Done(c)
    else
      match ScanFrom(xs[i], ys, 0, NoMatch, c.subst, fuel)
      case Stalled => Exhausted
      case One(s1, j) => FirstPass(xs, ys, i + 1, Claims(s1, c.xs + {i}, c.ys + {j}), fuel)
      case _ => FirstPass(xs, ys, i + 1, c, fuel)
  }

  /** The second pass, from `ys[j]` on: an unclaimed element must unify with
      exactly one element of `xs` (all of them are tried, claimed or not), or
      the whole match fails. */
  function SecondPass(xs: seq<Node>, ys: seq<Node>, j: nat, c: Claims, fuel: nat): (r: Outcome<Claims>)
    requires j <= |ys|
    ensures r.Done? ==> Extends(c.subst, r.value.subst) && c.xs <= r.value.xs && c.ys <= r.value.ys
    ensures r.Done? ==> forall k :: j <= k < |ys| ==> k in r.value.ys
    ensures r.Done? && Within(c, |xs|, |ys|) ==> Within(r.value, |xs|, |ys|)
    decreases fuel, 3, |ys| - j
  {
    if j == |ys| then Done(c)
    else if j in c.ys then SecondPass(xs, ys, j + 1, c, fuel)
    else
      match ScanFrom(ys[j], xs, 0, NoMatch, c.subst, fuel)
      case Stalled => Exhausted
      case One(s1, i) => SecondPass(xs, ys, j + 1, Claims(s1, c.xs + {i}, c.ys + {j}), fuel)
      case _ => Fail
  }

  /** The claims after both passes. */
  function SetClaims(xs: seq<Node>, ys: seq<Node>, s: Subst, fuel: nat): (r: Outcome<Claims>)
    ensures r.Done? ==> Extends(s, r.value.subst) && Within(r.value, |xs|, |ys|)
    decreases fuel, 4, 0
  {
    match FirstPass(xs, ys, 0, Claims(s, {}, {}), fuel)
    case Done(c1) => SecondPass(xs, ys, 0, c1, fuel)
    case Fail => Fail
    case Exhausted => Exhausted
  }

  /** `unify_sets(xs, ys, subst)`: both passes, then the check that as many
      indices were dealt with as each list has. */
  function SetMatch(xs: seq<Node>, ys: seq<Node>, s: Subst, fuel: nat): (r: Outcome<Subst>)
    ensures r.Done? ==> Extends(s, r.value)
    decreases fuel, 5, 0
  {
    match SetClaims(xs, ys, s, fuel)
    case Done(c) => if |c.xs| == |xs| && |c.ys| == |ys| then Done(c.subst) else Fail
    case Fail => Fail
    case Exhausted => Exhausted
  }

  /** `unify_sets`, with its nested loops. */
  method UnifySets(xs: seq<Node>, ys: seq<Node>, subst: Subst, fuel: nat) returns (r: Outcome<Subst>)
    ensures r == SetMatch(xs, ys, subst, fuel)
  {
    var dealtWithXs: set<nat> := {};
    var dealtWithYs: set<nat> := {};
    var newSubst := subst;

    // First pass
    for i := 0 to |xs|
      invariant FirstPass(xs, ys, i, Claims(newSubst, dealtWithXs, dealtWithYs), fuel)
             == FirstPass(xs, ys, 0, Claims(subst, {}, {}), fuel)
    {
      var m := ScanAll(xs[i], ys, newSubst, fuel);
      if m.Stalled? {
        return Exhausted;
      }
      if m.One? {
        newSubst := m.subst;
        dealtWithXs := dealtWithXs + {i};
        dealtWithYs := dealtWithYs + {m.index};
      }
    }
    ghost var c1 := Claims(newSubst, dealtWithXs, dealtWithYs);
    assert FirstPass(xs, ys, 0, Claims(subst, {}, {}), fuel) == Done(c1);

    // Second pass
    for j := 0 to |ys|
      invariant SecondPass(xs, ys, j, Claims(newSubst, dealtWithXs, dealtWithYs), fuel)
             == SecondPass(xs, ys, 0, c1, fuel)
    {
      if j !in dealtWithYs {
        var m := ScanAll(ys[j], xs, newSubst, fuel);
        if m.Stalled? {
          return Exhausted;
        }
        if !m.One? {
          return Fail;
        }
        newSubst := m.subst;
        dealtWithYs := dealtWithYs + {j};
        dealtWithXs := dealtWithXs + {m.index};
      }
    }

    if |dealtWithXs| == |xs| && |dealtWithYs| == |ys| {
      r := Done(newSubst);
    } else {
      r := Fail;
    }
  }

  /** The inner loop of a pass: unifies `x` with each candidate in turn and
      stops at the second match. */
  method ScanAll(x: Node, cands: seq<Node>, s: Subst, fuel: nat) returns (m: Scan)
    ensures m == ScanFrom(x, cands, 0, NoMatch, s, fuel)
  {
    m := NoMatch;
    var k := 0;
    while k < |cands|
      invariant k <= |cands|
      invariant m.NoMatch? || m.One?
      invariant ScanFrom(x, cands, k, m, s, fuel) == ScanFrom(x, cands, 0, NoMatch, s, fuel)
    {
      var substCopy := CloneSubst(s);
      var unified := Unify(x, cands[k], substCopy, fuel);
      if unified.Exhausted? {
        return Stalled;
      }
      if unified.Done? {
        if m.One? {
          return Many;
        }
        m := One(unified.value, k);
      }
      k := k + 1;
    }
  }

  // ---------------------------------------------------------------------------
  // Properties of the dispatch in `unify`

  /** A metavariable on either side is handled first, `x` before `y`: a bound
      metavariable's value is unified with the other side, an unbound one is
      bound to the other side whatever that is. */
  lemma MetavarFirst(x: Node, y: Node, s: Subst, fuel: nat)
    requires (x.Variable? && x.metavar) || (y.Variable? && y.metavar)
    ensures var (mv, other) := if x.Variable? && x.metavar then (x, y) else (y, x);
      && (mv.name !in s ==> Unify(x, y, s, fuel + 1) == Done(s[mv.name := other]))
      && (mv.name in s ==> Unify(x, y, s, fuel + 1) == Unify(s[mv.name], other, s, fuel))
  {
  }

  /** A free (non-meta) Variable facing a non-metavariable unifies only with a
      term: against a Const or a formula node the answer is `null`. */
  lemma FreeVariableNeedsTerm(x: Node, y: Node, s: Subst, fuel: nat)
    requires x.Variable? && !x.metavar && !x.bound
    requires !(y.Variable? && y.metavar)
    requires !IsTerm(y)
    ensures Unify(x, y, s, fuel + 1) == Fail
    ensures Unify(y, x, s, fuel + 1) == Fail
  {
  }

  /** Against an empty substitution a free Variable unifies with a node exactly
      when that node is a term in the sense of `is_term`, and it is then bound
      to it. */
  lemma FreeVariableTakesTerms(x: Node, y: Node, fuel: nat)
    requires x.Variable? && !x.metavar && !x.bound
    requires !(y.Variable? && y.metavar)
    ensures Unify(x, y, map[], fuel + 1).Done? <==> IsTerm(y)
    ensures IsTerm(y) ==> Unify(x, y, map[], fuel + 1) == Done(map[x.name := y])
  {
  }

  /** Neither `unify_var` nor `unify_metavar` tests whether the node met is the
      variable itself: an unbound free Variable or metavariable met against
      itself under an empty substitution is bound to itself. */
  lemma UnifyBindsItself(v: Node, fuel: nat)
    requires v.Variable? && (v.metavar || !v.bound)
    ensures Unify(v, v, map[], fuel + 1) == Done(map[v.name := v])
  {
  }

  /** With no free variable or metavariable on either side, nodes of different
      types never unify, and neither do two Quantifiers. */
  lemma RigidMismatchFails(x: Node, y: Node, s: Subst, fuel: nat)
    requires !Flexible(x) && !Flexible(y)
    requires !SameType(x, y) || (x.Quantifier? && y.Quantifier?)
    ensures Unify(x, y, s, fuel + 1) == Fail
  {
  }

  /** Equal-named bound Variables and equal-named Consts unify without
      touching the substitution. */
  lemma EqualLeavesUnify(x: Node, y: Node, s: Subst, fuel: nat)
    requires !Flexible(x) && !Flexible(y)
    requires (x.Variable? && y.Variable? && x.name == y.name) || (x.Const? && y.Const? && x.name == y.name)
    ensures Unify(x, y, s, fuel + 1) == Done(s)
  {
  }

  /** Compound nodes unify only when their shapes agree: Applications need equal
      symbol names and argument counts, Tuples equal lengths, connectives
      equal names. */
  lemma CompoundShapesAgree(x: Node, y: Node, s: Subst, fuel: nat)
    requires Unify(x, y, s, fuel).Done?
    ensures x.Application? && y.Application? ==> NameOf(x.symbol) == NameOf(y.symbol) && |x.arguments| == |y.arguments|
    ensures x.Tuple? && y.Tuple? ==> |x.elements| == |y.elements|
    ensures x.LogicalBinary? && y.LogicalBinary? ==> x.name == y.name
    ensures x.LogicalUnary? && y.LogicalUnary? ==> x.name == y.name
  {
  }

  /** Unifying lists is unifying their prefixes, then their suffixes under the
      substitution the prefixes produced; a failure in the prefix is final. */
  lemma {:induction false} UnifyListsAppend(xs1: seq<Node>, xs2: seq<Node>, ys1: seq<Node>, ys2: seq<Node>, s: Subst, fuel: nat)
    requires |xs1| == |ys1| && |xs2| == |ys2|
    ensures UnifyLists(xs1 + xs2, ys1 + ys2, s, fuel) ==
      match UnifyLists(xs1, ys1, s, fuel)
      case Done(s1) => UnifyLists(xs2, ys2, s1, fuel)
      case Fail => Fail
      case Exhausted => Exhausted
    decreases |xs1|
  {
    if |xs1| == 0 {
      assert xs1 + xs2 == xs2 && ys1 + ys2 == ys2;
    } else {
      assert (xs1 + xs2)[1..] == xs1[1..] + xs2;
      assert (ys1 + ys2)[1..] == ys1[1..] + ys2;
      match Unify(xs1[0], ys1[0], s, fuel)
      case Done(s1) => UnifyListsAppend(xs1[1..], xs2, ys1[1..], ys2, s1, fuel);
      case Fail =>
      case Exhausted =>
    }
  }

  /** Two connectives with the same name unify like the pair of their sides:
      the left sides first, then the right sides under the result. */
  lemma ConnectiveAsPair(l1: Node, r1: Node, l2: Node, r2: Node, name: string, s: Subst, fuel: nat)
    ensures Unify(LogicalBinary(l1, r1, name), LogicalBinary(l2, r2, name), s, fuel + 1)
         == UnifyLists([l1, r1], [l2, r2], s, fuel)
  {
    assert [l1, r1][1..] == [r1] && [l2, r2][1..] == [r2];
    match Unify(l1, l2, s, fuel)
    case Done(s1) =>
      assert [r1][1..] == [] && [r2][1..] == [];
      match Unify(r1, r2, s1, fuel) {
        case Done(s2) =>
          assert UnifyLists([r1], [r2], s1, fuel) == UnifyLists([], [], s2, fuel) == Done(s2);
        case Fail =>
        case Exhausted =>
      }
    case Fail =>
    case Exhausted =>
  }

  // ---------------------------------------------------------------------------
  // Properties of the set matching

  /** The candidates from index `k` on that unify with `x`. */
  ghost function Hits(x: Node, cands: seq<Node>, k: nat, s: Subst, fuel: nat): set<nat>
  {
    set j: nat | k <= j < |cands| && Unify(x, cands[j], s, fuel).Done?
  }

  /** No attempt from index `k` on runs out of fuel. */
  ghost predicate Decided(x: Node, cands: seq<Node>, k: nat, s: Subst, fuel: nat)
  {
    forall j :: k <= j < |cands| ==> !Unify(x, cands[j], s, fuel).Exhausted?
  }

  /** The matches a scan has seen: the earlier one it carries, and the hits ahead. */
  ghost function Seen(x: Node, cands: seq<Node>, k: nat, found: Scan, s: Subst, fuel: nat): set<nat>
  {
    Hits(x, cands, k, s, fuel) + if found.One? then {found.index} else {}
  }

  lemma HitsStep(x: Node, cands: seq<Node>, k: nat, s: Subst, fuel: nat)
    requires k < |cands|
    ensures Hits(x, cands, k, s, fuel)
         == Hits(x, cands, k + 1, s, fuel) + if Unify(x, cands[k], s, fuel).Done? then {k} else {}
  {
  }

  lemma {:induction false} ScanFromSpec(x: Node, cands: seq<Node>, k: nat, found: Scan, s: Subst, fuel: nat)
    requires k <= |cands|
    requires found.NoMatch? || (found.One? && found.index < k)
    requires Decided(x, cands, k, s, fuel)
    ensures var r := ScanFrom(x, cands, k, found, s, fuel);
      var seen := Seen(x, cands, k, found, s, fuel);
      && !r.Stalled?
      && (r.NoMatch? ==> seen == {})
      && (r.One? ==> seen == {r.index})
      && (r.One? && r != found ==> Unify(x, cands[r.index], s, fuel) == Done(r.subst))
      && (r.Many? ==> exists j1, j2 :: j1 in seen && j2 in seen && j1 != j2)
    decreases |cands| - k
  {
    if k == |cands| {
      assert Hits(x, cands, k, s, fuel) == {};
    } else {
      HitsStep(x, cands, k, s, fuel);
      var seen := Seen(x, cands, k, found, s, fuel);
      match Unify(x, cands[k], s, fuel)
      case Fail =>
        assert Seen(x, cands, k + 1, found, s, fuel) == seen;
        ScanFromSpec(x, cands, k + 1, found, s, fuel);
      case Done(r) =>
        if found.One? {
          assert found.index in seen && k in seen && found.index != k;
        } else {
          assert Seen(x, cands, k + 1, One(r, k), s, fuel) == seen;
          ScanFromSpec(x, cands, k + 1, One(r, k), s, fuel);
        }
    }
  }

  /** A scan answers by the number of candidates that unify with `x`: none,
      exactly one (its index and substitution), or several. */
  lemma ScanSpec(x: Node, cands: seq<Node>, s: Subst, fuel: nat)
    requires Decided(x, cands, 0, s, fuel)
    ensures var r := ScanFrom(x, cands, 0, NoMatch, s, fuel);
      var hits := Hits(x, cands, 0, s, fuel);
      && !r.Stalled?
      && (r.NoMatch? <==> hits == {})
      && (r.One? ==> hits == {r.index} && Unify(x, cands[r.index], s, fuel) == Done(r.subst))
      && (r.Many? ==> exists j1, j2 :: j1 in hits && j2 in hits && j1 != j2)
  {
    ScanFromSpec(x, cands, 0, NoMatch, s, fuel);
    var r := ScanFrom(x, cands, 0, NoMatch, s, fuel);
    assert Seen(x, cands, 0, NoMatch, s, fuel) == Hits(x, cands, 0, s, fuel);
    if r.One? {
      assert r.index in Hits(x, cands, 0, s, fuel);
    }
    if r.Many? {
      var j1, j2 :| j1 in Hits(x, cands, 0, s, fuel) && j2 in Hits(x, cands, 0, s, fuel) && j1 != j2;
    }
  }

  /** The indices of a list of length `n`. */
  function Indices(n: nat): (r: set<nat>)
    ensures forall i :: i in r <==> 0 <= i < n
  {
    if n == 0 then {} else Indices(n - 1) + {n - 1}
  }

  lemma {:induction false} IndicesSize(n: nat)
    ensures |Indices(n)| == n
  {
    if n > 0 {
      IndicesSize(n - 1);
    }
  }

  /** A set of indices below `n` has `n` elements exactly when it holds them all. */
  lemma FullIndices(a: set<nat>, n: nat)
    requires forall i | i in a :: i < n
    ensures |a| == n <==> a == Indices(n)
  {
    IndicesSize(n);
    if a != Indices(n) {
      var i :| i in Indices(n) && i !in a;
      var b := Indices(n) - {i};
      assert a <= b;
      assert b == a + (b - a);
      assert |b| == n - 1;
    }
  }

  /** `unify_sets` succeeds exactly when both passes finish and every index of
      `xs` and of `ys` has been dealt with; the second pass alone already deals
      with every index of `ys`. */
  lemma SetMatchSpec(xs: seq<Node>, ys: seq<Node>, s: Subst, fuel: nat)
    ensures var c := SetClaims(xs, ys, s, fuel);
      && (c.Done? ==> c.value.ys == Indices(|ys|))
      && (SetMatch(xs, ys, s, fuel).Done? <==> c.Done? && c.value.xs == Indices(|xs|) && c.value.ys == Indices(|ys|))
      && (SetMatch(xs, ys, s, fuel).Done? ==> SetMatch(xs, ys, s, fuel).value == c.value.subst)
  {
    var c := SetClaims(xs, ys, s, fuel);
    if c.Done? {
      FullIndices(c.value.xs, |xs|);
      FullIndices(c.value.ys, |ys|);
    }
  }

  /** A free Variable: neither a metavariable nor bound. */
  function Free(name: string): Node
  {
    Variable(name, false, false)
  }

  /** `{a}` against `{b, c}` succeeds: `a` matches both in the first pass and is
      left unclaimed; in the second pass `b` and `c` each match `a` alone. */
  lemma SetOneAgainstTwo()
    ensures Unify(Set([Free("a")]), Set([Free("b"), Free("c")]), map[], 3)
         == Done(map["b" := Free("a"), "c" := Free("a")])
  {
    var xs, ys := [Free("a")], [Free("b"), Free("c")];
    var s1 := map["b" := Free("a")];
    assert ScanFrom(xs[0], ys, 0, NoMatch, map[], 2) == Many;
    assert FirstPass(xs, ys, 0, Claims(map[], {}, {}), 2) == Done(Claims(map[], {}, {}));
    assert ScanFrom(ys[0], xs, 0, NoMatch, map[], 2) == One(s1, 0);
    assert ScanFrom(ys[1], xs, 0, NoMatch, s1, 2) == One(s1["c" := Free("a")], 0);
    var s2 := s1["c" := Free("a")];
    assert SecondPass(xs, ys, 2, Claims(s2, {0}, {0, 1}), 2) == Done(Claims(s2, {0}, {0, 1}));
    assert {0} + {0} == {0} && {0} + {1} == {0, 1};
    assert SecondPass(xs, ys, 1, Claims(s1, {0}, {0}), 2) == Done(Claims(s2, {0}, {0, 1}));
    var none: set<nat> := {};
    assert none + {0} == {0};
    assert SecondPass(xs, ys, 0, Claims(map[], none, none), 2) == Done(Claims(s2, {0}, {0, 1}));
  }

  /** `{a, b}` against `{b, a}` fails: every element of each side unifies with
      both elements of the other, so no element is ever claimed. */
  lemma SetSwappedPairFails()
    ensures Unify(Set([Free("a"), Free("b")]), Set([Free("b"), Free("a")]), map[], 3) == Fail
  {
    var xs, ys := [Free("a"), Free("b")], [Free("b"), Free("a")];
    assert ScanFrom(xs[0], ys, 0, NoMatch, map[], 2) == Many;
    assert ScanFrom(xs[1], ys, 0, NoMatch, map[], 2) == Many;
    assert FirstPass(xs, ys, 0, Claims(map[], {}, {}), 2) == Done(Claims(map[], {}, {}));
    assert ScanFrom(ys[0], xs, 0, NoMatch, map[], 2) == Many;
  }

  // ---------------------------------------------------------------------------
  // Fuel

  /** More fuel changes no answer that was reached: `Exhausted` stands only for
      recursion deeper than the bound. */
  lemma {:induction false} UnifyFuel(x: Node, y: Node, s: Subst, fuel: nat)
    requires !Unify(x, y, s, fuel).Exhausted?
    ensures Unify(x, y, s, fuel + 1) == Unify(x, y, s, fuel)
    decreases fuel, 0, 1
  {
    if x.Variable? && x.metavar {
      UnifyMetavarFuel(x, y, s, fuel - 1);
    } else if y.Variable? && y.metavar {
      UnifyMetavarFuel(y, x, s, fuel - 1);
    } else if x.Variable? && !x.bound {
      if IsTerm(y) {
        UnifyVarFuel(x, y, s, fuel - 1);
      }
    } else if y.Variable? && !y.bound {
      if IsTerm(x) {
        UnifyVarFuel(y, x, s, fuel - 1);
      }
    } else {
      RigidFuel(x, y, s, fuel - 1);
    }
  }

  /** `UnifyFuel` past the variable cases: the structural comparison. */
  lemma {:induction false} RigidFuel(x: Node, y: Node, s: Subst, fuel: nat)
    requires !Flexible(x) && !Flexible(y)
    requires !Unify(x, y, s, fuel + 1).Exhausted?
    ensures Unify(x, y, s, fuel + 2) == Unify(x, y, s, fuel + 1)
    decreases fuel + 1, 0, 0
  {
    match (x, y)
    case (Application(f, xs), Application(g, ys)) =>
      if NameOf(f) == NameOf(g) && |xs| == |ys| {
        UnifyListsFuel(xs, ys, s, fuel);
      }
    case (Tuple(xs), Tuple(ys)) =>
      if |xs| == |ys| {
        UnifyListsFuel(xs, ys, s, fuel);
      }
    case (Set(xs), Set(ys)) =>
      SetMatchFuel(xs, ys, s, fuel);
    case (LogicalBinary(l1, r1, a), LogicalBinary(l2, r2, b)) =>
      if a == b {
        UnifyFuel(l1, l2, s, fuel);
        var u := Unify(l1, l2, s, fuel);
        if u.Done? {
          UnifyFuel(r1, r2, u.value, fuel);
        }
      }
    case (LogicalUnary(f1, a), LogicalUnary(f2, b)) =>
      if a == b {
        UnifyFuel(f1, f2, s, fuel);
      }
    case _ =>
  }

  lemma {:induction false} UnifyVarFuel(v: Node, x: Node, s: Subst, fuel: nat)
    requires v.Variable?
    requires !UnifyVar(v, x, s, fuel).Exhausted?
    ensures UnifyVar(v, x, s, fuel + 1) == UnifyVar(v, x, s, fuel)
    decreases fuel, 1, 0
  {
    if v.name in s {
      UnifyFuel(s[v.name], x, s, fuel);
    } else if x.Variable? && x.name in s {
      UnifyFuel(v, s[x.name], s, fuel);
    }
  }

  lemma {:induction false} UnifyMetavarFuel(mv: Node, x: Node, s: Subst, fuel: nat)
    requires mv.Variable?
    requires !UnifyMetavar(mv, x, s, fuel).Exhausted?
    ensures UnifyMetavar(mv, x, s, fuel + 1) == UnifyMetavar(mv, x, s, fuel)
    decreases fuel, 1, 0
  {
    if mv.name in s {
      UnifyFuel(s[mv.name], x, s, fuel);
    }
  }

  lemma {:induction false} UnifyListsFuel(xs: seq<Node>, ys: seq<Node>, s: Subst, fuel: nat)
    requires |xs| == |ys|
    requires !UnifyLists(xs, ys, s, fuel).Exhausted?
    ensures UnifyLists(xs, ys, s, fuel + 1) == UnifyLists(xs, ys, s, fuel)
    decreases fuel, 1, |xs|
  {
    if |xs| > 0 {
      UnifyFuel(xs[0], ys[0], s, fuel);
      var u := Unify(xs[0], ys[0], s, fuel);
      if u.Done? {
        UnifyListsFuel(xs[1..], ys[1..], u.value, fuel);
      }
    }
  }

  lemma {:induction false} ScanFromFuel(x: Node, cands: seq<Node>, k: nat, found: Scan, s: Subst, fuel: nat)
    requires k <= |cands|
    requires found.NoMatch? || found.One?
    requires !ScanFrom(x, cands, k, found, s, fuel).Stalled?
    ensures ScanFrom(x, cands, k, found, s, fuel + 1) == ScanFrom(x, cands, k, found, s, fuel)
    decreases fuel, 2, |cands| - k
  {
    if k < |cands| {
      UnifyFuel(x, cands[k], s, fuel);
      match Unify(x, cands[k], s, fuel)
      case Fail =>
        ScanFromFuel(x, cands, k + 1, found, s, fuel);
      case Done(r) =>
        if !found.One? {
          ScanFromFuel(x, cands, k + 1, One(r, k), s, fuel);
        }
    }
  }

  lemma {:induction false} FirstPassFuel(xs: seq<Node>, ys: seq<Node>, i: nat, c: Claims, fuel: nat)
    requires i <= |xs|
    requires !FirstPass(xs, ys, i, c, fuel).Exhausted?
    ensures FirstPass(xs, ys, i, c, fuel + 1) == FirstPass(xs, ys, i, c, fuel)
    decreases fuel, 3, |xs| - i
  {
    if i < |xs| {
      ScanFromFuel(xs[i], ys, 0, NoMatch, c.subst, fuel);
      match ScanFrom(xs[i], ys, 0, NoMatch, c.subst, fuel)
      case One(s1, j) =>
        FirstPassFuel(xs, ys, i + 1, Claims(s1, c.xs + {i}, c.ys + {j}), fuel);
      case NoMatch =>
        FirstPassFuel(xs, ys, i + 1, c, fuel);
      case Many =>
        FirstPassFuel(xs, ys, i + 1, c, fuel);
    }
  }

  lemma {:induction false} SecondPassFuel(xs: seq<Node>, ys: seq<Node>, j: nat, c: Claims, fuel: nat)
    requires j <= |ys|
    requires !SecondPass(xs, ys, j, c, fuel).Exhausted?
    ensures SecondPass(xs, ys, j, c, fuel + 1) == SecondPass(xs, ys, j, c, fuel)
    decreases fuel, 3, |ys| - j
  {
    if j < |ys| {
      if j in c.ys {
        SecondPassFuel(xs, ys, j + 1, c, fuel);
      } else {
        ScanFromFuel(ys[j], xs, 0, NoMatch, c.subst, fuel);
        match ScanFrom(ys[j], xs, 0, NoMatch, c.subst, fuel)
        case One(s1, i) =>
          SecondPassFuel(xs, ys, j + 1, Claims(s1, c.xs + {i}, c.ys + {j}), fuel);
        case NoMatch =>
        case Many =>
      }
    }
  }

  lemma {:induction false} SetMatchFuel(xs: seq<Node>, ys: seq<Node>, s: Subst, fuel: nat)
    requires !SetMatch(xs, ys, s, fuel).Exhausted?
    ensures SetMatch(xs, ys, s, fuel + 1) == SetMatch(xs, ys, s, fuel)
    decreases fuel, 5, 0
  {
    FirstPassFuel(xs, ys, 0, Claims(s, {}, {}), fuel);
    match FirstPass(xs, ys, 0, Claims(s, {}, {}), fuel)
    case Done(c1) =>
      SecondPassFuel(xs, ys, 0, c1, fuel);
  }

  /** Any answer reached under some fuel is the answer under all larger fuel. */
  lemma {:induction false} UnifyFuelMonotone(x: Node, y: Node, s: Subst, fuel: nat, more: nat)
    requires fuel <= more
    requires !Unify(x, y, s, fuel).Exhausted?
    ensures Unify(x, y, s, more) == Unify(x, y, s, fuel)
    decreases more - fuel
  {
    if fuel < more {
      UnifyFuel(x, y, s, fuel);
      UnifyFuelMonotone(x, y, s, fuel + 1, more);
    }
  }
}
