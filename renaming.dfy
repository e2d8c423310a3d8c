/** Alpha-renaming with fresh `base_n` names: `vars_rename` and its `newName`
    closure (node_helper.js). The closure state of one call, the rename map and
    the caller's `inUse` list, is a `RenameState` threaded through the walk. */
module Renaming {
  import opened Wrappers
  import opened NodeHelper

  // ---------------------------------------------------------------------------
  // Decimal numerals

  predicate IsDigit(c: char)
  {
    '0' <= c <= '9'
  }

  predicate AllDigits(s: string)
  {
    forall i :: 0 <= i < |s| ==> IsDigit(s[i])
  }

  function Digit(d: nat): (c: char)
    requires d < 10
    ensures IsDigit(c) && c as int - '0' as int == d
  {
    (('0' as int) + d) as char
  }

  /** `${num}`: the decimal numeral of a non-negative integer. */
  function NatToString(n: nat): (s: string)
    ensures s != [] && AllDigits(s)
    decreases n
  {
    if n < 10 then [Digit(n)] else NatToString(n / 10) + [Digit(n % 10)]
  }

  /** `parseInt(s, 10)` of a string of decimal digits. */
  function ParseDigits(s: string): nat
    requires AllDigits(s)
    decreases |s|
  {
    if s == [] then 0 else ParseDigits(s[..|s| - 1]) * 10 + (s[|s| - 1] as int - '0' as int)
  }

  /** Reading back a printed number gives the number. */
  lemma {:induction false} ParseNatToString(n: nat)
    ensures ParseDigits(NatToString(n)) == n
    decreases n
  {
    if n >= 10 {
      var s := NatToString(n);
      assert s[..|s| - 1] == NatToString(n / 10);
      ParseNatToString(n / 10);
    }
  }

  // ---------------------------------------------------------------------------
  // The pattern /(.*)_(\d+)$/

  /** The line terminators of JS, which `.` in a pattern does not match. */
  predicate IsLineTerminator(c: char)
  {
    c == '\n' || c == '\r' || c == '\U{2028}' || c == '\U{2029}'
  }

  /** The position just after the last line terminator of `s` (0 if none). */
  function LineStart(s: string): (k: nat)
    ensures k <= |s|
    ensures forall i :: k <= i < |s| ==> !IsLineTerminator(s[i])
    ensures 0 < k ==> IsLineTerminator(s[k - 1])
    decreases |s|
  {
    if s == [] then 0
    else if IsLineTerminator(s[|s| - 1]) then |s|
    else LineStart(s[..|s| - 1])
  }

  /** The position of the last `_` of `s`, if any. */
  function LastUnderscore(s: string): (r: Option<nat>)
    ensures r.Some? ==> r.value < |s| && s[r.value] == '_' && forall i :: r.value < i < |s| ==> s[i] != '_'
    ensures r.None? ==> forall i :: 0 <= i < |s| ==> s[i] != '_'
    decreases |s|
  {
    if s == [] then None
    else if s[|s| - 1] == '_' then Some(|s| - 1)
    else LastUnderscore(s[..|s| - 1])
  }

  /** `name.match(/(.*)_(\d+)$/)` turned into the base name and starting number
      of `newName`: on a match the first group and the parsed second group,
      otherwise the whole name and 0. The pattern is unanchored at the start and
      `.` stops at line terminators, so the first group begins after the last
      of them. */
  function SplitSuffix(name: string): (string, nat)
  {
    match LastUnderscore(name)
    case Some(u) =>
      if u + 1 < |name| && AllDigits(name[u + 1..]) then
        assert LineStart(name) <= u;
        (name[LineStart(name)..u], ParseDigits(name[u + 1..]))
      else (name, 0)
    case None => (name, 0)
  }

  /** The candidate `${baseName}_${num}`. */
  function Candidate(base: string, n: nat): string
  {
    base + "_" + NatToString(n)
  }

  /** A candidate name splits back into its base and its number, so renaming a
      renamed name continues from its number. */
  lemma SplitCandidate(base: string, n: nat)
    ensures SplitSuffix(Candidate(base, n)) == (base[LineStart(base)..], n)
  {
    var c := Candidate(base, n);
    CandidateParts(base, n);
    ParseNatToString(n);
    assert c[LineStart(base)..|base|] == base[LineStart(base)..];
  }

  lemma CandidateParts(base: string, n: nat)
    ensures var c := Candidate(base, n);
      && LastUnderscore(c) == Some(|base|)
      && c[|base| + 1..] == NatToString(n)
      && LineStart(c) == LineStart(base)
  {
    var c := Candidate(base, n);
    assert c == base + ("_" + NatToString(n));
    LastUnderscoreCandidate(base, n);
    LineStartAppend(base, "_" + NatToString(n));
  }

  lemma LastUnderscoreCandidate(base: string, n: nat)
    ensures LastUnderscore(Candidate(base, n)) == Some(|base|)
  {
    var c := Candidate(base, n);
    var digits := NatToString(n);
    assert c[|base|] == '_';
    assert forall i :: |base| < i < |c| ==> c[i] == digits[i - |base| - 1];
  }

  lemma {:induction false} LineStartAppend(s: string, t: string)
    requires forall i :: 0 <= i < |t| ==> !IsLineTerminator(t[i])
    ensures LineStart(s + t) == LineStart(s)
    decreases |t|
  {
    if t != [] {
      assert (s + t)[..|s + t| - 1] == s + t[..|t| - 1];
      LineStartAppend(s, t[..|t| - 1]);
    } else {
      assert s + t == s;
    }
  }

  /** Different numbers give different candidates. */
  lemma CandidateInjective(base: string, a: nat, b: nat)
    requires Candidate(base, a) == Candidate(base, b)
    ensures a == b
  {
    SplitCandidate(base, a);
    SplitCandidate(base, b);
  }

  // ---------------------------------------------------------------------------
  // The probe loop

  /** The candidates the probe loop has rejected before reaching `k`. */
  function Tried(base: string, k: nat): set<string>
  {
    set j: nat | j < k :: Candidate(base, j)
  }

  lemma TriedShrinks(base: string, k: nat, pool: set<string>)
    requires Candidate(base, k) in pool
    ensures |pool - Tried(base, k + 1)| < |pool - Tried(base, k)|
  {
    var c := Candidate(base, k);
    assert Tried(base, k + 1) == Tried(base, k) + {c};
    if c in Tried(base, k) {
      var j: nat :| j < k && Candidate(base, j) == c;
      CandidateInjective(base, j, k);
    }
    assert pool - Tried(base, k + 1) == (pool - Tried(base, k)) - {c};
  }

  /** The first number from `k` on whose candidate is not in `pool`. */
  function NextFree(base: string, k: nat, pool: set<string>): (n: nat)
    ensures k <= n && Candidate(base, n) !in pool
    ensures forall j :: k <= j < n ==> Candidate(base, j) in pool
    decreases |pool - Tried(base, k)|
  {
    if Candidate(base, k) !in pool then k
    else
      TriedShrinks(base, k, pool);
      NextFree(base, k + 1, pool)
  }

  // ---------------------------------------------------------------------------
  // The state of one `vars_rename` call

  /** The rename map of the call and the (caller's) list of names in use. */
  datatype RenameState = RenameState(renameMap: map<string, string>, inUse: seq<string>)

  /** The names a candidate must avoid: `inUse` and the keys of the rename map. */
  function Pool(st: RenameState): set<string>
  {
    (set x | x in st.inUse) + st.renameMap.Keys
  }

  /** Every entry of `m1` is in `m2`, unchanged. */
  predicate MapGrows(m1: map<string, string>, m2: map<string, string>)
  {
    forall k | k in m1 :: k in m2 && m2[k] == m1[k]
  }

  /** What the closure keeps true over one call that started from `inUse0`: the
      list only grows, every chosen name was appended to it and was not among
      the initial names, and no two names share a new name. */
  ghost predicate ValidState(st: RenameState, inUse0: seq<string>)
  {
    && |inUse0| <= |st.inUse|
    && st.inUse[..|inUse0|] == inUse0
    && (forall k | k in st.renameMap :: st.renameMap[k] in st.inUse && st.renameMap[k] !in inUse0)
    && (forall k1, k2 | k1 in st.renameMap && k2 in st.renameMap && k1 != k2 ::
          st.renameMap[k1] != st.renameMap[k2])
  }

  /** The name `newName` chooses for `name` when it has none yet: the first
      candidate `base_n` outside `pool`, counting from the name's own suffix.
      The number is read back from the chosen name itself. */
  function FreshName(name: string, pool: set<string>): (c: string)
    ensures c !in pool
    ensures var (base, num) := SplitSuffix(name);
      && c == Candidate(base, SplitSuffix(c).1)
      && num <= SplitSuffix(c).1
      && (forall j :: num <= j < SplitSuffix(c).1 ==> Candidate(base, j) in pool)
  {
    var (base, num) := SplitSuffix(name);
    var n := NextFree(base, num, pool);
    SplitCandidate(base, n);
    Candidate(base, n)
  }

  /** `newName`: the name already chosen for `name`, or a fresh one, which is
      then recorded in the map and appended to `inUse`. */
  function NewNameSpec(name: string, st: RenameState): (r: (string, RenameState))
    ensures name in r.1.renameMap && r.1.renameMap[name] == r.0
    ensures MapGrows(st.renameMap, r.1.renameMap)
    ensures name in st.renameMap ==> r == (st.renameMap[name], st)
    ensures name !in st.renameMap ==>
      && r.0 !in st.inUse && r.0 !in st.renameMap
      && r.1.inUse == st.inUse + [r.0]
      && r.1.renameMap.Keys == st.renameMap.Keys + {name}
  {
    if name in st.renameMap then (st.renameMap[name], st)
    else
      var chosen := FreshName(name, Pool(st));
      (chosen, RenameState(st.renameMap[name := chosen], st.inUse + [chosen]))
  }

  /** Choosing a name keeps the closure's invariant. */
  lemma NewNameValid(name: string, st: RenameState, inUse0: seq<string>)
    requires ValidState(st, inUse0)
    ensures ValidState(NewNameSpec(name, st).1, inUse0)
  {
    var (chosen, st') := NewNameSpec(name, st);
    if name !in st.renameMap {
      assert st'.inUse[..|inUse0|] == st.inUse[..|inUse0|];
      forall k | k in st.renameMap ensures st.renameMap[k] != chosen {
        assert st.renameMap[k] in st.inUse;
      }
      assert chosen !in inUse0 by {
        assert st.inUse[..|inUse0|] == inUse0;
      }
    }
  }

  /** The name `x` becomes under the map `m` when the names in `need` are renamed. */
  function RenameName(m: map<string, string>, need: seq<string>, x: string): string
  {
    if x in need && x in m then m[x] else x
  }

  function RenameNames(m: map<string, string>, need: seq<string>, xs: seq<string>): (ys: seq<string>)
    ensures |ys| == |xs|
  {
    seq(|xs|, i requires 0 <= i < |xs| => RenameName(m, need, xs[i]))
  }

  /** Every name of `xs` that is to be renamed has an entry in `m`. */
  predicate Covers(m: map<string, string>, need: seq<string>, xs: seq<string>)
  {
    forall x :: x in xs && x in need ==> x in m
  }

  /** `node.variable.name = ...` on a binder that has a name. */
  function WithName(v: Node, y: string): (r: Node)
    requires NameOf(v).Some?
    ensures NameOf(r) == Some(y)
  {
    v.(name := y)
  }

  /** A Quantifier's binder after `vars_rename`. */
  function RenameBinder(need: seq<string>, v: Node, st: RenameState): (Node, RenameState)
  {
    match NameOf(v)
    case Some(x) =>
      if x in need then
        var (y, st1) := NewNameSpec(x, st);
        (WithName(v, y), st1)
      else (v, st)
    case None => (v, st)
  }

  /** A binder with its name blanked. */
  function Unnamed(v: Node): Node
  {
    if NameOf(v).Some? then v.(name := "") else v
  }

  /** The tree with every name `vars_rename` may rewrite blanked: the names of
      Variables and of Quantifier binders. Flags, Consts, symbols, connective
      names and the arrangement of the tree are what is left. */
  function Shape(n: Node): Node
    decreases n
  {
    match n
    case Variable(_, mv, b) => Variable("", mv, b)
    case Application(f, args) => Application(f, seq(|args|, i requires 0 <= i < |args| => Shape(args[i])))
    case Tuple(es) => Tuple(seq(|es|, i requires 0 <= i < |es| => Shape(es[i])))
    case Set(es) => Set(seq(|es|, i requires 0 <= i < |es| => Shape(es[i])))
    case Quantifier(v, body, q) => Quantifier(Unnamed(v), Shape(body), q)
    case LogicalUnary(body, op) => LogicalUnary(Shape(body), op)
    case LogicalBinary(l, r, op) => LogicalBinary(Shape(l), Shape(r), op)
    case _ => n
  }

  function Shapes(ns: seq<Node>): seq<Node>
  {
    seq(|ns|, i requires 0 <= i < |ns| => Shape(ns[i]))
  }

  /** The `rename` walk of `vars_rename` over one node. */
  function RenameNode(need: seq<string>, n: Node, st: RenameState): (Node, RenameState)
    decreases n
  {
    match n
    case Variable(x, mv, b) =>
      if x in need then
        var (y, st1) := NewNameSpec(x, st);
        (Variable(y, mv, b), st1)
      else (n, st)
    case Application(f, args) =>
      var (args', st1) := RenameList(need, args, st);
      (Application(f, args'), st1)
    case Tuple(es) =>
      var (es', st1) := RenameList(need, es, st);
      (Tuple(es'), st1)
    case Set(es) =>
      var (es', st1) := RenameList(need, es, st);
      (Set(es'), st1)
    case Quantifier(v, body, q) =>
      var (v', st1) := RenameBinder(need, v, st);
      var (body', st2) := RenameNode(need, body, st1);
      (Quantifier(v', body', q), st2)
    case LogicalUnary(body, op) =>
      var (body', st1) := RenameNode(need, body, st);
      (LogicalUnary(body', op), st1)
    case LogicalBinary(l, r, op) =>
      var (l', st1) := RenameNode(need, l, st);
      var (r', st2) := RenameNode(need, r, st1);
      (LogicalBinary(l', r', op), st2)
    case _ => (n, st)
  }

  /** `forEach(rename)`, left to right. */
  function RenameList(need: seq<string>, ns: seq<Node>, st: RenameState): (r: (seq<Node>, RenameState))
    ensures |r.0| == |ns|
    decreases ns
  {
    if ns == [] then ([], st)
    else
      var (init, st1) := RenameList(need, ns[..|ns| - 1], st);
      var (last, st2) := RenameNode(need, ns[|ns| - 1], st1);
      (init + [last], st2)
  }

  lemma RenameNamesAppend(m: map<string, string>, need: seq<string>, xs: seq<string>, ys: seq<string>)
    ensures RenameNames(m, need, xs + ys) == RenameNames(m, need, xs) + RenameNames(m, need, ys)
  {
  }

  lemma RenameNamesStable(m1: map<string, string>, m2: map<string, string>, need: seq<string>, xs: seq<string>)
    requires MapGrows(m1, m2) && Covers(m1, need, xs)
    ensures RenameNames(m1, need, xs) == RenameNames(m2, need, xs)
  {
  }

  /** What one step of the walk promises: the map only grows, covers the
      names to be renamed, the result's names are the input's renamed by the
      final map, and the closure's invariant is kept. */
  ghost predicate RenameStep(need: seq<string>, before: seq<string>, after: seq<string>,
                             st: RenameState, st': RenameState, inUse0: seq<string>)
  {
    && MapGrows(st.renameMap, st'.renameMap)
    && Covers(st'.renameMap, need, before)
    && after == RenameNames(st'.renameMap, need, before)
    && (ValidState(st, inUse0) ==> ValidState(st', inUse0))
  }

  /** Two steps in a row make one step over the concatenation. */
  lemma RenameStepCompose(need: seq<string>, b1: seq<string>, a1: seq<string>, b2: seq<string>, a2: seq<string>,
                          st: RenameState, st1: RenameState, st2: RenameState, inUse0: seq<string>)
    requires RenameStep(need, b1, a1, st, st1, inUse0)
    requires RenameStep(need, b2, a2, st1, st2, inUse0)
    ensures RenameStep(need, b1 + b2, a1 + a2, st, st2, inUse0)
  {
    RenameNamesStable(st1.renameMap, st2.renameMap, need, b1);
    RenameNamesAppend(st2.renameMap, need, b1, b2);
  }

  lemma RenameBinderSpec(need: seq<string>, v: Node, st: RenameState, inUse0: seq<string>)
    ensures var (v', st') := RenameBinder(need, v, st);
      RenameStep(need, BinderNames(v), BinderNames(v'), st, st', inUse0)
  {
    if NameOf(v).Some? && NameOf(v).value in need && ValidState(st, inUse0) {
      NewNameValid(NameOf(v).value, st, inUse0);
    }
  }

  /** Renaming rewrites names and nothing else. */
  lemma {:induction false} RenameShape(need: seq<string>, n: Node, st: RenameState)
    ensures Shape(RenameNode(need, n, st).0) == Shape(n)
    decreases n
  {
    match n
    case Application(_, args) => RenameShapeList(need, args, st);
    case Tuple(es) => RenameShapeList(need, es, st);
    case Set(es) => RenameShapeList(need, es, st);
    case Quantifier(v, body, _) =>
      var (v', st1) := RenameBinder(need, v, st);
      assert Unnamed(v') == Unnamed(v);
      RenameShape(need, body, st1);
    case LogicalUnary(body, _) => RenameShape(need, body, st);
    case LogicalBinary(l, r, _) =>
      RenameShape(need, l, st);
      RenameShape(need, r, RenameNode(need, l, st).1);
    case _ =>
  }

  lemma {:induction false} RenameShapeList(need: seq<string>, ns: seq<Node>, st: RenameState)
    ensures Shapes(RenameList(need, ns, st).0) == Shapes(ns)
    decreases ns
  {
    if ns != [] {
      var init, last := ns[..|ns| - 1], ns[|ns| - 1];
      var (rs1, st1) := RenameList(need, init, st);
      var (r2, st2) := RenameNode(need, last, st1);
      RenameShapeList(need, init, st);
      RenameShape(need, last, st1);
      assert Shapes(rs1 + [r2]) == Shapes(rs1) + [Shape(r2)];
      assert Shapes(ns) == Shapes(init) + [Shape(last)];
    }
  }

  /** `vars_rename` renames consistently: one new name per original name for
      the whole call, used at every occurrence and at every binder, names
      outside `need` untouched, and the closure's invariant kept; nothing but
      those names changes. */
  lemma {:induction false} RenameNodeSpec(need: seq<string>, n: Node, st: RenameState, inUse0: seq<string>)
    ensures var (r, st') := RenameNode(need, n, st);
      && RenameStep(need, Occurrences(n), Occurrences(r), st, st', inUse0)
      && Shape(r) == Shape(n)
    decreases n
  {
    RenameShape(need, n, st);
    match n
    case Variable(x, _, _) =>
      if x in need && ValidState(st, inUse0) {
        NewNameValid(x, st, inUse0);
      }
    case Application(_, args) =>
      RenameListSpec(need, args, st, inUse0);
    case Tuple(es) =>
      RenameListSpec(need, es, st, inUse0);
    case Set(es) =>
      RenameListSpec(need, es, st, inUse0);
    case Quantifier(v, body, _) =>
      var (v', st1) := RenameBinder(need, v, st);
      var (body', st2) := RenameNode(need, body, st1);
      RenameBinderSpec(need, v, st, inUse0);
      RenameNodeSpec(need, body, st1, inUse0);
      RenameStepCompose(need, BinderNames(v), BinderNames(v'), Occurrences(body), Occurrences(body'),
                        st, st1, st2, inUse0);
    case LogicalUnary(body, _) =>
      RenameNodeSpec(need, body, st, inUse0);
    case LogicalBinary(l, r, _) =>
      var (l', st1) := RenameNode(need, l, st);
      var (r', st2) := RenameNode(need, r, st1);
      RenameNodeSpec(need, l, st, inUse0);
      RenameNodeSpec(need, r, st1, inUse0);
      RenameStepCompose(need, Occurrences(l), Occurrences(l'), Occurrences(r), Occurrences(r'),
                        st, st1, st2, inUse0);
    case _ =>
  }

  lemma {:induction false} RenameListSpec(need: seq<string>, ns: seq<Node>, st: RenameState, inUse0: seq<string>)
    ensures var (rs, st') := RenameList(need, ns, st);
      && RenameStep(need, OccurrencesOf(ns), OccurrencesOf(rs), st, st', inUse0)
      && Shapes(rs) == Shapes(ns)
    decreases ns
  {
    RenameShapeList(need, ns, st);
    if ns != [] {
      var init := ns[..|ns| - 1];
      var last := ns[|ns| - 1];
      var (rs1, st1) := RenameList(need, init, st);
      var (r2, st2) := RenameNode(need, last, st1);
      RenameListSpec(need, init, st, inUse0);
      RenameNodeSpec(need, last, st1, inUse0);
      assert (rs1 + [r2])[..|rs1 + [r2]| - 1] == rs1;
      RenameStepCompose(need, OccurrencesOf(init), OccurrencesOf(rs1), Occurrences(last), Occurrences(r2),
                        st, st1, st2, inUse0);
    }
  }

  /** With nothing to rename, the walk changes neither the tree nor the state. */
  lemma {:induction false} RenameNodeNothing(n: Node, st: RenameState)
    ensures RenameNode([], n, st) == (n, st)
    decreases n
  {
    match n
    case Application(_, args) => RenameListNothing(args, st);
    case Tuple(es) => RenameListNothing(es, st);
    case Set(es) => RenameListNothing(es, st);
    case Quantifier(_, body, _) => RenameNodeNothing(body, st);
    case LogicalUnary(body, _) => RenameNodeNothing(body, st);
    case LogicalBinary(l, r, _) =>
      RenameNodeNothing(l, st);
      RenameNodeNothing(r, st);
    case _ =>
  }

  lemma {:induction false} RenameListNothing(ns: seq<Node>, st: RenameState)
    ensures RenameList([], ns, st) == (ns, st)
    decreases ns
  {
    if ns != [] {
      RenameListNothing(ns[..|ns| - 1], st);
      RenameNodeNothing(ns[|ns| - 1], st);
      assert ns[..|ns| - 1] + [ns[|ns| - 1]] == ns;
    }
  }

  /** The tree and `inUse` list after `vars_rename(needRename, inUse, node)`. */
  function VarsRenamed(needRename: seq<string>, inUse: seq<string>, n: Node): (Node, seq<string>)
  {
    var (r, st) := RenameNode(needRename, n, RenameState(map[], inUse));
    (r, st.inUse)
  }

  /** After `vars_rename` every name of the tree is either an original name
      that was not to be renamed, or a new name that was not in `inUse` and has
      been appended to it; `inUse` only grows. */
  lemma VarsRenamedFresh(needRename: seq<string>, inUse: seq<string>, n: Node)
    ensures var (r, inUseAfter) := VarsRenamed(needRename, inUse, n);
      && inUse <= inUseAfter
      && forall y :: y in Occurrences(r) ==>
           (y in Occurrences(n) && y !in needRename) || (y !in inUse && y in inUseAfter)
  {
    var st0 := RenameState(map[], inUse);
    var (r, st) := RenameNode(needRename, n, st0);
    assert inUse[..|inUse|] == inUse;
    RenameNodeSpec(needRename, n, st0, inUse);
    forall y | y in Occurrences(r)
      ensures (y in Occurrences(n) && y !in needRename) || (y !in inUse && y in st.inUse)
    {
      var i :| 0 <= i < |Occurrences(r)| && Occurrences(r)[i] == y;
      assert y == RenameName(st.renameMap, needRename, Occurrences(n)[i]);
    }
  }

  // ---------------------------------------------------------------------------
  // The imperative walk

  /** The probe loop of `newName`: counts up from `num` while the candidate
      is in `inUse` or already a key of the rename map. */
  method Probe(base: string, num: nat, st: RenameState) returns (newName: string)
    ensures newName == Candidate(base, NextFree(base, num, Pool(st)))
  {
    var k := num;
    newName := Candidate(base, k);
    ghost var pool := Pool(st);
    while newName in st.inUse || newName in st.renameMap
      invariant num <= k
      invariant newName == Candidate(base, k)
      invariant NextFree(base, k, pool) == NextFree(base, num, pool)
      decreases |pool - Tried(base, k)|
    {
      TriedShrinks(base, k, pool);
      k := k + 1;
      newName := Candidate(base, k);
    }
  }

  /** `newName`. */
  method NewName(name: string, st: RenameState) returns (chosen: string, st': RenameState)
    ensures (chosen, st') == NewNameSpec(name, st)
  {
    if name in st.renameMap {
      return st.renameMap[name], st;
    }
    var (base, num) := SplitSuffix(name);
    chosen := Probe(base, num, st);
    st' := RenameState(st.renameMap[name := chosen], st.inUse + [chosen]);
  }

  /** `rename`: renames the names of `need` in `n`. */
  method Rename(need: seq<string>, n: Node, st: RenameState) returns (r: Node, st': RenameState)
    ensures (r, st') == RenameNode(need, n, st)
    decreases n
  {
    match n {
      case Variable(x, mv, b) =>
        r, st' := n, st;
        if x in need {
          var y;
          y, st' := NewName(x, st);
          r := Variable(y, mv, b);
        }
      case Application(f, args) =>
        var args';
        args', st' := RenameAll(need, args, st);
        r := Application(f, args');
      case Tuple(es) =>
        var es';
        es', st' := RenameAll(need, es, st);
        r := Tuple(es');
      case Set(es) =>
        var es';
        es', st' := RenameAll(need, es, st);
        r := Set(es');
      case Quantifier(v, body, q) =>
        var v' := v;
        st' := st;
        if NameOf(v).Some? && NameOf(v).value in need {
          var y;
          y, st' := NewName(NameOf(v).value, st);
          v' := WithName(v, y);
        }
        var body';
        body', st' := Rename(need, body, st');
        r := Quantifier(v', body', q);
      case LogicalUnary(body, op) =>
        var body';
        body', st' := Rename(need, body, st);
        r := LogicalUnary(body', op);
      case LogicalBinary(left, right, op) =>
        var left', right';
        left', st' := Rename(need, left, st);
        right', st' := Rename(need, right, st');
        r := LogicalBinary(left', right', op);
      case Const(_) =>
        r, st' := n, st;
      case UnaryOp(_) =>
        r, st' := n, st;
      case BinaryOp(_) =>
        r, st' := n, st;
    }
  }

  /** `forEach(rename)` over a list of children. */
  method RenameAll(need: seq<string>, ns: seq<Node>, st: RenameState) returns (rs: seq<Node>, st': RenameState)
    ensures (rs, st') == RenameList(need, ns, st)
    decreases ns
  {
    rs, st' := [], st;
    for i := 0 to |ns|
      invariant (rs, st') == RenameList(need, ns[..i], st)
    {
      assert ns[..i + 1][..i] == ns[..i];
      var r;
      r, st' := Rename(need, ns[i], st');
      rs := rs + [r];
    }
    assert ns[..|ns|] == ns;
  }

  /** `vars_rename(needRename, inUse, node)`: the renamed tree, and `inUse`
      with the chosen names appended. */
  method VarsRename(needRename: seq<string>, inUse: seq<string>, n: Node) returns (renamed: Node, inUseAfter: seq<string>)
    ensures (renamed, inUseAfter) == VarsRenamed(needRename, inUse, n)
  {
    var st;
    renamed, st := Rename(needRename, n, RenameState(map[], inUse));
    inUseAfter := st.inUse;
  }
}
