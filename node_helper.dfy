/** The term and formula trees of the proof assistant and the tree utilities
    that walk them (node_helper.js). The source mutates nodes in place; here a
    node is an immutable value and an in-place update returns the updated tree. */
module NodeHelper {
  import opened Wrappers

  /** A node of the formula tree, tagged in the source by its `type` field. */
  datatype Node =
    | Variable(name: string, metavar: bool, bound: bool)
    | Const(name: string)
    | Application(symbol: Node, arguments: seq<Node>)
    | Tuple(elements: seq<Node>)
    | Set(elements: seq<Node>)
    | Quantifier(variable: Node, formula: Node, name: string)
    | LogicalUnary(formula: Node, name: string)
    | LogicalBinary(left: Node, right: Node, name: string)
    | UnaryOp(name: string)
    | BinaryOp(name: string)

  /** The property `node.name`; Application, Tuple and Set have none (`undefined`). */
  function NameOf(n: Node): Option<string>
  {
    if n.Application? || n.Tuple? || n.Set? then None else Some(n.name)
  }

  // ---------------------------------------------------------------------------
  // Constructors

  /** `s.slice(0, count)`: the first `count` elements, where a negative count
      drops that many elements from the end. */
  function JsSlice<T>(s: seq<T>, count: int): (r: seq<T>)
    ensures r <= s
    ensures 0 <= count ==> |r| == if count < |s| then count else |s|
    ensures count < 0 ==> |r| == if -count < |s| then |s| + count else 0
  {
    if 0 <= count then
      if count < |s| then s[..count] else s
    else if -count < |s| then s[..|s| + count]
    else []
  }

  function CreateVariable(name: string): Node
  {
    Variable(name, false, false)
  }

  function CreateApplication(symbol: Node, count: int, args: seq<Node>): Node
  {
    Application(symbol, JsSlice(args, count))
  }

  function CreateTuple(count: int, terms: seq<Node>): Node
  {
    Tuple(JsSlice(terms, count))
  }

  function CreateSet(count: int, terms: seq<Node>): Node
  {
    Set(JsSlice(terms, count))
  }

  // ---------------------------------------------------------------------------
  // Term test

  /** The term sublanguage: Variable, Application, Tuple and Set. */
  predicate IsTerm(n: Node)
  {
    n.Variable? || n.Application? || n.Tuple? || n.Set?
  }

  // ---------------------------------------------------------------------------
  // Variable names

  /** The binder's name as `vars_used` and `vars_rename` read it. */
  function BinderNames(v: Node): seq<string>
  {
    match NameOf(v)
    case Some(x) => [x]
    case None => []
  }

  /** Every variable name met by the traversal of `vars_used`, in visiting order,
      with repetitions: Variables, and the names of Quantifier binders. */
  function Occurrences(n: Node): seq<string>
    decreases n
  {
    match n
    case Variable(x, _, _) => [x]
    case Application(_, args) => OccurrencesOf(args)
    case Tuple(es) => OccurrencesOf(es)
    case Set(es) => OccurrencesOf(es)
    case Quantifier(v, body, _) => BinderNames(v) + Occurrences(body)
    case LogicalUnary(body, _) => Occurrences(body)
    case LogicalBinary(l, r, _) => Occurrences(l) + Occurrences(r)
    case _ => []
  }

  function OccurrencesOf(ns: seq<Node>): seq<string>
    decreases ns
  {
    if ns == [] then [] else OccurrencesOf(ns[..|ns| - 1]) + Occurrences(ns[|ns| - 1])
  }

  /** Lists whose elements have the same occurrences have the same occurrences. */
  lemma {:induction false} OccurrencesOfPointwise(ns: seq<Node>, ms: seq<Node>)
    requires |ns| == |ms|
    requires forall i :: 0 <= i < |ns| ==> Occurrences(ns[i]) == Occurrences(ms[i])
    ensures OccurrencesOf(ns) == OccurrencesOf(ms)
    decreases |ns|
  {
    if ns != [] {
      OccurrencesOfPointwise(ns[..|ns| - 1], ms[..|ms| - 1]);
    }
  }

  /** Each of `xs` in turn added to a JS `Set` whose elements, in insertion
      order, are `acc`. */
  function InsertAll(acc: seq<string>, xs: seq<string>): (r: seq<string>)
    ensures acc <= r
    ensures forall x :: x in r <==> x in acc || x in xs
    ensures NoDups(acc) ==> NoDups(r)
    decreases |xs|
  {
    if xs == [] then acc
    else
      var init := InsertAll(acc, xs[..|xs| - 1]);
      if xs[|xs| - 1] in init then init else init + [xs[|xs| - 1]]
  }

  predicate NoDups(s: seq<string>)
  {
    forall i, j :: 0 <= i < j < |s| ==> s[i] != s[j]
  }

  /** `Array.from(new Set(xs))`. */
  function Dedup(xs: seq<string>): seq<string>
  {
    InsertAll([], xs)
  }

  /** Inserting a concatenation is inserting one part after the other. */
  lemma {:induction false} InsertAllAppend(acc: seq<string>, xs: seq<string>, ys: seq<string>)
    ensures InsertAll(acc, xs + ys) == InsertAll(InsertAll(acc, xs), ys)
    decreases |ys|
  {
    if ys == [] {
      assert xs + ys == xs;
    } else {
      assert (xs + ys)[..|xs + ys| - 1] == xs + ys[..|ys| - 1];
      InsertAllAppend(acc, xs, ys[..|ys| - 1]);
    }
  }

  /** The position of the first occurrence of `x` in `s`. */
  function FirstIndex(s: seq<string>, x: string): (k: nat)
    requires x in s
    ensures k < |s| && s[k] == x && x !in s[..k]
  {
    if s[0] == x then 0 else 1 + FirstIndex(s[1..], x)
  }

  lemma {:induction false} FirstIndexExtend(s: seq<string>, y: string, x: string)
    requires x in s
    ensures FirstIndex(s + [y], x) == FirstIndex(s, x)
  {
    assert (s + [y])[FirstIndex(s, x)] == x;
  }

  /** `Array.from(new Set(xs))` lists each element of `xs` once, in the order of
      first occurrence. */
  lemma {:induction false} DedupOrder(xs: seq<string>)
    ensures NoDups(Dedup(xs))
    ensures forall x :: x in Dedup(xs) <==> x in xs
    ensures forall i, j :: 0 <= i < j < |Dedup(xs)| ==>
      FirstIndex(xs, Dedup(xs)[i]) < FirstIndex(xs, Dedup(xs)[j])
    decreases |xs|
  {
    if xs != [] {
      var init := xs[..|xs| - 1];
      var last := xs[|xs| - 1];
      assert xs == init + [last];
      DedupOrder(init);
      var d := Dedup(init);
      forall x | x in d ensures FirstIndex(xs, x) == FirstIndex(init, x) {
        FirstIndexExtend(init, last, x);
      }
      if last !in d {
        assert last !in init;
        assert FirstIndex(xs, last) == |init| by {
          assert xs[..|init|] == init;
        }
        forall i, j | 0 <= i < j < |Dedup(xs)|
          ensures FirstIndex(xs, Dedup(xs)[i]) < FirstIndex(xs, Dedup(xs)[j])
        {
          assert Dedup(xs) == d + [last];
          if j == |d| {
            assert Dedup(xs)[i] == d[i] && d[i] in init;
          }
        }
      }
    }
  }

  /** `lists_merge`: the duplicate-free union of both lists, first list first. */
  function ListsMerge(list1: seq<string>, list2: seq<string>): (r: seq<string>)
    ensures NoDups(r)
    ensures forall x :: x in r <==> x in list1 || x in list2
    ensures forall i, j :: 0 <= i < j < |r| ==>
      FirstIndex(list1 + list2, r[i]) < FirstIndex(list1 + list2, r[j])
  {
    DedupOrder(list1 + list2);
    Dedup(list1 + list2)
  }

  /** The names `vars_used` returns. */
  function UsedNames(n: Node): seq<string>
  {
    Dedup(Occurrences(n))
  }

  /** `vars_used`: collects names into a JS `Set` while walking the tree. */
  method VarsUsed(n: Node) returns (vars: seq<string>)
    ensures vars == UsedNames(n)
    ensures NoDups(vars)
    ensures forall x :: x in vars <==> x in Occurrences(n)
  {
    vars := Collect(n, []);
    DedupOrder(Occurrences(n));
  }

  /** The `collect` closure of `vars_used`, adding to the set `acc`. */
  method Collect(n: Node, acc: seq<string>) returns (r: seq<string>)
    ensures r == InsertAll(acc, Occurrences(n))
    decreases n
  {
    match n {
      case Variable(x, _, _) =>
        r := if x in acc then acc else acc + [x];
        assert [x][..0] == [];
      case Application(_, args) =>
        r := CollectAll(args, acc);
      case Tuple(es) =>
        r := CollectAll(es, acc);
      case Set(es) =>
        r := CollectAll(es, acc);
      case Quantifier(v, body, _) =>
        r := acc;
        if NameOf(v).Some? {
          var x := NameOf(v).value;
          if x !in r {
            r := r + [x];
          }
          assert [x][..0] == [];
        }
        r := Collect(body, r);
        InsertAllAppend(acc, BinderNames(v), Occurrences(body));
      case LogicalUnary(body, _) =>
        r := Collect(body, acc);
      case LogicalBinary(left, right, _) =>
        r := Collect(left, acc);
        r := Collect(right, r);
        InsertAllAppend(acc, Occurrences(left), Occurrences(right));
      case Const(_) =>
        r := acc;
      case UnaryOp(_) =>
        r := acc;
      case BinaryOp(_) =>
        r := acc;
    }
  }

  /** `forEach(collect)` over a list of children. */
  method CollectAll(ns: seq<Node>, acc: seq<string>) returns (r: seq<string>)
    ensures r == InsertAll(acc, OccurrencesOf(ns))
    decreases ns
  {
    r := acc;
    for i := 0 to |ns|
      invariant r == InsertAll(acc, OccurrencesOf(ns[..i]))
    {
      assert ns[..i + 1][..i] == ns[..i];
      r := Collect(ns[i], r);
      InsertAllAppend(acc, OccurrencesOf(ns[..i]), Occurrences(ns[i]));
    }
    assert ns[..|ns|] == ns;
  }

  // ---------------------------------------------------------------------------
  // Bound flags

  /** Some Variable named `x` carries `bound = true`, looking where
      `unbind_variable` looks (everywhere but a Quantifier's own binder). */
  predicate HasBound(n: Node, x: string)
    decreases n
  {
    match n
    case Variable(y, _, b) => y == x && b
    case Application(_, args) => exists i | 0 <= i < |args| :: HasBound(args[i], x)
    case Tuple(es) => exists i | 0 <= i < |es| :: HasBound(es[i], x)
    case Set(es) => exists i | 0 <= i < |es| :: HasBound(es[i], x)
    case Quantifier(_, body, _) => HasBound(body, x)
    case LogicalUnary(body, _) => HasBound(body, x)
    case LogicalBinary(l, r, _) => HasBound(l, x) || HasBound(r, x)
    case _ => false
  }

  /** The tree with every `bound` flag cleared: what is left of a node when
      binding information is ignored. */
  function EraseBound(n: Node): Node
    decreases n
  {
    match n
    case Variable(y, mv, _) => Variable(y, mv, false)
    case Application(f, args) => Application(f, seq(|args|, i requires 0 <= i < |args| => EraseBound(args[i])))
    case Tuple(es) => Tuple(seq(|es|, i requires 0 <= i < |es| => EraseBound(es[i])))
    case Set(es) => Set(seq(|es|, i requires 0 <= i < |es| => EraseBound(es[i])))
    case Quantifier(v, body, q) => Quantifier(v, EraseBound(body), q)
    case LogicalUnary(body, op) => LogicalUnary(EraseBound(body), op)
    case LogicalBinary(l, r, op) => LogicalBinary(EraseBound(l), EraseBound(r), op)
    case _ => n
  }

  /** One Variable occurrence as the bound-flag walks see it. */
  datatype Slot = Slot(name: string, bound: bool, inSet: bool)

  /** Every Variable that `unbind_variable` reaches (all but a Quantifier's own
      binder and an Application's symbol), in visiting order, with its `bound`
      flag and whether it sits inside a Set; `inSet` says whether `n` does. */
  function Slots(n: Node, inSet: bool): seq<Slot>
    decreases n
  {
    match n
    case Variable(y, _, b) => [Slot(y, b, inSet)]
    case Application(_, args) => SlotsOf(args, inSet)
    case Tuple(es) => SlotsOf(es, inSet)
    case Set(es) => SlotsOf(es, true)
    case Quantifier(_, body, _) => Slots(body, inSet)
    case LogicalUnary(body, _) => Slots(body, inSet)
    case LogicalBinary(l, r, _) => Slots(l, inSet) + Slots(r, inSet)
    case _ => []
  }

  function SlotsOf(ns: seq<Node>, inSet: bool): seq<Slot>
    decreases ns
  {
    if ns == [] then [] else SlotsOf(ns[..|ns| - 1], inSet) + Slots(ns[|ns| - 1], inSet)
  }

  /** The slots after clearing the flag of every occurrence named `x`. */
  function UnboundSlots(ss: seq<Slot>, x: string): (r: seq<Slot>)
    ensures |r| == |ss|
  {
    seq(|ss|, i requires 0 <= i < |ss| => ss[i].(bound := ss[i].bound && ss[i].name != x))
  }

  /** The slots after setting the flag of every occurrence named `x` outside
      Sets. */
  function BoundSlots(ss: seq<Slot>, x: string): (r: seq<Slot>)
    ensures |r| == |ss|
  {
    seq(|ss|, i requires 0 <= i < |ss| => ss[i].(bound := ss[i].bound || (ss[i].name == x && !ss[i].inSet)))
  }

  /** Below a Set every slot is marked as inside one. */
  lemma {:induction false} SlotsInSet(n: Node)
    ensures forall i :: 0 <= i < |Slots(n, true)| ==> Slots(n, true)[i].inSet
    decreases n
  {
    match n
    case Application(_, args) => SlotsInSetList(args);
    case Tuple(es) => SlotsInSetList(es);
    case Set(es) => SlotsInSetList(es);
    case Quantifier(_, body, _) => SlotsInSet(body);
    case LogicalUnary(body, _) => SlotsInSet(body);
    case LogicalBinary(l, r, _) => SlotsInSet(l); SlotsInSet(r);
    case _ =>
  }

  lemma {:induction false} SlotsInSetList(ns: seq<Node>)
    ensures forall i :: 0 <= i < |SlotsOf(ns, true)| ==> SlotsOf(ns, true)[i].inSet
    decreases ns
  {
    if ns != [] {
      SlotsInSetList(ns[..|ns| - 1]);
      SlotsInSet(ns[|ns| - 1]);
    }
  }

  /** Trees that agree once their flags are cleared have the same constructor
      and agree in the same way part by part. */
  lemma ErasedAlike(a: Node, b: Node)
    requires EraseBound(a) == EraseBound(b)
    ensures a.Variable? ==> b.Variable? && a.name == b.name && a.metavar == b.metavar
    ensures a.Application? ==> (b.Application? && a.symbol == b.symbol && |a.arguments| == |b.arguments| &&
      forall i :: 0 <= i < |a.arguments| ==> EraseBound(a.arguments[i]) == EraseBound(b.arguments[i]))
    ensures a.Tuple? ==> (b.Tuple? && |a.elements| == |b.elements| &&
      forall i :: 0 <= i < |a.elements| ==> EraseBound(a.elements[i]) == EraseBound(b.elements[i]))
    ensures a.Set? ==> (b.Set? && |a.elements| == |b.elements| &&
      forall i :: 0 <= i < |a.elements| ==> EraseBound(a.elements[i]) == EraseBound(b.elements[i]))
    ensures a.Quantifier? ==> (b.Quantifier? && a.variable == b.variable && a.name == b.name &&
      EraseBound(a.formula) == EraseBound(b.formula))
    ensures a.LogicalUnary? ==> b.LogicalUnary? && a.name == b.name && EraseBound(a.formula) == EraseBound(b.formula)
    ensures a.LogicalBinary? ==> (b.LogicalBinary? && a.name == b.name &&
      EraseBound(a.left) == EraseBound(b.left) && EraseBound(a.right) == EraseBound(b.right))
    ensures a.Const? || a.UnaryOp? || a.BinaryOp? ==> a == b
  {
    match a
    case Application(_, args) =>
      forall i | 0 <= i < |args| ensures EraseBound(args[i]) == EraseBound(b.arguments[i]) {
        assert EraseBound(a).arguments[i] == EraseBound(b).arguments[i];
      }
    case Tuple(es) =>
      forall i | 0 <= i < |es| ensures EraseBound(es[i]) == EraseBound(b.elements[i]) {
        assert EraseBound(a).elements[i] == EraseBound(b).elements[i];
      }
    case Set(es) =>
      forall i | 0 <= i < |es| ensures EraseBound(es[i]) == EraseBound(b.elements[i]) {
        assert EraseBound(a).elements[i] == EraseBound(b).elements[i];
      }
    case _ =>
  }

  /** Trees that agree once their flags are cleared have as many slots. */
  lemma {:induction false} SlotsCount(a: Node, b: Node, inSet: bool)
    requires EraseBound(a) == EraseBound(b)
    ensures |Slots(a, inSet)| == |Slots(b, inSet)|
    decreases a
  {
    ErasedAlike(a, b);
    match a
    case Application(_, args) => SlotsCountList(args, b.arguments, inSet);
    case Tuple(es) => SlotsCountList(es, b.elements, inSet);
    case Set(es) => SlotsCountList(es, b.elements, true);
    case Quantifier(_, body, _) => SlotsCount(body, b.formula, inSet);
    case LogicalUnary(body, _) => SlotsCount(body, b.formula, inSet);
    case LogicalBinary(l, r, _) =>
      SlotsCount(l, b.left, inSet);
      SlotsCount(r, b.right, inSet);
    case _ =>
  }

  lemma {:induction false} SlotsCountList(ns: seq<Node>, ms: seq<Node>, inSet: bool)
    requires |ns| == |ms|
    requires forall i :: 0 <= i < |ns| ==> EraseBound(ns[i]) == EraseBound(ms[i])
    ensures |SlotsOf(ns, inSet)| == |SlotsOf(ms, inSet)|
    decreases ns
  {
    if ns != [] {
      SlotsCountList(ns[..|ns| - 1], ms[..|ms| - 1], inSet);
      SlotsCount(ns[|ns| - 1], ms[|ms| - 1], inSet);
    }
  }

  /** A tree is determined by its flag-free form and its slots: a result that
      agrees with a tree everywhere but in the slots, and whose slots are given,
      is the only such tree. */
  lemma {:induction false} SlotsDetermine(a: Node, b: Node, inSet: bool)
    requires EraseBound(a) == EraseBound(b)
    requires Slots(a, inSet) == Slots(b, inSet)
    ensures a == b
    decreases a
  {
    ErasedAlike(a, b);
    match a
    case Variable(_, _, _) =>
      assert Slots(a, inSet)[0] == Slots(b, inSet)[0];
    case Application(_, args) => SlotsDetermineList(args, b.arguments, inSet);
    case Tuple(es) => SlotsDetermineList(es, b.elements, inSet);
    case Set(es) => SlotsDetermineList(es, b.elements, true);
    case Quantifier(_, body, _) => SlotsDetermine(body, b.formula, inSet);
    case LogicalUnary(body, _) => SlotsDetermine(body, b.formula, inSet);
    case LogicalBinary(l, r, _) =>
      SlotsCount(l, b.left, inSet);
      assert Slots(l, inSet) == Slots(a, inSet)[..|Slots(l, inSet)|] == Slots(b.left, inSet);
      assert Slots(r, inSet) == Slots(a, inSet)[|Slots(l, inSet)|..] == Slots(b.right, inSet);
      SlotsDetermine(l, b.left, inSet);
      SlotsDetermine(r, b.right, inSet);
    case _ =>
  }

  lemma {:induction false} SlotsDetermineList(ns: seq<Node>, ms: seq<Node>, inSet: bool)
    requires |ns| == |ms|
    requires forall i :: 0 <= i < |ns| ==> EraseBound(ns[i]) == EraseBound(ms[i])
    requires SlotsOf(ns, inSet) == SlotsOf(ms, inSet)
    ensures ns == ms
    decreases ns
  {
    if ns != [] {
      var ni, mi := ns[..|ns| - 1], ms[..|ms| - 1];
      SlotsCountList(ni, mi, inSet);
      var k := |SlotsOf(ni, inSet)|;
      assert SlotsOf(ni, inSet) == SlotsOf(ns, inSet)[..k] == SlotsOf(mi, inSet);
      assert Slots(ns[|ns| - 1], inSet) == SlotsOf(ns, inSet)[k..] == Slots(ms[|ms| - 1], inSet);
      SlotsDetermineList(ni, mi, inSet);
      SlotsDetermine(ns[|ns| - 1], ms[|ms| - 1], inSet);
      assert ns == ni + [ns[|ns| - 1]] && ms == mi + [ms[|ms| - 1]];
    }
  }

  /** `bind_var`: sets `bound` on every Variable named like `variable`, looking
      into Applications, Tuples, Quantifier bodies and connectives but not into
      Sets. */
  function BindVar(variable: Node, n: Node): Node
    decreases n
  {
    match n
    case Variable(y, mv, _) => if NameOf(variable) == Some(y) then Variable(y, mv, true) else n
    case Application(f, args) => Application(f, seq(|args|, i requires 0 <= i < |args| => BindVar(variable, args[i])))
    case Tuple(es) => Tuple(seq(|es|, i requires 0 <= i < |es| => BindVar(variable, es[i])))
    case Quantifier(v, body, q) => Quantifier(v, BindVar(variable, body), q)
    case LogicalUnary(body, op) => LogicalUnary(BindVar(variable, body), op)
    case LogicalBinary(l, r, op) => LogicalBinary(BindVar(variable, l), BindVar(variable, r), op)
    case _ => n
  }

  /** `unbind_variable`: a copy with `bound = false` on every Variable named `x`. */
  function UnbindVariable(n: Node, x: string): Node
    decreases n
  {
    match n
    case Variable(y, mv, _) => if y == x then Variable(y, mv, false) else n
    case Quantifier(v, body, q) => Quantifier(v, UnbindVariable(body, x), q)
    case LogicalUnary(body, op) => LogicalUnary(UnbindVariable(body, x), op)
    case LogicalBinary(l, r, op) => LogicalBinary(UnbindVariable(l, x), UnbindVariable(r, x), op)
    case Application(f, args) => Application(f, seq(|args|, i requires 0 <= i < |args| => UnbindVariable(args[i], x)))
    case Tuple(es) => Tuple(seq(|es|, i requires 0 <= i < |es| => UnbindVariable(es[i], x)))
    case Set(es) => Set(seq(|es|, i requires 0 <= i < |es| => UnbindVariable(es[i], x)))
    case _ => n
  }

  lemma UnboundSlotsAppend(a: seq<Slot>, b: seq<Slot>, x: string)
    ensures UnboundSlots(a + b, x) == UnboundSlots(a, x) + UnboundSlots(b, x)
  {
  }

  lemma BoundSlotsAppend(a: seq<Slot>, b: seq<Slot>, x: string)
    ensures BoundSlots(a + b, x) == BoundSlots(a, x) + BoundSlots(b, x)
  {
  }

  /** Unbinding rewrites each occurrence's flag in place. */
  lemma {:induction false} UnbindSlots(n: Node, x: string, inSet: bool)
    ensures Slots(UnbindVariable(n, x), inSet) == UnboundSlots(Slots(n, inSet), x)
    decreases n
  {
    match n
    case Variable(_, _, _) =>
    case Quantifier(_, body, _) => UnbindSlots(body, x, inSet);
    case LogicalUnary(body, _) => UnbindSlots(body, x, inSet);
    case LogicalBinary(l, r, _) =>
      UnbindSlots(l, x, inSet);
      UnbindSlots(r, x, inSet);
      UnboundSlotsAppend(Slots(l, inSet), Slots(r, inSet), x);
    case Application(_, args) => UnbindSlotsList(args, x, inSet);
    case Tuple(es) => UnbindSlotsList(es, x, inSet);
    case Set(es) => UnbindSlotsList(es, x, true);
    case _ =>
  }

  lemma {:induction false} UnbindSlotsList(ns: seq<Node>, x: string, inSet: bool)
    ensures SlotsOf(seq(|ns|, i requires 0 <= i < |ns| => UnbindVariable(ns[i], x)), inSet)
         == UnboundSlots(SlotsOf(ns, inSet), x)
    decreases ns
  {
    if ns != [] {
      var us := seq(|ns|, i requires 0 <= i < |ns| => UnbindVariable(ns[i], x));
      var init := ns[..|ns| - 1];
      assert us[..|us| - 1] == seq(|init|, i requires 0 <= i < |init| => UnbindVariable(init[i], x));
      UnbindSlotsList(init, x, inSet);
      UnbindSlots(ns[|ns| - 1], x, inSet);
      UnboundSlotsAppend(SlotsOf(init, inSet), Slots(ns[|ns| - 1], inSet), x);
    }
  }

  /** Unbinding `x` clears exactly the bound flags of `x`: every occurrence
      keeps its flag except that those named `x` become unbound, so no bound
      `x` is left and every other name keeps its bound occurrences; names and
      the rest of the tree are kept, and a tree without a bound `x` comes back
      unchanged. */
  lemma {:induction false} UnbindVariableSpec(n: Node, x: string)
    ensures Slots(UnbindVariable(n, x), false) == UnboundSlots(Slots(n, false), x)
    ensures !HasBound(UnbindVariable(n, x), x)
    ensures forall y :: y != x ==> (HasBound(UnbindVariable(n, x), y) <==> HasBound(n, y))
    ensures EraseBound(UnbindVariable(n, x)) == EraseBound(n)
    ensures Occurrences(UnbindVariable(n, x)) == Occurrences(n)
    ensures !HasBound(n, x) ==> UnbindVariable(n, x) == n
    decreases n
  {
    UnbindSlots(n, x, false);
    match n
    case Variable(_, _, _) =>
    case Quantifier(_, body, _) => UnbindVariableSpec(body, x);
    case LogicalUnary(body, _) => UnbindVariableSpec(body, x);
    case LogicalBinary(l, r, _) => UnbindVariableSpec(l, x); UnbindVariableSpec(r, x);
    case Application(f, args) => UnbindVariableList(args, x);
    case Tuple(es) => UnbindVariableList(es, x);
    case Set(es) => UnbindVariableList(es, x);
    case _ =>
  }

  lemma {:induction false} UnbindVariableList(ns: seq<Node>, x: string)
    ensures var us := seq(|ns|, i requires 0 <= i < |ns| => UnbindVariable(ns[i], x));
      && (forall i :: 0 <= i < |us| ==> !HasBound(us[i], x))
      && (forall y, i :: y != x && 0 <= i < |us| ==> (HasBound(us[i], y) <==> HasBound(ns[i], y)))
      && seq(|us|, i requires 0 <= i < |us| => EraseBound(us[i])) == seq(|ns|, i requires 0 <= i < |ns| => EraseBound(ns[i]))
      && OccurrencesOf(us) == OccurrencesOf(ns)
      && ((forall i :: 0 <= i < |ns| ==> !HasBound(ns[i], x)) ==> us == ns)
    decreases ns
  {
    var us := seq(|ns|, i requires 0 <= i < |ns| => UnbindVariable(ns[i], x));
    forall i | 0 <= i < |ns|
      ensures !HasBound(us[i], x)
      ensures forall y :: y != x ==> (HasBound(us[i], y) <==> HasBound(ns[i], y))
      ensures EraseBound(us[i]) == EraseBound(ns[i])
      ensures Occurrences(us[i]) == Occurrences(ns[i])
      ensures !HasBound(ns[i], x) ==> us[i] == ns[i]
    {
      UnbindVariableSpec(ns[i], x);
    }
    OccurrencesOfPointwise(us, ns);
  }

  /** Binding rewrites each occurrence's flag in place: those named `x`
      outside Sets become bound, and every other flag is kept. */
  lemma {:induction false} BindSlots(variable: Node, n: Node)
    requires NameOf(variable).Some?
    ensures Slots(BindVar(variable, n), false) == BoundSlots(Slots(n, false), NameOf(variable).value)
    decreases n
  {
    var x := NameOf(variable).value;
    match n
    case Variable(_, _, _) =>
    case Quantifier(_, body, _) => BindSlots(variable, body);
    case LogicalUnary(body, _) => BindSlots(variable, body);
    case LogicalBinary(l, r, _) =>
      BindSlots(variable, l);
      BindSlots(variable, r);
      BoundSlotsAppend(Slots(l, false), Slots(r, false), x);
    case Application(_, args) => BindSlotsList(variable, args);
    case Tuple(es) => BindSlotsList(variable, es);
    case Set(es) =>
      SlotsInSetList(es);
      assert BoundSlots(SlotsOf(es, true), x) == SlotsOf(es, true);
    case _ =>
  }

  lemma {:induction false} BindSlotsList(variable: Node, ns: seq<Node>)
    requires NameOf(variable).Some?
    ensures SlotsOf(seq(|ns|, i requires 0 <= i < |ns| => BindVar(variable, ns[i])), false)
         == BoundSlots(SlotsOf(ns, false), NameOf(variable).value)
    decreases ns
  {
    if ns != [] {
      var bs := seq(|ns|, i requires 0 <= i < |ns| => BindVar(variable, ns[i]));
      var init := ns[..|ns| - 1];
      assert bs[..|bs| - 1] == seq(|init|, i requires 0 <= i < |init| => BindVar(variable, init[i]));
      BindSlotsList(variable, init);
      BindSlots(variable, ns[|ns| - 1]);
      BoundSlotsAppend(SlotsOf(init, false), Slots(ns[|ns| - 1], false), NameOf(variable).value);
    }
  }

  /** What `bind_var` does: every occurrence of the binder's name outside Sets
      becomes bound and every other flag is kept, so binding then unbinding a
      name is unbinding it; names and the rest of the tree are kept; a binder
      without a name binds nothing. */
  lemma {:induction false} BindVarSpec(variable: Node, n: Node)
    ensures NameOf(variable).Some? ==>
      var x := NameOf(variable).value;
      && Slots(BindVar(variable, n), false) == BoundSlots(Slots(n, false), x)
      && (forall s :: s in Slots(BindVar(variable, n), false) && s.name == x && !s.inSet ==> s.bound)
      && UnbindVariable(BindVar(variable, n), x) == UnbindVariable(n, x)
    ensures NameOf(variable).None? ==> BindVar(variable, n) == n
    ensures EraseBound(BindVar(variable, n)) == EraseBound(n)
    ensures Occurrences(BindVar(variable, n)) == Occurrences(n)
    decreases n
  {
    if NameOf(variable).Some? {
      BindSlots(variable, n);
    }
    match n
    case Variable(_, _, _) =>
    case Quantifier(_, body, _) => BindVarSpec(variable, body);
    case LogicalUnary(body, _) => BindVarSpec(variable, body);
    case LogicalBinary(l, r, _) => BindVarSpec(variable, l); BindVarSpec(variable, r);
    case Application(f, args) => BindVarList(variable, args);
    case Tuple(es) => BindVarList(variable, es);
    case _ =>
  }

  lemma {:induction false} BindVarList(variable: Node, ns: seq<Node>)
    ensures var bs := seq(|ns|, i requires 0 <= i < |ns| => BindVar(variable, ns[i]));
      && (NameOf(variable).Some? ==>
            var x := NameOf(variable).value;
            seq(|bs|, i requires 0 <= i < |bs| => UnbindVariable(bs[i], x)) == seq(|ns|, i requires 0 <= i < |ns| => UnbindVariable(ns[i], x)))
      && (NameOf(variable).None? ==> bs == ns)
      && seq(|bs|, i requires 0 <= i < |bs| => EraseBound(bs[i])) == seq(|ns|, i requires 0 <= i < |ns| => EraseBound(ns[i]))
      && OccurrencesOf(bs) == OccurrencesOf(ns)
    decreases ns
  {
    var bs := seq(|ns|, i requires 0 <= i < |ns| => BindVar(variable, ns[i]));
    forall i | 0 <= i < |ns|
      ensures NameOf(variable).Some? ==> UnbindVariable(bs[i], NameOf(variable).value) == UnbindVariable(ns[i], NameOf(variable).value)
      ensures NameOf(variable).None? ==> bs[i] == ns[i]
      ensures EraseBound(bs[i]) == EraseBound(ns[i])
      ensures Occurrences(bs[i]) == Occurrences(ns[i])
    {
      BindVarSpec(variable, ns[i]);
    }
    OccurrencesOfPointwise(bs, ns);
  }

  /** The contracts of unbinding and binding leave no freedom: a tree with the
      same flag-free form and the slots they promise is their result. */
  lemma FlagContractsDetermine(variable: Node, n: Node, x: string, r: Node)
    requires EraseBound(r) == EraseBound(n)
    ensures Slots(r, false) == UnboundSlots(Slots(n, false), x) ==> r == UnbindVariable(n, x)
    ensures NameOf(variable).Some? && Slots(r, false) == BoundSlots(Slots(n, false), NameOf(variable).value) ==>
      r == BindVar(variable, n)
  {
    UnbindVariableSpec(n, x);
    if Slots(r, false) == UnboundSlots(Slots(n, false), x) {
      SlotsDetermine(r, UnbindVariable(n, x), false);
    }
    BindVarSpec(variable, n);
    if NameOf(variable).Some? && Slots(r, false) == BoundSlots(Slots(n, false), NameOf(variable).value) {
      SlotsDetermine(r, BindVar(variable, n), false);
    }
  }

  /** `universal_specification`: strips a leading `forall` and unbinds its
      variable in the body; any other node comes back unchanged. */
  function UniversalSpecification(f: Node): Node
  {
    if f.Quantifier? && f.name == "forall" then
      match NameOf(f.variable)
      case Some(x) => UnbindVariable(f.formula, x)
      case None => f.formula
    else f
  }

  /** What `universal_specification` promises: on `forall x. body` it returns
      the body with every occurrence of `x` unbound, every other flag kept and
      nothing else changed; a binder without a name unbinds nothing; any other
      node comes back as it is. */
  lemma UniversalSpecificationSpec(f: Node)
    ensures !(f.Quantifier? && f.name == "forall") ==> UniversalSpecification(f) == f
    ensures f.Quantifier? && f.name == "forall" && NameOf(f.variable).Some? ==>
      var x := NameOf(f.variable).value;
      var r := UniversalSpecification(f);
      && Slots(r, false) == UnboundSlots(Slots(f.formula, false), x)
      && !HasBound(r, x)
      && (forall y :: y != x ==> (HasBound(r, y) <==> HasBound(f.formula, y)))
      && EraseBound(r) == EraseBound(f.formula)
      && Occurrences(r) == Occurrences(f.formula)
    ensures f.Quantifier? && f.name == "forall" && NameOf(f.variable).None? ==>
      UniversalSpecification(f) == f.formula
  {
    if f.Quantifier? && f.name == "forall" && NameOf(f.variable).Some? {
      UnbindVariableSpec(f.formula, NameOf(f.variable).value);
    }
  }

  // ---------------------------------------------------------------------------
  // Negation

  /** `negate_formula`: one step of classical negation. */
  function NegateFormula(f: Node): Node
    decreases f
  {
    if f.Quantifier? && f.name == "forall" then
      Quantifier(f.variable, NegateFormula(f.formula), "exists")
    else if f.Quantifier? && f.name == "exists" then
      Quantifier(f.variable, NegateFormula(f.formula), "forall")
    else if f.LogicalUnary? && f.name == "neg" then
      f.formula
    else if f.LogicalBinary? && f.name == "wedge" then
      LogicalBinary(NegateFormula(f.left), NegateFormula(f.right), "vee")
    else if f.LogicalBinary? && f.name == "vee" then
      LogicalBinary(NegateFormula(f.left), NegateFormula(f.right), "wedge")
    else
      LogicalUnary(f, "neg")
  }

  /** No `neg` node where `negate_formula` looks: at the top, or under the
      quantifiers and the conjunctions and disjunctions it passes through. */
  predicate NegFreeSpine(f: Node)
    decreases f
  {
    if f.Quantifier? && (f.name == "forall" || f.name == "exists") then NegFreeSpine(f.formula)
    else if f.LogicalBinary? && (f.name == "wedge" || f.name == "vee") then
      NegFreeSpine(f.left) && NegFreeSpine(f.right)
    else !(f.LogicalUnary? && f.name == "neg")
  }

  /** Negating twice gives the formula back when no `neg` is in the way. */
  lemma {:induction false} NegateInvolution(f: Node)
    requires NegFreeSpine(f)
    ensures NegateFormula(NegateFormula(f)) == f
    decreases f
  {
    if f.Quantifier? && (f.name == "forall" || f.name == "exists") {
      NegateInvolution(f.formula);
    } else if f.LogicalBinary? && (f.name == "wedge" || f.name == "vee") {
      NegateInvolution(f.left);
      NegateInvolution(f.right);
    }
  }

  /** The environment after binding the quantified variable `v` to `d`. */
  function Assign<D>(env: map<string, D>, v: Node, d: D): map<string, D>
  {
    match NameOf(v)
    case Some(x) => env[x := d]
    case None => env
  }

  /** Classical truth of a formula over the domain `dom`, with every node that
      is not a recognised connective or quantifier judged by `atom`. */
  ghost function Holds<D>(f: Node, dom: set<D>, env: map<string, D>, atom: (Node, map<string, D>) -> bool): bool
    decreases f
  {
    match f
    case Quantifier(v, body, q) =>
      if q == "forall" then forall d | d in dom :: Holds(body, dom, Assign(env, v, d), atom)
      else if q == "exists" then exists d | d in dom :: Holds(body, dom, Assign(env, v, d), atom)
      else atom(f, env)
    case LogicalUnary(body, op) =>
      if op == "neg" then !Holds(body, dom, env, atom) else atom(f, env)
    case LogicalBinary(l, r, op) =>
      if op == "wedge" then Holds(l, dom, env, atom) && Holds(r, dom, env, atom)
      else if op == "vee" then Holds(l, dom, env, atom) || Holds(r, dom, env, atom)
      else if op == "implies" then Holds(l, dom, env, atom) ==> Holds(r, dom, env, atom)
      else if op == "iff" then Holds(l, dom, env, atom) == Holds(r, dom, env, atom)
      else atom(f, env)
    case _ => atom(f, env)
  }

  /** `negate_formula` is a classical negation: in every interpretation the
      result holds exactly when the input does not. */
  lemma {:induction false} NegateSound<D>(f: Node, dom: set<D>, env: map<string, D>, atom: (Node, map<string, D>) -> bool)
    ensures Holds(NegateFormula(f), dom, env, atom) == !Holds(f, dom, env, atom)
    decreases f
  {
    if f.Quantifier? && (f.name == "forall" || f.name == "exists") {
      forall d | d in dom
        ensures Holds(NegateFormula(f.formula), dom, Assign(env, f.variable, d), atom)
             == !Holds(f.formula, dom, Assign(env, f.variable, d), atom)
      {
        NegateSound(f.formula, dom, Assign(env, f.variable, d), atom);
      }
    } else if f.LogicalBinary? && (f.name == "wedge" || f.name == "vee") {
      NegateSound(f.left, dom, env, atom);
      NegateSound(f.right, dom, env, atom);
    }
  }
}
