/** The pretty-printer of strings.js: infix rendering with precedence-based
    parentheses, and Polish (prefix) rendering. It walks its own schema of
    nodes, whose operators carry their display forms, precedence and
    associativity. A `throw` of the source is an `Err` here. */
module Printer {
  import opened Wrappers

  /** The two display forms of an operator or predicate symbol. */
  datatype Display = Display(identifier: string, unicode: string)

  /** Which display form a rendering reads: `'identifier'` or `'unicode'`. */
  datatype Field = Identifier | Unicode

  /** `node[field]`. */
  function Pick(d: Display, field: Field): string
  {
    match field
    case Identifier => d.identifier
    case Unicode => d.unicode
  }

  /** A node of the printer's schema; `Other` is any other `type`. */
  datatype Node =
    | Variable(name: string)
    | Predicate(display: Display, arguments: seq<Node>)
    | Function(functionName: string, arguments: seq<Node>)
    | Set(elements: seq<Node>)
    | Tuple(elements: seq<Node>)
    | Negation(display: Display, formula: Node, precedence: int, associativity: string)
    | Quantifier(display: Display, variable: Node, formula: Node, precedence: int, associativity: string)
    | BinaryConnective(display: Display, left: Node, right: Node, precedence: int, associativity: string)
    | Other(typeName: string)

  /** `parts.join(sep)`. */
  function Join(parts: seq<string>, sep: string): string
  {
    if |parts| == 0 then ""
    else if |parts| == 1 then parts[0]
    else Join(parts[..|parts| - 1], sep) + sep + parts[|parts| - 1]
  }

  /** The error `toString` and `toPolish` throw on a node they do not handle. */
  function Unknown(typeName: string): string
  {
    "Unknown node type: " + typeName
  }

  // ---------------------------------------------------------------------------
  // Infix rendering

  /** `toString(node, field)`. */
  function ToString(n: Node, field: Field): Result<string, string>
    decreases n, 1
  {
    match n
    case Variable(name) => Ok(name)
    case Predicate(d, args) =>
      (match ToStrings(args, field)
       case Ok(ss) => Ok(Pick(d, field) + "(" + Join(ss, ", ") + ")")
       case Err(e) => Err(e))
    case Function(name, args) =>
      (match ToStrings(args, field)
       case Ok(ss) => Ok(name + "(" + Join(ss, ", ") + ")")
       case Err(e) => Err(e))
    case Set(es) =>
      (match ToStrings(es, field)
       case Ok(ss) => Ok("{" + Join(ss, ", ") + "}")
       case Err(e) => Err(e))
    case Tuple(es) =>
      (match ToStrings(es, field)
       case Ok(ss) => Ok("(" + Join(ss, ", ") + ")")
       case Err(e) => Err(e))
    case Negation(d, body, prec, _) =>
      (match Parenthesize(body, prec, field)
       case Ok(b) => Ok(Pick(d, field) + b)
       case Err(e) => Err(e))
    case Quantifier(d, v, body, _, _) =>
      (match ToString(v, field)
       case Ok(sv) =>
         (match ToString(body, field)
          case Ok(sb) => Ok(Pick(d, field) + " " + sv + " " + sb)
          case Err(e) => Err(e))
       case Err(e) => Err(e))
    case BinaryConnective(d, l, r, prec, _) =>
      (match Parenthesize(l, prec, field)
       case Ok(sl) =>
         (match Parenthesize(r, prec, field)
          case Ok(sr) => Ok(sl + " " + Pick(d, field) + " " + sr)
          case Err(e) => Err(e))
       case Err(e) => Err(e))
    case Other(t) => Err(Unknown(t))
  }

  /** `.map(x => toString(x, field))`, left to right: the first throw wins. */
  function ToStrings(ns: seq<Node>, field: Field): (r: Result<seq<string>, string>)
    ensures r.Ok? ==> |r.value| == |ns|
    decreases ns
  {
    if ns == [] then Ok([])
    else
      match ToString(ns[0], field)
      case Err(e) => Err(e)
      case Ok(s) =>
        match ToStrings(ns[1..], field)
        case Err(e) => Err(e)
        case Ok(ss) => Ok([s] + ss)
  }

  /** The child types `parenthesize` never wraps. */
  predicate NeverWrapped(child: Node)
  {
    child.Variable? || child.Predicate? || child.Function? || child.Set? || child.Tuple?
  }

  /** `parenthesize(child, parentPrecedence, toString, field)`. A child type
      without a `precedence` field compares false both ways. */
  function Parenthesize(child: Node, parentPrecedence: int, field: Field): Result<string, string>
    decreases child, 2
  {
    match ToString(child, field)
    case Err(e) => Err(e)
    case Ok(s) =>
      if NeverWrapped(child) then Ok(s)
      else if !child.Other? && child.precedence > parentPrecedence then Ok(s)
      else if !child.Other? && child.precedence == parentPrecedence
              && (child.associativity == "right" || !child.BinaryConnective?) then Ok("(" + s + ")")
      else if !child.Other? && child.precedence == parentPrecedence
              && (child.associativity == "left" || !child.BinaryConnective?) then Ok("(" + s + ")")
      else Ok("(" + s + ")")
  }

  // ---------------------------------------------------------------------------
  // Polish rendering

  /** `toPolish(node, field)`. */
  function ToPolish(n: Node, field: Field): Result<string, string>
    decreases n
  {
    match n
    case Variable(name) => Ok(name)
    case Predicate(d, args) =>
      (match ToPolishes(args, field)
       case Ok(ss) => Ok(Pick(d, field) + " " + Join(ss, " "))
       case Err(e) => Err(e))
    case Function(name, args) =>
      (match ToPolishes(args, field)
       case Ok(ss) => Ok(name + " " + Join(ss, " "))
       case Err(e) => Err(e))
    case Set(es) =>
      (match ToPolishes(es, field)
       case Ok(ss) => Ok("{" + Join(ss, ", ") + "}")
       case Err(e) => Err(e))
    case Tuple(es) =>
      (match ToPolishes(es, field)
       case Ok(ss) => Ok("(" + Join(ss, ", ") + ")")
       case Err(e) => Err(e))
    case Negation(d, body, _, _) =>
      (match ToPolish(body, field)
       case Ok(b) => Ok(Pick(d, field) + " " + b)
       case Err(e) => Err(e))
    case Quantifier(d, v, body, _, _) =>
      (match ToPolish(v, field)
       case Ok(sv) =>
         (match ToPolish(body, field)
          case Ok(sb) => Ok(Pick(d, field) + " " + sv + " " + sb)
          case Err(e) => Err(e))
       case Err(e) => Err(e))
    case BinaryConnective(d, l, r, _, _) =>
      (match ToPolish(l, field)
       case Ok(sl) =>
         (match ToPolish(r, field)
          case Ok(sr) => Ok(Pick(d, field) + " " + sl + " " + sr)
          case Err(e) => Err(e))
       case Err(e) => Err(e))
    case Other(t) => Err(Unknown(t))
  }

  /** `.map(x => toPolish(x, field))`, left to right. */
  function ToPolishes(ns: seq<Node>, field: Field): (r: Result<seq<string>, string>)
    ensures r.Ok? ==> |r.value| == |ns|
    decreases ns
  {
    if ns == [] then Ok([])
    else
      match ToPolish(ns[0], field)
      case Err(e) => Err(e)
      case Ok(s) =>
        match ToPolishes(ns[1..], field)
        case Err(e) => Err(e)
        case Ok(ss) => Ok([s] + ss)
  }

  // ---------------------------------------------------------------------------
  // The exported wrappers

  /** `str_repr`: infix, with the `identifier` display forms. */
  function StrRepr(n: Node): Result<string, string>
  {
    ToString(n, Identifier)
  }

  /** `str_unicode`: infix, with the `unicode` display forms. */
  function StrUnicode(n: Node): Result<string, string>
  {
    ToString(n, Unicode)
  }

  /** `str_polish`: Polish, with the `unicode` display forms. */
  function StrPolish(n: Node): Result<string, string>
  {
    ToPolish(n, Unicode)
  }

  // ---------------------------------------------------------------------------
  // Parentheses

  /** When `parenthesize` leaves a child bare: never-wrapped types, and children
      whose precedence number is strictly larger than the parent's. */
  predicate Unwrapped(child: Node, parentPrecedence: int)
  {
    NeverWrapped(child) || (!child.Other? && child.precedence > parentPrecedence)
  }

  /** `parenthesize` gives the child's own rendering, bare exactly when the
      child is never wrapped or has a larger precedence number than the parent,
      and in "(…)" otherwise: equal precedence is wrapped whatever the
      associativity. */
  lemma ParenthesizeSpec(child: Node, parentPrecedence: int, field: Field)
    ensures ToString(child, field).Err? ==> Parenthesize(child, parentPrecedence, field) == ToString(child, field)
    ensures ToString(child, field).Ok? ==>
      var s := ToString(child, field).value;
      Parenthesize(child, parentPrecedence, field) == Ok(if Unwrapped(child, parentPrecedence) then s else "(" + s + ")")
  {
  }

  /** No parenthesis in a string. */
  predicate ParenFree(s: string)
  {
    '(' !in s && ')' !in s
  }

  /** As many opening as closing parentheses. */
  predicate Balanced(s: string)
  {
    multiset(s)['('] == multiset(s)[')']
  }

  /** Every name and display form the renderers print for `field` is free of
      parentheses. */
  predicate PlainNames(n: Node, field: Field)
    decreases n
  {
    match n
    case Variable(name) => ParenFree(name)
    case Predicate(d, args) => ParenFree(Pick(d, field)) && forall i :: 0 <= i < |args| ==> PlainNames(args[i], field)
    case Function(name, args) => ParenFree(name) && forall i :: 0 <= i < |args| ==> PlainNames(args[i], field)
    case Set(es) => forall i :: 0 <= i < |es| ==> PlainNames(es[i], field)
    case Tuple(es) => forall i :: 0 <= i < |es| ==> PlainNames(es[i], field)
    case Negation(d, body, _, _) => ParenFree(Pick(d, field)) && PlainNames(body, field)
    case Quantifier(d, v, body, _, _) => ParenFree(Pick(d, field)) && PlainNames(v, field) && PlainNames(body, field)
    case BinaryConnective(d, l, r, _, _) => ParenFree(Pick(d, field)) && PlainNames(l, field) && PlainNames(r, field)
    case Other(_) => true
  }

  lemma {:induction false} JoinBalanced(parts: seq<string>, sep: string)
    requires forall i :: 0 <= i < |parts| ==> Balanced(parts[i])
    requires Balanced(sep)
    ensures Balanced(Join(parts, sep))
    decreases |parts|
  {
    if |parts| > 1 {
      JoinBalanced(parts[..|parts| - 1], sep);
    }
  }

  lemma {:induction false} JoinParenFree(parts: seq<string>, sep: string)
    requires forall i :: 0 <= i < |parts| ==> ParenFree(parts[i])
    requires ParenFree(sep)
    ensures ParenFree(Join(parts, sep))
    decreases |parts|
  {
    if |parts| > 1 {
      JoinParenFree(parts[..|parts| - 1], sep);
    }
  }

  lemma BalancedAround(pre: string, mid: string, post: string)
    requires Balanced(pre + post) && Balanced(mid)
    ensures Balanced(pre + mid + post)
  {
    assert multiset(pre + mid + post) == multiset(pre + post) + multiset(mid);
  }

  /** The infix rendering opens as many parentheses as it closes. */
  lemma {:induction false} InfixBalanced(n: Node, field: Field)
    requires PlainNames(n, field)
    requires ToString(n, field).Ok?
    ensures Balanced(ToString(n, field).value)
    decreases n, 3
  {
    if n.Negation? || n.Quantifier? || n.BinaryConnective? {
      ConnectiveBalanced(n, field);
    } else if !n.Variable? && !n.Other? {
      CollectionBalanced(n, field);
    }
  }

  lemma {:induction false} CollectionBalanced(n: Node, field: Field)
    requires n.Predicate? || n.Function? || n.Set? || n.Tuple?
    requires PlainNames(n, field)
    requires ToString(n, field).Ok?
    ensures Balanced(ToString(n, field).value)
    decreases n, 2
  {
    var ns := if n.Set? || n.Tuple? then n.elements else n.arguments;
    InfixBalancedList(ns, field);
    var inner := Join(ToStrings(ns, field).value, ", ");
    match n
    case Predicate(d, _) => BalancedAround(Pick(d, field) + "(", inner, ")");
    case Function(name, _) => BalancedAround(name + "(", inner, ")");
    case Set(_) => BalancedAround("{", inner, "}");
    case Tuple(_) => BalancedAround("(", inner, ")");
  }

  lemma {:induction false} ConnectiveBalanced(n: Node, field: Field)
    requires n.Negation? || n.Quantifier? || n.BinaryConnective?
    requires PlainNames(n, field)
    requires ToString(n, field).Ok?
    ensures Balanced(ToString(n, field).value)
    decreases n, 2
  {
    match n
    case Negation(d, body, prec, _) =>
      ParenthesizeBalanced(body, prec, field);
      var sb := Parenthesize(body, prec, field).value;
      assert ToString(n, field).value == Pick(d, field) + sb;
      BalancedAround(Pick(d, field), sb, "");
    case Quantifier(d, v, body, _, _) =>
      InfixBalanced(v, field);
      InfixBalanced(body, field);
      QuantifierBalanced(n, field);
    case BinaryConnective(d, l, r, prec, _) =>
      ParenthesizeBalanced(l, prec, field);
      ParenthesizeBalanced(r, prec, field);
      BinaryBalanced(n, field);
  }

  lemma QuantifierBalanced(n: Node, field: Field)
    requires n.Quantifier? && PlainNames(n, field) && ToString(n, field).Ok?
    requires Balanced(ToString(n.variable, field).value) && Balanced(ToString(n.formula, field).value)
    ensures Balanced(ToString(n, field).value)
  {
    var sv, sb := ToString(n.variable, field).value, ToString(n.formula, field).value;
    var q := Pick(n.display, field);
    assert ToString(n, field).value == q + " " + sv + " " + sb;
    BalancedAround(q + " ", sv, "");
    BalancedAround(q + " " + sv + " ", sb, "");
  }

  lemma BinaryBalanced(n: Node, field: Field)
    requires n.BinaryConnective? && PlainNames(n, field) && ToString(n, field).Ok?
    requires Balanced(Parenthesize(n.left, n.precedence, field).value)
    requires Balanced(Parenthesize(n.right, n.precedence, field).value)
    ensures Balanced(ToString(n, field).value)
  {
    var sl := Parenthesize(n.left, n.precedence, field).value;
    var sr := Parenthesize(n.right, n.precedence, field).value;
    var c := Pick(n.display, field);
    assert ToString(n, field).value == sl + " " + c + " " + sr;
    BalancedAround("", sl, " " + c + " ");
    assert "" + sl + (" " + c + " ") == sl + " " + c + " ";
    BalancedAround(sl + " " + c + " ", sr, "");
  }

  lemma {:induction false} ParenthesizeBalanced(child: Node, parentPrecedence: int, field: Field)
    requires PlainNames(child, field)
    requires Parenthesize(child, parentPrecedence, field).Ok?
    ensures Balanced(Parenthesize(child, parentPrecedence, field).value)
    decreases child, 4
  {
    InfixBalanced(child, field);
    BalancedAround("(", ToString(child, field).value, ")");
  }

  lemma {:induction false} InfixBalancedList(ns: seq<Node>, field: Field)
    requires forall i :: 0 <= i < |ns| ==> PlainNames(ns[i], field)
    requires ToStrings(ns, field).Ok?
    ensures forall i :: 0 <= i < |ns| ==> Balanced(ToStrings(ns, field).value[i])
    ensures Balanced(Join(ToStrings(ns, field).value, ", "))
    decreases ns
  {
    var ss := ToStrings(ns, field).value;
    if ns != [] {
      InfixBalanced(ns[0], field);
      InfixBalancedList(ns[1..], field);
      var rest := ToStrings(ns[1..], field).value;
      assert ss == [ToString(ns[0], field).value] + rest;
      forall i | 0 <= i < |ns| ensures Balanced(ss[i]) {
        if i > 0 {
          assert ss[i] == rest[i - 1];
        }
      }
    }
    JoinBalanced(ss, ", ");
  }

  /** No Tuple anywhere in the tree. */
  predicate NoTuples(n: Node)
    decreases n
  {
    match n
    case Predicate(_, args) => forall i :: 0 <= i < |args| ==> NoTuples(args[i])
    case Function(_, args) => forall i :: 0 <= i < |args| ==> NoTuples(args[i])
    case Set(es) => forall i :: 0 <= i < |es| ==> NoTuples(es[i])
    case Tuple(_) => false
    case Negation(_, body, _, _) => NoTuples(body)
    case Quantifier(_, v, body, _, _) => NoTuples(v) && NoTuples(body)
    case BinaryConnective(_, l, r, _, _) => NoTuples(l) && NoTuples(r)
    case _ => true
  }

  /** The Polish rendering adds no parentheses: only a Tuple prints any. */
  lemma {:induction false} PolishParenFree(n: Node, field: Field)
    requires PlainNames(n, field) && NoTuples(n)
    requires ToPolish(n, field).Ok?
    ensures ParenFree(ToPolish(n, field).value)
    decreases n
  {
    match n
    case Variable(_) =>
    case Predicate(_, args) => PolishParenFreeList(args, field);
    case Function(_, args) => PolishParenFreeList(args, field);
    case Set(es) => PolishParenFreeList(es, field);
    case Negation(_, body, _, _) => PolishParenFree(body, field);
    case Quantifier(_, v, body, _, _) =>
      PolishParenFree(v, field);
      PolishParenFree(body, field);
    case BinaryConnective(_, l, r, _, _) =>
      PolishParenFree(l, field);
      PolishParenFree(r, field);
    case Other(_) =>
  }

  lemma {:induction false} PolishParenFreeList(ns: seq<Node>, field: Field)
    requires forall i :: 0 <= i < |ns| ==> PlainNames(ns[i], field) && NoTuples(ns[i])
    requires ToPolishes(ns, field).Ok?
    ensures forall i :: 0 <= i < |ns| ==> ParenFree(ToPolishes(ns, field).value[i])
    ensures ParenFree(Join(ToPolishes(ns, field).value, " ")) && ParenFree(Join(ToPolishes(ns, field).value, ", "))
    decreases ns
  {
    if ns != [] {
      PolishParenFree(ns[0], field);
      PolishParenFreeList(ns[1..], field);
      var ss := ToPolishes(ns, field).value;
      assert forall i :: 1 <= i < |ns| ==> ss[i] == ToPolishes(ns[1..], field).value[i - 1];
    }
    JoinParenFree(ToPolishes(ns, field).value, " ");
    JoinParenFree(ToPolishes(ns, field).value, ", ");
  }

  // ---------------------------------------------------------------------------
  // Errors

  /** The type of the first unhandled node, in the order both renderers visit
      the tree. */
  function FirstUnknown(n: Node): Option<string>
    decreases n
  {
    match n
    case Variable(_) => None
    case Predicate(_, args) => FirstUnknownOf(args)
    case Function(_, args) => FirstUnknownOf(args)
    case Set(es) => FirstUnknownOf(es)
    case Tuple(es) => FirstUnknownOf(es)
    case Negation(_, body, _, _) => FirstUnknown(body)
    case Quantifier(_, v, body, _, _) => if FirstUnknown(v).Some? then FirstUnknown(v) else FirstUnknown(body)
    case BinaryConnective(_, l, r, _, _) => if FirstUnknown(l).Some? then FirstUnknown(l) else FirstUnknown(r)
    case Other(t) => Some(t)
  }

  function FirstUnknownOf(ns: seq<Node>): Option<string>
    decreases ns
  {
    if ns == [] then None
    else if FirstUnknown(ns[0]).Some? then FirstUnknown(ns[0])
    else FirstUnknownOf(ns[1..])
  }

  /** Both renderers fail exactly on trees holding a node of an unhandled type,
      and then with "Unknown node type: " and the first such type. */
  lemma {:induction false} RenderErrors(n: Node, field: Field)
    ensures ToString(n, field).Err? <==> FirstUnknown(n).Some?
    ensures ToPolish(n, field).Err? <==> FirstUnknown(n).Some?
    ensures FirstUnknown(n).Some? ==>
      ToString(n, field) == ToPolish(n, field) == Err(Unknown(FirstUnknown(n).value))
    decreases n
  {
    match n
    case Variable(_) =>
    case Predicate(_, args) => RenderErrorsList(args, field);
    case Function(_, args) => RenderErrorsList(args, field);
    case Set(es) => RenderErrorsList(es, field);
    case Tuple(es) => RenderErrorsList(es, field);
    case Negation(_, body, _, _) => RenderErrors(body, field);
    case Quantifier(_, v, body, _, _) =>
      RenderErrors(v, field);
      RenderErrors(body, field);
    case BinaryConnective(_, l, r, _, _) =>
      RenderErrors(l, field);
      RenderErrors(r, field);
    case Other(_) =>
  }

  lemma {:induction false} RenderErrorsList(ns: seq<Node>, field: Field)
    ensures ToStrings(ns, field).Err? <==> FirstUnknownOf(ns).Some?
    ensures ToPolishes(ns, field).Err? <==> FirstUnknownOf(ns).Some?
    ensures FirstUnknownOf(ns).Some? ==>
      && ToStrings(ns, field) == Err(Unknown(FirstUnknownOf(ns).value))
      && ToPolishes(ns, field) == Err(Unknown(FirstUnknownOf(ns).value))
    decreases ns
  {
    if ns != [] {
      RenderErrors(ns[0], field);
      RenderErrorsList(ns[1..], field);
    }
  }

  // ---------------------------------------------------------------------------
  // Display forms

  /** Every display form in the tree has equal identifier and unicode forms. */
  predicate SameForms(n: Node)
    decreases n
  {
    match n
    case Predicate(d, args) => d.identifier == d.unicode && forall i :: 0 <= i < |args| ==> SameForms(args[i])
    case Function(_, args) => forall i :: 0 <= i < |args| ==> SameForms(args[i])
    case Set(es) => forall i :: 0 <= i < |es| ==> SameForms(es[i])
    case Tuple(es) => forall i :: 0 <= i < |es| ==> SameForms(es[i])
    case Negation(d, body, _, _) => d.identifier == d.unicode && SameForms(body)
    case Quantifier(d, v, body, _, _) => d.identifier == d.unicode && SameForms(v) && SameForms(body)
    case BinaryConnective(d, l, r, _, _) => d.identifier == d.unicode && SameForms(l) && SameForms(r)
    case _ => true
  }

  /** The field is read only through display forms: where they agree,
      `str_repr` and `str_unicode` print the same. */
  lemma {:induction false} FieldOnlySelectsForms(n: Node)
    requires SameForms(n)
    ensures StrRepr(n) == StrUnicode(n)
    ensures ToPolish(n, Identifier) == ToPolish(n, Unicode)
    decreases n
  {
    match n
    case Variable(_) =>
    case Predicate(_, args) => FieldOnlySelectsFormsList(args);
    case Function(_, args) => FieldOnlySelectsFormsList(args);
    case Set(es) => FieldOnlySelectsFormsList(es);
    case Tuple(es) => FieldOnlySelectsFormsList(es);
    case Negation(_, body, prec, _) =>
      FieldOnlySelectsForms(body);
      assert Parenthesize(body, prec, Identifier) == Parenthesize(body, prec, Unicode);
    case Quantifier(_, v, body, _, _) =>
      FieldOnlySelectsForms(v);
      FieldOnlySelectsForms(body);
    case BinaryConnective(_, l, r, prec, _) =>
      FieldOnlySelectsForms(l);
      FieldOnlySelectsForms(r);
      assert Parenthesize(l, prec, Identifier) == Parenthesize(l, prec, Unicode);
      assert Parenthesize(r, prec, Identifier) == Parenthesize(r, prec, Unicode);
    case Other(_) =>
  }

  lemma {:induction false} FieldOnlySelectsFormsList(ns: seq<Node>)
    requires forall i :: 0 <= i < |ns| ==> SameForms(ns[i])
    ensures ToStrings(ns, Identifier) == ToStrings(ns, Unicode)
    ensures ToPolishes(ns, Identifier) == ToPolishes(ns, Unicode)
    decreases ns
  {
    if ns != [] {
      FieldOnlySelectsForms(ns[0]);
      FieldOnlySelectsFormsList(ns[1..]);
    }
  }

  // ---------------------------------------------------------------------------
  // Examples

  /** Conjunction with the display forms, precedence and associativity of the
      operator table: `\wedge` / `∧`, 3, left. */
  function And(l: Node, r: Node): Node
  {
    BinaryConnective(Display("\\wedge", "\U{2227}"), l, r, 3, "left")
  }

  /** Equal precedence is wrapped on both sides, whatever the associativity:
      `(A ∧ B) ∧ C` and `A ∧ (B ∧ C)`; Polish needs no parentheses. */
  lemma ConjunctionChains()
    ensures StrUnicode(And(And(Variable("A"), Variable("B")), Variable("C"))) == Ok("(A \U{2227} B) \U{2227} C")
    ensures StrUnicode(And(Variable("A"), And(Variable("B"), Variable("C")))) == Ok("A \U{2227} (B \U{2227} C)")
    ensures StrPolish(And(And(Variable("A"), Variable("B")), Variable("C"))) == Ok("\U{2227} \U{2227} A B C")
    ensures StrRepr(And(Variable("A"), Variable("B"))) == Ok("A \\wedge B")
  {
    var a, b, c := Variable("A"), Variable("B"), Variable("C");
    var and := "\U{2227}";
    assert Pick(And(a, b).display, Unicode) == and;
    assert Pick(And(a, b).display, Identifier) == "\\wedge";
    assert Parenthesize(a, 3, Unicode) == Ok("A");
    assert Parenthesize(b, 3, Unicode) == Ok("B");
    assert Parenthesize(c, 3, Unicode) == Ok("C");
    var sab := "A" + " " + and + " " + "B";
    var sbc := "B" + " " + and + " " + "C";
    assert ToString(And(a, b), Unicode) == Ok(sab);
    assert ToString(And(b, c), Unicode) == Ok(sbc);
    assert Parenthesize(And(a, b), 3, Unicode) == Ok("(" + sab + ")");
    assert Parenthesize(And(b, c), 3, Unicode) == Ok("(" + sbc + ")");
    assert ToString(And(And(a, b), c), Unicode) == Ok("(" + sab + ")" + " " + and + " " + "C");
    assert "(" + sab + ")" + " " + and + " " + "C" == "(A \U{2227} B) \U{2227} C";
    assert ToString(And(a, And(b, c)), Unicode) == Ok("A" + " " + and + " " + ("(" + sbc + ")"));
    assert "A" + " " + and + " " + ("(" + sbc + ")") == "A \U{2227} (B \U{2227} C)";
    assert ToPolish(And(a, b), Unicode) == Ok(and + " " + "A" + " " + "B");
    assert ToPolish(And(And(a, b), c), Unicode) == Ok(and + " " + (and + " " + "A" + " " + "B") + " " + "C");
    assert and + " " + (and + " " + "A" + " " + "B") + " " + "C" == "\U{2227} \U{2227} A B C";
    assert Parenthesize(a, 3, Identifier) == Ok("A");
    assert Parenthesize(b, 3, Identifier) == Ok("B");
    assert ToString(And(a, b), Identifier) == Ok("A" + " " + "\\wedge" + " " + "B");
    assert "A" + " " + "\\wedge" + " " + "B" == "A \\wedge B";
  }

  /** Negation with the display forms, precedence and associativity of the
      operator table: `\neg` / `¬`, 0, none. */
  function Not(f: Node): Node
  {
    Negation(Display("\\neg", "\U{00AC}"), f, 0, "none")
  }

  /** `parenthesize` leaves bare the child with the LARGER precedence number,
      while the operator table gives the tighter-binding operators the smaller
      numbers: the negation of `A ∧ B` prints as `¬A ∧ B`, and a negated
      conjunct is wrapped, `(¬A) ∧ B`. */
  lemma PrecedenceDirection()
    ensures StrUnicode(Not(And(Variable("A"), Variable("B")))) == Ok("\U{00AC}A \U{2227} B")
    ensures StrUnicode(And(Not(Variable("A")), Variable("B"))) == Ok("(\U{00AC}A) \U{2227} B")
  {
    var a, b := Variable("A"), Variable("B");
    var and, not := "\U{2227}", "\U{00AC}";
    assert Pick(And(a, b).display, Unicode) == and;
    assert Pick(Not(a).display, Unicode) == not;
    assert Parenthesize(a, 3, Unicode) == Ok("A");
    assert Parenthesize(b, 3, Unicode) == Ok("B");
    assert Parenthesize(a, 0, Unicode) == Ok("A");
    var sab := "A" + " " + and + " " + "B";
    assert ToString(And(a, b), Unicode) == Ok(sab);
    assert Parenthesize(And(a, b), 0, Unicode) == Ok(sab);
    assert ToString(Not(And(a, b)), Unicode) == Ok(not + sab);
    assert not + sab == "\U{00AC}A \U{2227} B";
    assert ToString(Not(a), Unicode) == Ok(not + "A");
    assert Parenthesize(Not(a), 3, Unicode) == Ok("(" + (not + "A") + ")");
    assert ToString(And(Not(a), b), Unicode) == Ok("(" + (not + "A") + ")" + " " + and + " " + "B");
    assert "(" + (not + "A") + ")" + " " + and + " " + "B" == "(\U{00AC}A) \U{2227} B";
  }
}
