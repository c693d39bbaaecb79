/** Operators, expression-tree nodes and their fully parenthesised rendering. */
module Tree {

  datatype Option<T> = None | Some(value: T)

  /** The three operator kinds the parser distinguishes by their `type` getter. */
  datatype Fixity = Binary | Prefix | Postfix

  /** An operator descriptor: its name, its numeric priority (higher binds tighter at equal
      looseness) and its fixity. */
  datatype Operator = Operator(name: string, priority: int, fixity: Fixity)

  /** A tree node: a leaf holding an opaque value, or an operator with its ordered children. */
  datatype Node =
    | ValueNode(value: string)
    | OperatorNode(op: Operator, childNodes: seq<Node>)

  /** One entry of the in-order reading of a tree: a value or an operator. */
  datatype Item = ValueItem(value: string) | OperatorItem(op: Operator)

  function Arity(f: Fixity): nat
  {
    if f == Binary then 2 else 1
  }

  /** Every operator node has exactly as many children as its fixity asks for. */
  predicate WellFormed(n: Node)
  {
    match n
    case ValueNode(_) => true
    case OperatorNode(op, ch) =>
      |ch| == Arity(op.fixity) && forall i :: 0 <= i < |ch| ==> WellFormed(ch[i])
  }

  /** Number of nodes of a tree. */
  function Size(n: Node): nat
    decreases n
  {
    match n
    case ValueNode(_) => 1
    case OperatorNode(_, ch) => 1 + SizeAll(ch)
  }

  function SizeAll(ns: seq<Node>): nat
    decreases ns
  {
    if ns == [] then 0 else Size(ns[0]) + SizeAll(ns[1..])
  }

  // ---------------------------------------------------------------------------------------
  // OperatorNode.appendChild and the lastChild getter and setter

  function AppendChild(n: Node, c: Node): (r: Node)
    requires n.OperatorNode?
    ensures r.OperatorNode? && r.op == n.op
    ensures LastChild(r) == Some(c)
    ensures |r.childNodes| == |n.childNodes| + 1
    ensures r.childNodes[..|n.childNodes|] == n.childNodes
  {
    OperatorNode(n.op, n.childNodes + [c])
  }

  /** `childNodes.at(-1)`: the last child, or nothing (JavaScript's undefined) when there is none. */
  function LastChild(n: Node): (r: Option<Node>)
    requires n.OperatorNode?
    ensures r.None? <==> n.childNodes == []
  {
    if n.childNodes == [] then None else Some(n.childNodes[|n.childNodes| - 1])
  }

  /** The setter pops the last child (a no-op on an empty list) and pushes the new one. */
  function SetLastChild(n: Node, c: Node): (r: Node)
    requires n.OperatorNode?
    ensures r.OperatorNode? && r.op == n.op
    ensures LastChild(r) == Some(c)
    ensures n.childNodes != [] ==> |r.childNodes| == |n.childNodes|
    ensures n.childNodes == [] ==> r.childNodes == [c]
    ensures forall i :: 0 <= i < |n.childNodes| - 1 ==> r.childNodes[i] == n.childNodes[i]
  {
    var kept := if n.childNodes == [] then [] else n.childNodes[..|n.childNodes| - 1];
    OperatorNode(n.op, kept + [c])
  }

  lemma SizeAllAppend(a: seq<Node>, b: seq<Node>)
    ensures SizeAll(a + b) == SizeAll(a) + SizeAll(b)
    decreases a
  {
    if a != [] {
      assert (a + b)[1..] == a[1..] + b;
      SizeAllAppend(a[1..], b);
    } else {
      assert a + b == b;
    }
  }

  /** Replacing the last child keeps every other node: the size changes by exactly the
      difference between the new child and the replaced one. */
  lemma {:induction false} SetLastChildSize(n: Node, c: Node)
    requires n.OperatorNode? && n.childNodes != []
    ensures Size(SetLastChild(n, c)) == Size(n) - Size(LastChild(n).value) + Size(c)
  {
    var ch := n.childNodes;
    var k := |ch| - 1;
    assert ch == ch[..k] + [ch[k]];
    SizeAllAppend(ch[..k], [ch[k]]);
    SizeAllAppend(ch[..k], [c]);
    assert SizeAll([ch[k]]) == Size(ch[k]) + SizeAll([]);
    assert SizeAll([c]) == Size(c) + SizeAll([]);
  }

  // ---------------------------------------------------------------------------------------
  // In-order reading

  /** The values and operators of a tree in reading order: left operand, operator, right
      operand for a binary node, operator then operand for a prefix node, operand then
      operator for a postfix node. Like `format`, it reads only the children the fixity uses. */
  function Yield(n: Node): (r: seq<Item>)
    ensures |r| > 0
  {
    match n
    case ValueNode(v) => [ValueItem(v)]
    case OperatorNode(op, ch) =>
      var first := if |ch| > 0 then Yield(ch[0]) else [];
      var second := if |ch| > 1 then Yield(ch[1]) else [];
      match op.fixity
      case Binary => first + [OperatorItem(op)] + second
      case Prefix => [OperatorItem(op)] + first
      case Postfix => first + [OperatorItem(op)]
  }

  /** A well-formed tree has one node per entry of its in-order reading. */
  lemma {:induction false} YieldLengthIsSize(n: Node)
    requires WellFormed(n)
    ensures |Yield(n)| == Size(n)
  {
    match n
    case ValueNode(_) =>
    case OperatorNode(op, ch) =>
      YieldLengthIsSize(ch[0]);
      if op.fixity == Binary {
        assert ch[1..][1..] == [];
        YieldLengthIsSize(ch[1]);
        assert SizeAll(ch) == Size(ch[0]) + SizeAll(ch[1..]);
        assert SizeAll(ch[1..]) == Size(ch[1]) + SizeAll(ch[1..][1..]);
      } else {
        assert ch[1..] == [];
        assert SizeAll(ch) == Size(ch[0]) + SizeAll(ch[1..]);
      }
  }

  // ---------------------------------------------------------------------------------------
  // Rendering: Operator.toString, the three `format` methods, OperatorNode.toString and
  // ValueNode.toString

  /** `format` of each operator kind, given its children already rendered; a missing child
      renders as JavaScript's `undefined`. */
  function Format(op: Operator, first: string, second: string): (r: string)
    ensures |r| > 0 && r[0] == '(' && r[|r| - 1] == ')'
  {
    match op.fixity
    case Binary => "(" + first + " " + op.name + " " + second + ")"
    case Prefix => "(" + op.name + " " + first + ")"
    case Postfix => "(" + first + " " + op.name + ")"
  }

  function ToString(n: Node): (r: string)
    ensures n.OperatorNode? ==> |r| > 0 && r[0] == '(' && r[|r| - 1] == ')'
    ensures n.ValueNode? ==> r == n.value
  {
    match n
    case ValueNode(v) => v
    case OperatorNode(op, ch) =>
      Format(op,
             if |ch| > 0 then ToString(ch[0]) else "undefined",
             if |ch| > 1 then ToString(ch[1]) else "undefined")
  }

  predicate NoParens(s: string)
  {
    forall i :: 0 <= i < |s| ==> s[i] != '(' && s[i] != ')'
  }

  /** No value and no operator name in the tree contains a parenthesis. */
  predicate Plain(n: Node)
  {
    match n
    case ValueNode(v) => NoParens(v)
    case OperatorNode(op, ch) => NoParens(op.name) && forall i :: 0 <= i < |ch| ==> Plain(ch[i])
  }

  /** The text with every parenthesis deleted. */
  function Unparen(s: string): (r: string)
    ensures NoParens(r)
    ensures |r| <= |s|
  {
    if s == [] then []
    else if s[0] == '(' || s[0] == ')' then Unparen(s[1..])
    else [s[0]] + Unparen(s[1..])
  }

  function Text(it: Item): string
  {
    match it
    case ValueItem(v) => v
    case OperatorItem(op) => op.name
  }

  /** The items' texts separated by single spaces. */
  function Words(items: seq<Item>): string
  {
    if |items| == 0 then ""
    else if |items| == 1 then Text(items[0])
    else Text(items[0]) + " " + Words(items[1..])
  }

  /** Number of operator nodes, the nodes `format` wraps in parentheses. */
  function OperatorCount(n: Node): nat
  {
    match n
    case ValueNode(_) => 0
    case OperatorNode(op, ch) =>
      1 + (if |ch| > 0 then OperatorCount(ch[0]) else 0)
        + (if op.fixity == Binary && |ch| > 1 then OperatorCount(ch[1]) else 0)
  }

  /** Number of opening parentheses in a text. */
  function Opening(s: string): nat
  {
    if s == [] then 0 else (if s[0] == '(' then 1 else 0) + Opening(s[1..])
  }

  lemma {:induction false} UnparenConcat(a: string, b: string)
    ensures Unparen(a + b) == Unparen(a) + Unparen(b)
    decreases a
  {
    if a == [] {
      assert a + b == b;
    } else {
      assert (a + b)[0] == a[0];
      assert (a + b)[1..] == a[1..] + b;
      UnparenConcat(a[1..], b);
    }
  }

  lemma {:induction false} UnparenPlain(s: string)
    requires NoParens(s)
    ensures Unparen(s) == s
    decreases s
  {
    if s != [] {
      UnparenPlain(s[1..]);
    }
  }

  lemma {:induction false} OpeningConcat(a: string, b: string)
    ensures Opening(a + b) == Opening(a) + Opening(b)
    decreases a
  {
    if a == [] {
      assert a + b == b;
    } else {
      assert (a + b)[0] == a[0];
      assert (a + b)[1..] == a[1..] + b;
      OpeningConcat(a[1..], b);
    }
  }

  lemma {:induction false} OpeningPlain(s: string)
    requires NoParens(s)
    ensures Opening(s) == 0
    decreases s
  {
    if s != [] {
      OpeningPlain(s[1..]);
    }
  }

  lemma {:induction false} WordsConcat(a: seq<Item>, b: seq<Item>)
    requires |a| > 0 && |b| > 0
    ensures Words(a + b) == Words(a) + " " + Words(b)
    decreases |a|
  {
    if |a| == 1 {
      assert (a + b)[1..] == b;
    } else {
      assert (a + b)[1..] == a[1..] + b;
      WordsConcat(a[1..], b);
    }
  }

  lemma UnparenSpaced(a: string, b: string)
    ensures Unparen(a + " " + b) == Unparen(a) + " " + Unparen(b)
  {
    UnparenConcat(a + " ", b);
    UnparenConcat(a, " ");
    assert Unparen(" ") == " " + Unparen("");
  }

  lemma UnparenWrapped(a: string)
    ensures Unparen("(" + a + ")") == Unparen(a)
  {
    UnparenConcat("(" + a, ")");
    UnparenConcat("(", a);
    assert Unparen("(") == Unparen("");
    assert Unparen(")") == Unparen("");
  }

  lemma UnparenBinary(a: string, name: string, b: string)
    requires NoParens(name)
    ensures Unparen("(" + a + " " + name + " " + b + ")") == Unparen(a) + " " + name + " " + Unparen(b)
  {
    var inner := a + " " + name + " " + b;
    assert "(" + a + " " + name + " " + b + ")" == "(" + inner + ")";
    UnparenWrapped(inner);
    UnparenSpaced(a + " " + name, b);
    UnparenSpaced(a, name);
    UnparenPlain(name);
  }

  lemma UnparenPrefix(name: string, a: string)
    requires NoParens(name)
    ensures Unparen("(" + name + " " + a + ")") == name + " " + Unparen(a)
  {
    var inner := name + " " + a;
    assert "(" + name + " " + a + ")" == "(" + inner + ")";
    UnparenWrapped(inner);
    UnparenSpaced(name, a);
    UnparenPlain(name);
  }

  lemma UnparenPostfix(a: string, name: string)
    requires NoParens(name)
    ensures Unparen("(" + a + " " + name + ")") == Unparen(a) + " " + name
  {
    var inner := a + " " + name;
    assert "(" + a + " " + name + ")" == "(" + inner + ")";
    UnparenWrapped(inner);
    UnparenSpaced(a, name);
    UnparenPlain(name);
  }

  lemma WordsAfter(op: Operator, b: seq<Item>)
    requires |b| > 0
    ensures Words([OperatorItem(op)] + b) == op.name + " " + Words(b)
  {
    var o := [OperatorItem(op)];
    assert (o + b)[1..] == b;
  }

  lemma WordsBefore(a: seq<Item>, op: Operator)
    requires |a| > 0
    ensures Words(a + [OperatorItem(op)]) == Words(a) + " " + op.name
  {
    var o := [OperatorItem(op)];
    assert Words(o) == op.name;
    WordsConcat(a, o);
  }

  lemma WordsAround(a: seq<Item>, op: Operator, b: seq<Item>)
    requires |a| > 0 && |b| > 0
    ensures Words(a + [OperatorItem(op)] + b) == Words(a) + " " + op.name + " " + Words(b)
  {
    var ob := [OperatorItem(op)] + b;
    assert a + [OperatorItem(op)] + b == a + ob;
    assert Words(ob) == op.name + " " + Words(b) by {
      WordsAfter(op, b);
    }
    assert Words(a + ob) == Words(a) + " " + Words(ob) by {
      WordsConcat(a, ob);
    }
    var left := Words(a) + " ";
    AppendAssoc(left, op.name + " ", Words(b));
    AppendAssoc(left, op.name, " ");
  }

  lemma AppendAssoc<T>(x: seq<T>, y: seq<T>, z: seq<T>)
    ensures x + (y + z) == x + y + z
  {
  }

  /** The rendering is the in-order reading with parentheses added and nothing else: deleting
      every parenthesis leaves the values and operator names, in order, separated by spaces. */
  lemma {:induction false} UnparenToString(n: Node)
    requires WellFormed(n) && Plain(n)
    ensures Unparen(ToString(n)) == Words(Yield(n))
  {
    match n
    case ValueNode(v) =>
      UnparenPlain(v);
    case OperatorNode(op, ch) =>
      assert Plain(ch[0]);
      UnparenToString(ch[0]);
      var a := ToString(ch[0]);
      var ya := Yield(ch[0]);
      if op.fixity == Binary {
        assert Plain(ch[1]);
        UnparenToString(ch[1]);
        var b := ToString(ch[1]);
        var yb := Yield(ch[1]);
        assert ToString(n) == "(" + a + " " + op.name + " " + b + ")";
        assert Yield(n) == ya + [OperatorItem(op)] + yb;
        UnparenBinary(a, op.name, b);
        WordsAround(ya, op, yb);
      } else if op.fixity == Prefix {
        assert ToString(n) == "(" + op.name + " " + a + ")";
        assert Yield(n) == [OperatorItem(op)] + ya;
        UnparenPrefix(op.name, a);
        WordsAfter(op, ya);
      } else {
        assert ToString(n) == "(" + a + " " + op.name + ")";
        assert Yield(n) == ya + [OperatorItem(op)];
        UnparenPostfix(a, op.name);
        WordsBefore(ya, op);
      }
  }

  /** Fully parenthesised: the rendering opens exactly one parenthesis per operator node. */
  lemma {:induction false} OpeningIsOperatorCount(n: Node)
    requires WellFormed(n) && Plain(n)
    ensures Opening(ToString(n)) == OperatorCount(n)
  {
    match n
    case ValueNode(v) =>
      OpeningPlain(v);
    case OperatorNode(op, ch) =>
      assert Plain(ch[0]);
      OpeningIsOperatorCount(ch[0]);
      OpeningPlain(op.name);
      var a := ToString(ch[0]);
      match op.fixity
      case Binary =>
        assert Plain(ch[1]);
        OpeningIsOperatorCount(ch[1]);
        var b := ToString(ch[1]);
        OpeningConcat("(" + a + " " + op.name + " " + b, ")");
        OpeningConcat("(" + a + " " + op.name + " ", b);
        OpeningConcat("(" + a + " " + op.name, " ");
        OpeningConcat("(" + a + " ", op.name);
        OpeningConcat("(" + a, " ");
        OpeningConcat("(", a);
      case Prefix =>
        OpeningConcat("(" + op.name + " " + a, ")");
        OpeningConcat("(" + op.name + " ", a);
        OpeningConcat("(" + op.name, " ");
        OpeningConcat("(", op.name);
      case Postfix =>
        OpeningConcat("(" + a + " " + op.name, ")");
        OpeningConcat("(" + a + " ", op.name);
        OpeningConcat("(" + a, " ");
        OpeningConcat("(", a);
  }

  // ---------------------------------------------------------------------------------------
  // The rendering fixes the grouping

  /** A word: non-empty, with no space and no parenthesis. */
  predicate Word(s: string)
  {
    |s| > 0 && forall i :: 0 <= i < |s| ==> s[i] != ' ' && s[i] != '(' && s[i] != ')'
  }

  /** Every value and operator name is a word; every operator name is one of `names` and no
      value is (a reader tells an operator from a value by its name). */
  predicate Printable(n: Node, names: set<string>)
  {
    match n
    case ValueNode(v) => Word(v) && v !in names
    case OperatorNode(op, ch) =>
      Word(op.name) && op.name in names && forall i :: 0 <= i < |ch| ==> Printable(ch[i], names)
  }

  /** Same structure, values, operator names and fixities; priorities, which the rendering
      does not show, may differ. */
  predicate SameShape(a: Node, b: Node)
  {
    match a
    case ValueNode(v) => b == ValueNode(v)
    case OperatorNode(op, ch) =>
      b.OperatorNode? && b.op.name == op.name && b.op.fixity == op.fixity &&
      |b.childNodes| == |ch| && forall i :: 0 <= i < |ch| ==> SameShape(ch[i], b.childNodes[i])
  }

  /** What may follow a rendering inside a larger one: nothing, a space or a closing parenthesis. */
  predicate Delimited(s: string)
  {
    s == [] || s[0] == ' ' || s[0] == ')'
  }

  /** Length of the word a text starts with: up to its first space or parenthesis. */
  function WordLength(s: string): (r: nat)
    ensures r <= |s|
  {
    if s == [] || s[0] == ' ' || s[0] == '(' || s[0] == ')' then 0 else 1 + WordLength(s[1..])
  }

  lemma {:induction false} WordLengthOf(a: string, x: string)
    requires forall i :: 0 <= i < |a| ==> a[i] != ' ' && a[i] != '(' && a[i] != ')'
    requires Delimited(x)
    ensures WordLength(a + x) == |a|
    decreases a
  {
    if a == [] {
      assert a + x == x;
    } else {
      assert (a + x)[1..] == a[1..] + x;
      WordLengthOf(a[1..], x);
    }
  }

  /** Two words each followed by a delimiter are the same word when the texts agree. */
  lemma WordPrefix(a: string, b: string, x: string, y: string)
    requires Word(a) && Word(b) && Delimited(x) && Delimited(y)
    ensures a + x == b + y ==> a == b && x == y
  {
    WordLengthOf(a, x);
    WordLengthOf(b, y);
    if a + x == b + y {
      assert a == (a + x)[..|a|] && x == (a + x)[|a|..];
      assert b == (b + y)[..|b|] && y == (b + y)[|b|..];
    }
  }

  /** A word never starts where a parenthesised rendering does. */
  lemma WordIsNotOpen(a: string, b: string, x: string, y: string)
    requires Word(a) && |b| > 0 && b[0] == '('
    ensures a + x != b + y
  {
    assert (a + x)[0] != (b + y)[0];
  }

  /** The text of an operator node and what follows it, after its opening parenthesis. */
  lemma BinaryText(op: Operator, l: Node, c: Node, r: string)
    requires op.fixity == Binary
    ensures (ToString(OperatorNode(op, [l, c])) + r)[1..]
         == ToString(l) + (" " + (op.name + (" " + (ToString(c) + (")" + r)))))
  {
    var a, b := ToString(l), ToString(c);
    var t := "(" + a + " " + op.name + " " + b + ")";
    assert ToString(OperatorNode(op, [l, c])) == t;
    AppendAssoc("(" + a + " " + op.name + " " + b, ")", r);
    AppendAssoc("(" + a + " " + op.name + " ", b, ")" + r);
    AppendAssoc("(" + a + " " + op.name, " ", b + (")" + r));
    AppendAssoc("(" + a + " ", op.name, " " + (b + (")" + r)));
    AppendAssoc("(" + a, " ", op.name + (" " + (b + (")" + r))));
    AppendAssoc("(", a, " " + (op.name + (" " + (b + (")" + r)))));
  }

  lemma PrefixText(op: Operator, c: Node, r: string)
    requires op.fixity == Prefix
    ensures (ToString(OperatorNode(op, [c])) + r)[1..] == op.name + (" " + (ToString(c) + (")" + r)))
  {
    var a := ToString(c);
    assert ToString(OperatorNode(op, [c])) == "(" + op.name + " " + a + ")";
    AppendAssoc("(" + op.name + " " + a, ")", r);
    AppendAssoc("(" + op.name + " ", a, ")" + r);
    AppendAssoc("(" + op.name, " ", a + (")" + r));
    AppendAssoc("(", op.name, " " + (a + (")" + r)));
  }

  lemma PostfixText(op: Operator, l: Node, r: string)
    requires op.fixity == Postfix
    ensures (ToString(OperatorNode(op, [l])) + r)[1..] == ToString(l) + (" " + (op.name + (")" + r)))
  {
    var a := ToString(l);
    assert ToString(OperatorNode(op, [l])) == "(" + a + " " + op.name + ")";
    AppendAssoc("(" + a + " " + op.name, ")", r);
    AppendAssoc("(" + a + " ", op.name, ")" + r);
    AppendAssoc("(" + a, " ", op.name + (")" + r));
    AppendAssoc("(", a, " " + (op.name + (")" + r)));
  }

  /** A rendering followed by a delimiter can be read back in one way only: equal texts come
      from trees of the same shape, and what follows them is equal too. */
  lemma {:induction false} ReadBack(n1: Node, n2: Node, x: string, y: string, names: set<string>)
    requires WellFormed(n1) && WellFormed(n2) && Printable(n1, names) && Printable(n2, names)
    requires Delimited(x) && Delimited(y)
    ensures ToString(n1) + x == ToString(n2) + y ==> SameShape(n1, n2) && x == y
    decreases n1, 2
  {
    if n1.ValueNode? && n2.ValueNode? {
      WordPrefix(n1.value, n2.value, x, y);
    } else if n1.ValueNode? {
      WordIsNotOpen(n1.value, ToString(n2), x, y);
    } else if n2.ValueNode? {
      WordIsNotOpen(n2.value, ToString(n1), y, x);
    } else if n1.op.fixity == Prefix && n2.op.fixity == Prefix {
      PrefixPair(n1, n2, x, y, names);
    } else if n1.op.fixity == Prefix {
      PrefixAgainstOperand(n1, n2, x, y, names);
    } else if n2.op.fixity == Prefix {
      PrefixAgainstOperand(n2, n1, y, x, names);
    } else {
      OperandPair(n1, n2, x, y, names);
    }
  }

  /** Two prefix nodes: the same operator name, then the same operand. */
  lemma {:induction false} PrefixPair(n1: Node, n2: Node, x: string, y: string, names: set<string>)
    requires WellFormed(n1) && WellFormed(n2) && Printable(n1, names) && Printable(n2, names)
    requires Delimited(x) && Delimited(y)
    requires n1.OperatorNode? && n1.op.fixity == Prefix && n2.OperatorNode? && n2.op.fixity == Prefix
    ensures ToString(n1) + x == ToString(n2) + y ==> SameShape(n1, n2) && x == y
    decreases n1, 0
  {
    var o1, c1, o2, c2 := n1.op, n1.childNodes, n2.op, n2.childNodes;
    assert c1 == [c1[0]] && c2 == [c2[0]];
    assert Printable(c1[0], names) && Printable(c2[0], names);
    PrefixText(o1, c1[0], x);
    PrefixText(o2, c2[0], y);
    var a1, a2 := ToString(c1[0]) + (")" + x), ToString(c2[0]) + (")" + y);
    WordPrefix(o1.name, o2.name, " " + a1, " " + a2);
    ReadBack(c1[0], c2[0], ")" + x, ")" + y, names);
    if ToString(n1) + x == ToString(n2) + y {
      assert (ToString(n1) + x)[1..] == (ToString(n2) + y)[1..];
      assert a1 == (" " + a1)[1..] && a2 == (" " + a2)[1..];
      assert x == (")" + x)[1..] && y == (")" + y)[1..];
      UnaryShape(o1, o2, c1[0], c2[0]);
    }
  }

  /** An operator node has the shape of another when its operator shows the same and its
      children have the same shapes. */
  lemma UnaryShape(o1: Operator, o2: Operator, a1: Node, a2: Node)
    requires o1.name == o2.name && o1.fixity == o2.fixity && SameShape(a1, a2)
    ensures SameShape(OperatorNode(o1, [a1]), OperatorNode(o2, [a2]))
  {
  }

  lemma BinaryShape(n1: Node, n2: Node)
    requires n1.OperatorNode? && n2.OperatorNode?
    requires n1.op.name == n2.op.name && n1.op.fixity == n2.op.fixity
    requires |n1.childNodes| == 2 == |n2.childNodes|
    requires SameShape(n1.childNodes[0], n2.childNodes[0])
    requires SameShape(n1.childNodes[1], n2.childNodes[1])
    ensures SameShape(n1, n2)
  {
    var c1, c2 := n1.childNodes, n2.childNodes;
    forall i | 0 <= i < |c1|
      ensures SameShape(c1[i], c2[i])
    {
      if i != 0 {
        assert i == 1;
      }
    }
  }

  /** A prefix node never renders like a binary or postfix one: after the parenthesis the
      former shows an operator name, the latter its left operand, a value or a parenthesis. */
  lemma PrefixAgainstOperand(n1: Node, n2: Node, x: string, y: string, names: set<string>)
    requires WellFormed(n1) && WellFormed(n2) && Printable(n1, names) && Printable(n2, names)
    requires n1.OperatorNode? && n1.op.fixity == Prefix && n2.OperatorNode? && n2.op.fixity != Prefix
    ensures ToString(n1) + x != ToString(n2) + y
  {
    var o1, c1, o2, c2 := n1.op, n1.childNodes, n2.op, n2.childNodes;
    assert c1 == [c1[0]];
    PrefixText(o1, c1[0], x);
    var rest1 := " " + (ToString(c1[0]) + (")" + x));
    var l2 := c2[0];
    var rest2;
    if o2.fixity == Binary {
      assert c2 == [c2[0], c2[1]];
      BinaryText(o2, l2, c2[1], y);
      rest2 := " " + (o2.name + (" " + (ToString(c2[1]) + (")" + y))));
    } else {
      assert c2 == [c2[0]];
      PostfixText(o2, l2, y);
      rest2 := " " + (o2.name + (")" + y));
    }
    assert Printable(l2, names);
    if l2.ValueNode? {
      WordPrefix(o1.name, l2.value, rest1, rest2);
    } else {
      WordIsNotOpen(o1.name, ToString(l2), rest1, rest2);
    }
    assert (ToString(n1) + x)[1..] != (ToString(n2) + y)[1..];
  }

  /** What a binary or postfix node shows after its operator name, followed by `x`: the right
      operand and the closing parenthesis, or the closing parenthesis alone. */
  function Closing(n: Node, x: string): (r: string)
    requires n.OperatorNode? && n.op.fixity != Prefix && |n.childNodes| == Arity(n.op.fixity)
    ensures Delimited(r)
  {
    if n.op.fixity == Binary then " " + (ToString(n.childNodes[1]) + (")" + x)) else ")" + x
  }

  lemma OperandText(n: Node, x: string)
    requires n.OperatorNode? && n.op.fixity != Prefix && |n.childNodes| == Arity(n.op.fixity)
    ensures (ToString(n) + x)[1..] == ToString(n.childNodes[0]) + (" " + (n.op.name + Closing(n, x)))
  {
    var c := n.childNodes;
    if n.op.fixity == Binary {
      assert c == [c[0], c[1]];
      BinaryText(n.op, c[0], c[1], x);
    } else {
      assert c == [c[0]];
      PostfixText(n.op, c[0], x);
    }
  }

  /** Two binary or postfix nodes: the same left operand, then the same operator name, then
      the same closing (a right operand or the parenthesis). */
  lemma {:induction false} OperandPair(n1: Node, n2: Node, x: string, y: string, names: set<string>)
    requires WellFormed(n1) && WellFormed(n2) && Printable(n1, names) && Printable(n2, names)
    requires Delimited(x) && Delimited(y)
    requires n1.OperatorNode? && n1.op.fixity != Prefix && n2.OperatorNode? && n2.op.fixity != Prefix
    ensures ToString(n1) + x == ToString(n2) + y ==> SameShape(n1, n2) && x == y
    decreases n1, 1
  {
    var o1, c1, o2, c2 := n1.op, n1.childNodes, n2.op, n2.childNodes;
    assert Printable(c1[0], names) && Printable(c2[0], names);
    var close1, close2 := Closing(n1, x), Closing(n2, y);
    var tail1, tail2 := " " + (o1.name + close1), " " + (o2.name + close2);
    if ToString(n1) + x == ToString(n2) + y {
      assert ToString(c1[0]) + tail1 == ToString(c2[0]) + tail2 by {
        OperandText(n1, x);
        OperandText(n2, y);
      }
      ReadBack(c1[0], c2[0], tail1, tail2, names);
      WordPrefix(o1.name, o2.name, close1, close2);
      assert o1.name + close1 == tail1[1..] && o2.name + close2 == tail2[1..];
      ClosingPair(n1, n2, x, y, names);
    }
  }

  /** Equal closings: the same fixity, the same right operand if any, and what follows. */
  lemma {:induction false} ClosingPair(n1: Node, n2: Node, x: string, y: string, names: set<string>)
    requires WellFormed(n1) && WellFormed(n2) && Printable(n1, names) && Printable(n2, names)
    requires Delimited(x) && Delimited(y)
    requires n1.OperatorNode? && n1.op.fixity != Prefix && n2.OperatorNode? && n2.op.fixity != Prefix
    requires n1.op.name == n2.op.name && SameShape(n1.childNodes[0], n2.childNodes[0])
    ensures Closing(n1, x) == Closing(n2, y) ==> SameShape(n1, n2) && x == y
    decreases n1, 0
  {
    var o1, c1, o2, c2 := n1.op, n1.childNodes, n2.op, n2.childNodes;
    var close1, close2 := Closing(n1, x), Closing(n2, y);
    if close1 == close2 {
      assert close1[0] == close2[0];
      assert o1.fixity == o2.fixity;
      if o1.fixity == Binary {
        assert Printable(c1[1], names) && Printable(c2[1], names);
        ReadBack(c1[1], c2[1], ")" + x, ")" + y, names);
        assert close1[1..] == ToString(c1[1]) + (")" + x);
        assert close2[1..] == ToString(c2[1]) + (")" + y);
        BinaryShape(n1, n2);
      } else {
        assert c1 == [c1[0]] && c2 == [c2[0]];
        UnaryShape(o1, o2, c1[0], c2[0]);
      }
      assert x == (")" + x)[1..] && y == (")" + y)[1..];
    }
  }

  /** Trees of the same shape render alike. */
  lemma {:induction false} SameShapeSameText(n1: Node, n2: Node)
    requires SameShape(n1, n2)
    ensures ToString(n1) == ToString(n2)
    decreases n1
  {
    match n1
    case ValueNode(_) =>
    case OperatorNode(op, ch) =>
      if |ch| > 0 {
        SameShapeSameText(ch[0], n2.childNodes[0]);
      }
      if |ch| > 1 {
        SameShapeSameText(ch[1], n2.childNodes[1]);
      }
  }

  /** The rendering fixes the grouping: two well-formed trees whose values and operator names
      are words, with no value spelled like an operator name, render to the same text exactly
      when they have the same shape. */
  lemma ToStringInjective(n1: Node, n2: Node, names: set<string>)
    requires WellFormed(n1) && WellFormed(n2) && Printable(n1, names) && Printable(n2, names)
    ensures ToString(n1) == ToString(n2) <==> SameShape(n1, n2)
  {
    ReadBack(n1, n2, "", "", names);
    assert ToString(n1) + "" == ToString(n1) && ToString(n2) + "" == ToString(n2);
    if SameShape(n1, n2) {
      SameShapeSameText(n1, n2);
    }
  }
}
