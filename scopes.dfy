/** Parse-time scopes and the stack they form.

    The parser keeps a stack of scopes in which the node of scope i+1 is always the last child
    of the node of scope i. This model stores that link implicitly: a scope records its node's
    head (value or operator) and its `settled` children, the ones that are not the node of the
    scope above; `Linked` puts the tree back together from the bottom scope upwards. Appending a
    child to the top scope's node is then a push, and re-linking the last child of a scope's
    node (the `lastChild` setter) is a truncation of the stack followed by a push; the lemmas at
    the end of this module state both in terms of the materialised tree. */
module Scopes {
  import opened Tree

  /** A separator count, or the +infinity sentinel the counter starts with. */
  datatype Looseness = Inf | Fin(n: nat)

  /** `looseness++`: infinity plus one is infinity. */
  function Succ(l: Looseness): (r: Looseness)
    ensures r.Inf? <==> l.Inf?
    ensures l.Fin? ==> r.n == l.n + 1
  {
    match l
    case Inf => Inf
    case Fin(k) => Fin(k + 1)
  }

  /** JavaScript's `<` on counts that may be Infinity: nothing is below itself or below a
      count of its own, and Infinity is below nothing while every count is below Infinity. */
  predicate Below(a: Looseness, b: Looseness): (r: bool)
    ensures r ==> a.Fin? && a != b
    ensures a.Fin? && b.Inf? ==> r
    ensures a.Fin? && b.Fin? ==> (r <==> a.n < b.n)
  {
    match a
    case Inf => false
    case Fin(x) => b.Inf? || x < b.n
  }

  /** `Below` is a strict total order on loosenesses. */
  lemma BelowOrder(a: Looseness, b: Looseness, c: Looseness)
    ensures Below(a, b) ==> !Below(b, a)
    ensures Below(a, b) && Below(b, c) ==> Below(a, c)
    ensures a != b ==> Below(a, b) || Below(b, a)
  {
  }

  /** One more separator loosens a finite count. */
  lemma SuccAbove(l: Looseness)
    requires l.Fin?
    ensures Below(l, Succ(l)) && !Below(Succ(l), l)
  {
  }

  /** What a scope's node is: a value leaf, or an operator node. */
  datatype Head = ValueHead(value: string) | OperatorHead(op: Operator)

  /** A scope: its node, given by the head and the children other than the next scope's node,
      paired with its looseness. */
  datatype Scope = Scope(head: Head, settled: seq<Node>, looseness: Looseness)

  /** The scope's node once `chain` (nothing, or the next scope's node) is put back as its
      last child. */
  function NodeOf(s: Scope, chain: seq<Node>): Node
  {
    match s.head
    case ValueHead(v) => ValueNode(v)
    case OperatorHead(op) => OperatorNode(op, s.settled + chain)
  }

  /** The tree anchored by the stack: nothing for an empty stack, else the one tree rooted at
      the bottom scope's node. */
  function Linked(stack: seq<Scope>): (r: seq<Node>)
    ensures |r| == if stack == [] then 0 else 1
  {
    if stack == [] then [] else [NodeOf(stack[0], Linked(stack[1..]))]
  }

  /** `stack[0].node`, the node `parse` returns: the bottom scope's node, a value leaf or an
      operator node as the scope's head says. */
  function Root(stack: seq<Scope>): (r: Node)
    requires stack != []
    ensures r.ValueNode? <==> stack[0].head.ValueHead?
    ensures r.ValueNode? ==> r.value == stack[0].head.value
    ensures r.OperatorNode? ==> r.op == stack[0].head.op
  {
    Linked(stack)[0]
  }

  /** An operator node at the bottom holds the bottom scope's other children first and, if
      there is a scope above, that scope's node as its last child. */
  lemma RootLinks(stack: seq<Scope>)
    requires stack != [] && stack[0].head.OperatorHead?
    ensures |Root(stack).childNodes| == |stack[0].settled| + (if |stack| > 1 then 1 else 0)
    ensures Root(stack).childNodes[..|stack[0].settled|] == stack[0].settled
    ensures |stack| > 1 ==> LastChild(Root(stack)) == Some(Root(stack[1..]))
  {
  }

  function Top(stack: seq<Scope>): Scope
    requires stack != []
  {
    stack[|stack| - 1]
  }

  /** A scope whose node still has exactly one child slot to fill: a binary operator holding
      its left operand, or a prefix operator with no operand yet. */
  predicate Open(s: Scope)
  {
    && s.head.OperatorHead?
    && ((s.head.op.fixity == Binary && |s.settled| == 1)
        || (s.head.op.fixity == Prefix && s.settled == []))
  }

  /** A scope whose node is a finished expression: a value, or a postfix operator holding its
      operand. */
  predicate Complete(s: Scope)
  {
    || (s.head.ValueHead? && s.settled == [])
    || (s.head.OperatorHead? && s.head.op.fixity == Postfix && |s.settled| == 1)
  }

  /** Every scope below the top is open, and every settled child is a well-formed tree. */
  predicate ChainShaped(stack: seq<Scope>)
  {
    && (forall i :: 0 <= i < |stack| - 1 ==> Open(stack[i]))
    && (forall i, c :: 0 <= i < |stack| && c in stack[i].settled ==> WellFormed(c))
  }

  /** The in-order reading of the stack's tree, scope by scope: each scope contributes its
      node's reading without the chained child. */
  function StackYield(stack: seq<Scope>): seq<Item>
  {
    if stack == [] then [] else Yield(NodeOf(stack[0], [])) + StackYield(stack[1..])
  }

  lemma {:induction false} StackYieldAppend(a: seq<Scope>, b: seq<Scope>)
    ensures StackYield(a + b) == StackYield(a) + StackYield(b)
    decreases |a|
  {
    if a == [] {
      assert a + b == b;
    } else {
      assert (a + b)[0] == a[0];
      assert (a + b)[1..] == a[1..] + b;
      StackYieldAppend(a[1..], b);
    }
  }

  /** An open scope's node reads as its own part followed by the child that fills its slot. */
  lemma OpenYield(s: Scope, c: Node)
    requires Open(s)
    ensures Yield(NodeOf(s, [c])) == Yield(NodeOf(s, [])) + Yield(c)
  {
    if s.head.op.fixity == Binary {
      assert s.settled + [c] == [s.settled[0], c];
    } else {
      assert s.settled + [c] == [c];
    }
  }

  /** Reading the materialised tree is reading the stack scope by scope. */
  lemma {:induction false} RootYield(stack: seq<Scope>)
    requires stack != [] && ChainShaped(stack)
    ensures Yield(Root(stack)) == StackYield(stack)
    decreases |stack|
  {
    if |stack| == 1 {
      assert stack[1..] == [];
    } else {
      var rest := stack[1..];
      assert ChainShaped(rest) by {
        forall i, c | 0 <= i < |rest| && c in rest[i].settled ensures WellFormed(c) {
          assert rest[i] == stack[i + 1];
        }
      }
      RootYield(rest);
      assert Open(stack[0]);
      OpenYield(stack[0], Root(rest));
    }
  }

  /** With every scope below the top open and the top complete, the materialised tree is
      well-formed: each operator node has as many children as its fixity asks for. */
  lemma {:induction false} RootWellFormed(stack: seq<Scope>)
    requires stack != [] && ChainShaped(stack) && Complete(Top(stack))
    ensures WellFormed(Root(stack))
    decreases |stack|
  {
    var s := stack[0];
    if |stack| == 1 {
      assert stack[1..] == [];
      assert NodeOf(s, []) == Root(stack);
      if s.head.OperatorHead? {
        assert s.settled[0] in stack[0].settled;
      }
    } else {
      var rest := stack[1..];
      assert ChainShaped(rest) by {
        forall i, c | 0 <= i < |rest| && c in rest[i].settled ensures WellFormed(c) {
          assert rest[i] == stack[i + 1];
        }
      }
      assert Top(rest) == Top(stack);
      RootWellFormed(rest);
      assert Open(s);
      var ch := s.settled + [Root(rest)];
      assert Root(stack) == OperatorNode(s.head.op, ch);
      forall i | 0 <= i < |ch| ensures WellFormed(ch[i]) {
        if i < |s.settled| {
          assert ch[i] in stack[0].settled;
        }
      }
    }
  }

  // ---------------------------------------------------------------------------------------
  // The stack in terms of the linked tree

  /** The node reached from `n` by following last children `depth` times. */
  function AtDepth(n: Node, depth: nat): Option<Node>
    decreases depth
  {
    if depth == 0 then Some(n)
    else if n.OperatorNode? && n.childNodes != [] then AtDepth(LastChild(n).value, depth - 1)
    else None
  }

  /** `n` with the node at `depth` along the last-child path replaced by `m`, each node on the
      way re-linked with the `lastChild` setter. */
  function ReplaceAt(n: Node, depth: nat, m: Node): Node
    decreases depth
  {
    if depth == 0 then m
    else if n.OperatorNode? && n.childNodes != [] then
      SetLastChild(n, ReplaceAt(LastChild(n).value, depth - 1, m))
    else n
  }

  /** Each scope's node is the last child of the node of the scope directly below it, so scope
      `j`'s node is found from the root by following last children `j` times. */
  lemma {:induction false} ScopeNodeAtDepth(stack: seq<Scope>, j: nat)
    requires j < |stack|
    requires forall i :: 0 <= i < j ==> stack[i].head.OperatorHead?
    ensures AtDepth(Root(stack), j) == Some(Root(stack[j..]))
    decreases j
  {
    if j > 0 {
      var rest := stack[1..];
      assert Root(stack) == OperatorNode(stack[0].head.op, stack[0].settled + [Root(rest)]);
      assert LastChild(Root(stack)) == Some(Root(rest));
      assert rest[j - 1..] == stack[j..];
      ScopeNodeAtDepth(rest, j - 1);
    } else {
      assert stack[0..] == stack;
    }
  }

  /** Keeping the bottom `j` scopes and pushing `rest` on them yields the old tree with the
      node of scope `j` replaced by the node `rest` anchors. */
  lemma {:induction false} ReplaceFrom(stack: seq<Scope>, j: nat, rest: seq<Scope>)
    requires j < |stack| && rest != []
    requires forall i :: 0 <= i < j ==> stack[i].head.OperatorHead?
    ensures Root(stack[..j] + rest) == ReplaceAt(Root(stack), j, Root(rest))
    decreases j
  {
    if j == 0 {
      assert stack[..0] + rest == rest;
    } else {
      var s := stack[0];
      var tail := stack[1..];
      var kept := stack[..j] + rest;
      assert kept[0] == s;
      assert kept[1..] == tail[..j - 1] + rest;
      ReplaceFrom(tail, j - 1, rest);
      assert Root(stack) == OperatorNode(s.head.op, s.settled + [Root(tail)]);
      assert LastChild(Root(stack)) == Some(Root(tail));
      assert (s.settled + [Root(tail)])[..|s.settled|] == s.settled;
    }
  }

  lemma {:induction false} PairRoot(top: Scope, f: Scope)
    requires top.head.OperatorHead?
    ensures Root([top, f]) == AppendChild(NodeOf(top, []), NodeOf(f, []))
  {
    var leaf := NodeOf(f, []);
    assert [f][1..] == [];
    assert Linked([f]) == [NodeOf(f, Linked([]))];
    assert [top, f][1..] == [f];
    assert Linked([top, f]) == [NodeOf(top, Linked([f]))];
    assert Root([top, f]) == NodeOf(top, [leaf]);
    assert top.settled + [] == top.settled;
    assert NodeOf(top, []) == OperatorNode(top.head.op, top.settled);
  }

  /** Pushing scope `f` makes its node the new last child of the top scope's node
      (`curr.node.appendChild`), which is found from the root along last children, and leaves
      the rest of the tree unchanged. */
  lemma {:induction false} PushAppendsChild(stack: seq<Scope>, f: Scope)
    requires stack != []
    requires forall i :: 0 <= i < |stack| ==> stack[i].head.OperatorHead?
    ensures AtDepth(Root(stack), |stack| - 1) == Some(NodeOf(Top(stack), []))
    ensures Root(stack + [f]) ==
              ReplaceAt(Root(stack), |stack| - 1, AppendChild(NodeOf(Top(stack), []), NodeOf(f, [])))
  {
    var k := |stack| - 1;
    var top := stack[k];
    assert AtDepth(Root(stack), k) == Some(NodeOf(top, [])) by {
      ScopeNodeAtDepth(stack, k);
      assert stack[k..] == [top];
      assert [top][1..] == [];
    }
    assert Root(stack + [f]) == ReplaceAt(Root(stack), k, Root([top, f])) by {
      assert stack + [f] == stack[..k] + [top, f];
      ReplaceFrom(stack, k, [top, f]);
    }
    PairRoot(top, f);
  }
}
