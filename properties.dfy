/** Properties of `parse` stated over whole token sequences: the single-value case, the two
    failure points, what the splice and the appends do to the tree, default-operator
    insertion, and how looseness and priority decide the grouping. */
module ParseProperties {
  import opened Tree
  import opened Scopes
  import opened ParseSteps
  import Reference

  /** `k` separator tokens. */
  function Seps(k: nat): (r: seq<Token>)
    ensures |r| == k
    ensures forall i :: 0 <= i < k ==> r[i] == Separator
  {
    if k == 0 then [] else Seps(k - 1) + [Separator]
  }

  /** The counter after `k` more separators: Infinity stays Infinity. */
  function AddSeps(l: Looseness, k: nat): Looseness
  {
    match l
    case Inf => Inf
    case Fin(n) => Fin(n + k)
  }

  lemma {:induction false} RunFromSnoc(st: State, ts: seq<Token>, t: Token, defOp: Operator)
    requires Valid(st) && defOp.fixity == Binary
    ensures RunFrom(st, ts + [t], defOp) ==
              match RunFrom(st, ts, defOp)
              case Err(e) => Err(e)
              case Ok(s) => Step(s, t, defOp)
  {
    assert (ts + [t])[..|ts|] == ts;
  }

  /** Separators only count: they bump the counter (Infinity stays Infinity) and change
      nothing else. */
  lemma {:induction false} RunSeparators(st: State, k: nat, defOp: Operator)
    requires Valid(st) && defOp.fixity == Binary
    ensures RunFrom(st, Seps(k), defOp) == Ok(st.(looseness := AddSeps(st.looseness, k)))
    decreases k
  {
    if k > 0 {
      var prev := st.(looseness := AddSeps(st.looseness, k - 1));
      RunSeparators(st, k - 1, defOp);
      assert Seps(k) == Seps(k - 1) + [Separator];
      RunFromSnoc(st, Seps(k - 1), Separator, defOp);
      assert Step(prev, Separator, defOp) == Ok(prev.(looseness := Succ(prev.looseness)));
      assert Succ(prev.looseness) == AddSeps(st.looseness, k);
    }
  }

  /** Once the loop has failed, later tokens are not read. */
  lemma {:induction false} ErrorIsFinal(st: State, a: seq<Token>, b: seq<Token>, defOp: Operator)
    requires Valid(st) && defOp.fixity == Binary
    requires RunFrom(st, a, defOp).Err?
    ensures RunFrom(st, a + b, defOp) == RunFrom(st, a, defOp)
  {
    RunFromAppend(st, a, b, defOp);
  }

  // ---------------------------------------------------------------------------------------
  // Single values and the failure points

  /** One value with any number of separators around it parses to a leaf holding that value:
      leading separators leave the counter at Infinity, trailing ones are never read back. */
  lemma {:induction false} SingleValue(m: nat, v: string, n: nat, defOp: Operator)
    requires defOp.fixity == Binary
    ensures ParseTokens(Seps(m) + [ValueToken(v)] + Seps(n), defOp) == Ok(ValueNode(v))
  {
    InitValid();
    RunSeparators(Init, m, defOp);
    RunFromSnoc(Init, Seps(m), ValueToken(v), defOp);
    var leaf := Scope(ValueHead(v), [], Inf);
    var s := State([leaf], Fin(0), false);
    assert AddVal(Init, v, defOp) == s by {
      assert [] + [leaf] == [leaf];
    }
    assert RunFrom(Init, Seps(m) + [ValueToken(v)], defOp) == Ok(s);
    RunFromAppend(Init, Seps(m) + [ValueToken(v)], Seps(n), defOp);
    RunSeparators(s, n, defOp);
    var s' := s.(looseness := Fin(n));
    assert RunFrom(Init, Seps(m) + [ValueToken(v)] + Seps(n), defOp) == Ok(s');
    assert Linked(s'.stack) == [ValueNode(v)] by {
      assert s'.stack[1..] == [];
    }
  }

  /** Empty input, or input of separators only, ends while a value is awaited. */
  lemma {:induction false} OnlySeparators(k: nat, defOp: Operator)
    requires defOp.fixity == Binary
    ensures ParseTokens(Seps(k), defOp) == Err(UnexpectedEof)
  {
    InitValid();
    RunSeparators(Init, k, defOp);
  }

  /** A binary or postfix operator before any value fails at once. */
  lemma {:induction false} LeadingOperator(k: nat, op: Operator, rest: seq<Token>, defOp: Operator)
    requires defOp.fixity == Binary && op.fixity != Prefix
    ensures ParseTokens(Seps(k) + [OperatorToken(op)] + rest, defOp) == Err(UnexpectedOperator(op))
  {
    InitValid();
    RunSeparators(Init, k, defOp);
    RunFromSnoc(Init, Seps(k), OperatorToken(op), defOp);
    ErrorIsFinal(Init, Seps(k) + [OperatorToken(op)], rest, defOp);
  }

  /** A binary or postfix operator right after a binary or prefix operator (separators
      between them do not matter) fails. */
  lemma {:induction false} OperatorAfterOperator(xs: seq<Token>, p: Operator, k: nat, op: Operator,
                                                 rest: seq<Token>, defOp: Operator)
    requires defOp.fixity == Binary && p.fixity != Postfix && op.fixity != Prefix
    requires RunFrom(Init, xs + [OperatorToken(p)], defOp).Ok?
    ensures ParseTokens(xs + [OperatorToken(p)] + Seps(k) + [OperatorToken(op)] + rest, defOp)
              == Err(UnexpectedOperator(op))
  {
    InitValid();
    var a := xs + [OperatorToken(p)];
    var s := RunFrom(Init, a, defOp).value;
    assert s.awaitingVal by {
      RunFromSnoc(Init, xs, OperatorToken(p), defOp);
    }
    RunFromAppend(Init, a, Seps(k), defOp);
    RunSeparators(s, k, defOp);
    RunFromSnoc(Init, a + Seps(k), OperatorToken(op), defOp);
    ErrorIsFinal(Init, a + Seps(k) + [OperatorToken(op)], rest, defOp);
  }

  /** Input that ends with a binary or prefix operator, followed by nothing but separators,
      fails: with an end-of-input error unless an earlier token already failed. */
  lemma {:induction false} TrailingOperator(xs: seq<Token>, p: Operator, k: nat, defOp: Operator)
    requires defOp.fixity == Binary && p.fixity != Postfix
    ensures ParseTokens(xs + [OperatorToken(p)] + Seps(k), defOp).Err?
    ensures RunFrom(Init, xs + [OperatorToken(p)], defOp).Ok? ==>
              ParseTokens(xs + [OperatorToken(p)] + Seps(k), defOp) == Err(UnexpectedEof)
  {
    InitValid();
    var a := xs + [OperatorToken(p)];
    RunFromAppend(Init, a, Seps(k), defOp);
    if RunFrom(Init, a, defOp).Ok? {
      var s := RunFrom(Init, a, defOp).value;
      assert s.awaitingVal by {
        RunFromSnoc(Init, xs, OperatorToken(p), defOp);
      }
      RunSeparators(s, k, defOp);
    }
  }

  // ---------------------------------------------------------------------------------------
  // The tree operations of one step

  /** A binary or postfix operator takes the place of the node of the last popped scope
      (`lastChild = oprNode` on the scope below it, or the root when the stack was emptied)
      and holds that node as its first child: nothing is dropped, and the tree reads as
      before with the operator appended. */
  lemma {:induction false} SubsumeRelinks(st: State, op: Operator, defOp: Operator)
    requires Valid(st) && defOp.fixity == Binary && op.fixity != Prefix && !st.awaitingVal
    ensures var j := PopIndex(st.stack, |st.stack| - 1, st.looseness, op.priority);
            && AtDepth(Root(st.stack), j).Some?
            && Root(AddOpr(st, op, defOp).value.stack) ==
                 ReplaceAt(Root(st.stack), j, OperatorNode(op, [AtDepth(Root(st.stack), j).value]))
    ensures Yield(Root(AddOpr(st, op, defOp).value.stack)) == Yield(Root(st.stack)) + [OperatorItem(op)]
  {
    var j := PopIndex(st.stack, |st.stack| - 1, st.looseness, op.priority);
    var left := st.stack[j..];
    var g := Scope(OperatorHead(op), [Root(left)], st.stack[j].looseness);
    var after := AddOpr(st, op, defOp).value;
    assert after.stack == st.stack[..j] + [g];
    ScopeNodeAtDepth(st.stack, j);
    assert Root([g]) == OperatorNode(op, [Root(left)]) by {
      assert [g][1..] == [];
      assert [Root(left)] + [] == [Root(left)];
    }
    ReplaceFrom(st.stack, j, [g]);
    Reference.SubsumeYield(st, op, defOp);
    RootYield(st.stack);
    RootYield(after.stack);
  }

  /** A value leaf is appended as the last child of the top scope's node (after any default
      operator was inserted), or becomes the root when the stack is empty. */
  lemma {:induction false} AddValAppends(st: State, v: string, defOp: Operator)
    requires Valid(st) && defOp.fixity == Binary
    ensures var s := AddOmittedOprIfNeeded(st, defOp);
            if s.stack == [] then Root(AddVal(st, v, defOp).stack) == ValueNode(v)
            else
              && AtDepth(Root(s.stack), |s.stack| - 1).Some?
              && AtDepth(Root(s.stack), |s.stack| - 1).value.OperatorNode?
              && Root(AddVal(st, v, defOp).stack) ==
                   ReplaceAt(Root(s.stack), |s.stack| - 1,
                             AppendChild(AtDepth(Root(s.stack), |s.stack| - 1).value, ValueNode(v)))
  {
    var s := AddOmittedOprIfNeeded(st, defOp);
    var f := Scope(ValueHead(v), [], s.looseness);
    assert AddVal(st, v, defOp).stack == s.stack + [f];
    assert forall i :: 0 <= i < |s.stack| ==> s.stack[i].head.OperatorHead? by {
      assert s.stack != [] ==> Open(Top(s.stack));
    }
    PushNode(s.stack, f);
  }

  /** A prefix operator node is appended like a value leaf. */
  lemma {:induction false} AddPrefixAppends(st: State, op: Operator, defOp: Operator)
    requires Valid(st) && defOp.fixity == Binary && op.fixity == Prefix
    ensures var s := AddOmittedOprIfNeeded(st, defOp);
            if s.stack == [] then Root(AddOpr(st, op, defOp).value.stack) == OperatorNode(op, [])
            else
              && AtDepth(Root(s.stack), |s.stack| - 1).Some?
              && AtDepth(Root(s.stack), |s.stack| - 1).value.OperatorNode?
              && Root(AddOpr(st, op, defOp).value.stack) ==
                   ReplaceAt(Root(s.stack), |s.stack| - 1,
                             AppendChild(AtDepth(Root(s.stack), |s.stack| - 1).value, OperatorNode(op, [])))
  {
    var s := AddOmittedOprIfNeeded(st, defOp);
    var f := Scope(OperatorHead(op), [], s.looseness);
    assert NodeOf(f, []) == OperatorNode(op, []);
    assert AddOpr(st, op, defOp).value.stack == s.stack + [f];
    assert forall i :: 0 <= i < |s.stack| ==> s.stack[i].head.OperatorHead? by {
      assert s.stack != [] ==> Open(Top(s.stack));
    }
    PushNode(s.stack, f);
  }

  /** Pushing a scope onto a stack of operator scopes (as when a value is awaited) appends
      its node to the top scope's node, or makes it the root of an empty stack. */
  lemma {:induction false} PushNode(stack: seq<Scope>, f: Scope)
    requires forall i :: 0 <= i < |stack| ==> stack[i].head.OperatorHead?
    ensures if stack == [] then Root(stack + [f]) == NodeOf(f, [])
            else
              && AtDepth(Root(stack), |stack| - 1).Some?
              && AtDepth(Root(stack), |stack| - 1).value.OperatorNode?
              && Root(stack + [f]) ==
                   ReplaceAt(Root(stack), |stack| - 1, AppendChild(AtDepth(Root(stack), |stack| - 1).value, NodeOf(f, [])))
  {
    if stack == [] {
      assert stack + [f] == [f];
      assert [f][1..] == [];
    } else {
      PushAppendsChild(stack, f);
    }
  }

  // ---------------------------------------------------------------------------------------
  // The default operator

  /** Right after a complete expression (counter at 0), `k` separators and then a value or a
      prefix operator act as `k` separators, the default operator, `k` separators and that
      token: the inserted operator sees the counter `k`, and the restore hands the same `k` to
      the token. */
  lemma {:induction false} InsertionAtState(st: State, k: nat, t: Token, defOp: Operator)
    requires Valid(st) && defOp.fixity == Binary
    requires !st.awaitingVal && st.looseness == Fin(0)
    requires t.ValueToken? || (t.OperatorToken? && t.op.fixity == Prefix)
    ensures RunFrom(st, Seps(k) + [t], defOp) ==
              RunFrom(st, Seps(k) + [OperatorToken(defOp)] + Seps(k) + [t], defOp)
  {
    var sk := st.(looseness := Fin(k));
    RunSeparators(st, k, defOp);
    RunFromSnoc(st, Seps(k), t, defOp);
    assert RunFrom(st, Seps(k) + [t], defOp) == Step(sk, t, defOp);
    var s1 := AddOpr(sk, defOp, defOp).value;
    RunFromSnoc(st, Seps(k), OperatorToken(defOp), defOp);
    assert RunFrom(st, Seps(k) + [OperatorToken(defOp)], defOp) == Ok(s1);
    var s2 := s1.(looseness := Fin(k));
    RunFromAppend(st, Seps(k) + [OperatorToken(defOp)], Seps(k), defOp);
    RunSeparators(s1, k, defOp);
    assert RunFrom(st, Seps(k) + [OperatorToken(defOp)] + Seps(k), defOp) == Ok(s2);
    RunFromSnoc(st, Seps(k) + [OperatorToken(defOp)] + Seps(k), t, defOp);
    assert AddOmittedOprIfNeeded(sk, defOp) == s2;
    assert AddOmittedOprIfNeeded(s2, defOp) == s2;
  }

  /** Given a complete expression `x` (it parses, and does not end with a separator), a value
      or prefix operator after `k` separators parses as if the default operator, with `k`
      separators on each side, had been written before it. */
  lemma {:induction false} DefaultOperatorInsertion(x: seq<Token>, k: nat, t: Token, rest: seq<Token>,
                                                    defOp: Operator)
    requires defOp.fixity == Binary
    requires ParseTokens(x, defOp).Ok? && |x| > 0 && !x[|x| - 1].Separator?
    requires t.ValueToken? || (t.OperatorToken? && t.op.fixity == Prefix)
    ensures ParseTokens(x + Seps(k) + [t] + rest, defOp) ==
              ParseTokens(x + Seps(k) + [OperatorToken(defOp)] + Seps(k) + [t] + rest, defOp)
  {
    InitValid();
    var m1 := Seps(k) + [t];
    var m2 := Seps(k) + [OperatorToken(defOp)] + Seps(k) + [t];
    assert RunFrom(Init, x + m1 + rest, defOp) == RunFrom(Init, x + m2 + rest, defOp) by {
      var s := RunFrom(Init, x, defOp).value;
      assert s.looseness == Fin(0) by {
        RunFromSnoc(Init, x[..|x| - 1], x[|x| - 1], defOp);
        assert x[..|x| - 1] + [x[|x| - 1]] == x;
      }
      InsertionAtState(s, k, t, defOp);
      SameContinuation(Init, x, m1, m2, rest, defOp);
    }
    assert x + Seps(k) + [t] + rest == x + m1 + rest;
    assert x + Seps(k) + [OperatorToken(defOp)] + Seps(k) + [t] + rest == x + m2 + rest;
  }

  lemma {:induction false} SameContinuation(st: State, x: seq<Token>, m1: seq<Token>, m2: seq<Token>,
                                            rest: seq<Token>, defOp: Operator)
    requires Valid(st) && defOp.fixity == Binary && RunFrom(st, x, defOp).Ok?
    requires RunFrom(RunFrom(st, x, defOp).value, m1, defOp) == RunFrom(RunFrom(st, x, defOp).value, m2, defOp)
    ensures RunFrom(st, x + m1 + rest, defOp) == RunFrom(st, x + m2 + rest, defOp)
  {
    RunFromAppend(st, x, m1, defOp);
    RunFromAppend(st, x, m2, defOp);
    RunFromAppend(st, x + m1, rest, defOp);
    RunFromAppend(st, x + m2, rest, defOp);
  }

  // ---------------------------------------------------------------------------------------
  // Grouping

  lemma {:induction false} Extend(ts: seq<Token>, t: Token, s: State, s': State, defOp: Operator)
    requires defOp.fixity == Binary && RunFrom(Init, ts, defOp) == Ok(s) && Step(s, t, defOp) == Ok(s')
    ensures RunFrom(Init, ts + [t], defOp) == Ok(s')
  {
    InitValid();
    RunFromSnoc(Init, ts, t, defOp);
  }

  lemma {:induction false} Finish(ts: seq<Token>, s: State, defOp: Operator)
    requires defOp.fixity == Binary && RunFrom(Init, ts, defOp) == Ok(s) && !s.awaitingVal
    ensures s.stack != [] && ParseTokens(ts, defOp) == Ok(Root(s.stack))
  {
  }

  lemma RootOfLeaf(s: Scope)
    requires s.head.ValueHead?
    ensures Root([s]) == ValueNode(s.head.value)
  {
    assert [s][1..] == [];
  }

  lemma RootOfPair(s: Scope, f: Scope)
    requires s.head.OperatorHead?
    ensures Root([s, f]) == OperatorNode(s.head.op, s.settled + [NodeOf(f, [])])
  {
    PairRoot(s, f);
  }

  /** The state after `a p b` and `k` separators: `p`'s node holding `a`, with `b`'s scope
      above it at looseness 0, and the counter at `k`. */
  lemma {:induction false} OneBinaryOperator(a: string, p: Operator, b: string, k: nat, defOp: Operator)
    requires defOp.fixity == Binary && p.fixity == Binary
    ensures RunFrom(Init, [ValueToken(a), OperatorToken(p), ValueToken(b)] + Seps(k), defOp) ==
              Ok(State([Scope(OperatorHead(p), [ValueNode(a)], Inf), Scope(ValueHead(b), [], Fin(0))], Fin(k), false))
  {
    var va, tp, vb := ValueToken(a), OperatorToken(p), ValueToken(b);
    var sa := Scope(ValueHead(a), [], Inf);
    var sp := Scope(OperatorHead(p), [ValueNode(a)], Inf);
    var sb := Scope(ValueHead(b), [], Fin(0));
    var s1 := State([sa], Fin(0), false);
    var s2 := State([sp], Fin(0), true);
    var s3 := State([sp, sb], Fin(0), false);
    assert Step(Init, va, defOp) == Ok(s1) by {
      assert [] + [sa] == [sa];
    }
    assert Step(s1, tp, defOp) == Ok(s2) by {
      assert PopIndex(s1.stack, 0, Fin(0), p.priority) == 0;
      assert s1.stack[0..] == [sa];
      RootOfLeaf(sa);
      assert s1.stack[..0] + [sp] == [sp];
    }
    assert Step(s2, vb, defOp) == Ok(s3) by {
      assert [sp] + [sb] == [sp, sb];
    }
    var pre := [va, tp, vb];
    assert RunFrom(Init, pre, defOp) == Ok(s3) by {
      Extend([], va, Init, s1, defOp);
      assert [] + [va] == [va];
      Extend([va], tp, s1, s2, defOp);
      assert [va] + [tp] == [va, tp];
      Extend([va, tp], vb, s2, s3, defOp);
      assert [va, tp] + [vb] == pre;
    }
    RunFromAppend(Init, pre, Seps(k), defOp);
    RunSeparators(s3, k, defOp);
  }

  /** `a p b` makes `p`'s node with `a` and `b` as its children. */
  lemma {:induction false} SingleBinaryOperator(a: string, p: Operator, b: string, defOp: Operator)
    requires defOp.fixity == Binary && p.fixity == Binary
    ensures ParseTokens([ValueToken(a), OperatorToken(p), ValueToken(b)], defOp) ==
              Ok(OperatorNode(p, [ValueNode(a), ValueNode(b)]))
  {
    var ts := [ValueToken(a), OperatorToken(p), ValueToken(b)];
    var sp := Scope(OperatorHead(p), [ValueNode(a)], Inf);
    var sb := Scope(ValueHead(b), [], Fin(0));
    OneBinaryOperator(a, p, b, 0, defOp);
    assert ts + Seps(0) == ts;
    Finish(ts, State([sp, sb], Fin(0), false), defOp);
    RootOfPair(sp, sb);
    assert [ValueNode(a)] + [ValueNode(b)] == [ValueNode(a), ValueNode(b)];
  }

  /** `a p b` with `k` separators before `q c`: with no separator, the operator of higher or
      equal priority groups first (left associative at equal priority); any separator before
      `q` makes it the looser one, whatever the priorities. */
  lemma {:induction false} TwoBinaryOperators(a: string, p: Operator, b: string, k: nat, q: Operator,
                                              c: string, defOp: Operator)
    requires defOp.fixity == Binary && p.fixity == Binary && q.fixity == Binary
    ensures ParseTokens([ValueToken(a), OperatorToken(p), ValueToken(b)] + Seps(k)
                        + [OperatorToken(q), ValueToken(c)], defOp) ==
              if k > 0 || p.priority >= q.priority
              then Ok(OperatorNode(q, [OperatorNode(p, [ValueNode(a), ValueNode(b)]), ValueNode(c)]))
              else Ok(OperatorNode(p, [ValueNode(a), OperatorNode(q, [ValueNode(b), ValueNode(c)])]))
  {
    if k > 0 || p.priority >= q.priority {
      GroupsLeft(a, p, b, k, q, c, defOp);
    } else {
      GroupsRight(a, p, b, k, q, c, defOp);
    }
  }

  lemma {:induction false} GroupsLeft(a: string, p: Operator, b: string, k: nat, q: Operator,
                                      c: string, defOp: Operator)
    requires defOp.fixity == Binary && p.fixity == Binary && q.fixity == Binary
    requires k > 0 || p.priority >= q.priority
    ensures ParseTokens([ValueToken(a), OperatorToken(p), ValueToken(b)] + Seps(k)
                        + [OperatorToken(q), ValueToken(c)], defOp) ==
              Ok(OperatorNode(q, [OperatorNode(p, [ValueNode(a), ValueNode(b)]), ValueNode(c)]))
  {
    var va, tp, vb, tq, vc := ValueToken(a), OperatorToken(p), ValueToken(b), OperatorToken(q), ValueToken(c);
    var sp := Scope(OperatorHead(p), [ValueNode(a)], Inf);
    var sb := Scope(ValueHead(b), [], Fin(0));
    var sc := Scope(ValueHead(c), [], Fin(0));
    var s4 := State([sp, sb], Fin(k), false);
    var pre := [va, tp, vb];
    var ab := OperatorNode(p, [ValueNode(a), ValueNode(b)]);
    var ts := pre + Seps(k) + [tq, vc];
    assert ParseTokens(ts, defOp) == Ok(OperatorNode(q, [ab, ValueNode(c)])) by {
      var sq := Scope(OperatorHead(q), [ab], Inf);
      var s5, s6 := State([sq], Fin(0), true), State([sq, sc], Fin(0), false);
      assert Step(s4, tq, defOp) == Ok(s5) by {
        assert PopIndex(s4.stack, 1, Fin(k), q.priority) == 0;
        assert s4.stack[0..] == [sp, sb];
        RootOfPair(sp, sb);
        assert [ValueNode(a)] + [ValueNode(b)] == [ValueNode(a), ValueNode(b)];
        assert s4.stack[..0] + [sq] == [sq];
      }
      assert Step(s5, vc, defOp) == Ok(s6) by {
        assert [sq] + [sc] == [sq, sc];
      }
      assert Root(s6.stack) == OperatorNode(q, [ab, ValueNode(c)]) by {
        RootOfPair(sq, sc);
        assert [ab] + [ValueNode(c)] == [ab, ValueNode(c)];
      }
      OneBinaryOperator(a, p, b, k, defOp);
      FinishTwo(pre + Seps(k), tq, vc, s4, s5, s6, defOp);
    }
  }

  lemma {:induction false} GroupsRight(a: string, p: Operator, b: string, k: nat, q: Operator,
                                       c: string, defOp: Operator)
    requires defOp.fixity == Binary && p.fixity == Binary && q.fixity == Binary
    requires k == 0 && p.priority < q.priority
    ensures ParseTokens([ValueToken(a), OperatorToken(p), ValueToken(b)] + Seps(k)
                        + [OperatorToken(q), ValueToken(c)], defOp) ==
              Ok(OperatorNode(p, [ValueNode(a), OperatorNode(q, [ValueNode(b), ValueNode(c)])]))
  {
    var va, tp, vb, tq, vc := ValueToken(a), OperatorToken(p), ValueToken(b), OperatorToken(q), ValueToken(c);
    var sp := Scope(OperatorHead(p), [ValueNode(a)], Inf);
    var sb := Scope(ValueHead(b), [], Fin(0));
    var sc := Scope(ValueHead(c), [], Fin(0));
    var s4 := State([sp, sb], Fin(k), false);
    var pre := [va, tp, vb];
    var bc := OperatorNode(q, [ValueNode(b), ValueNode(c)]);
    var ts := pre + Seps(k) + [tq, vc];
    assert ParseTokens(ts, defOp) == Ok(OperatorNode(p, [ValueNode(a), bc])) by {
      var sq := Scope(OperatorHead(q), [ValueNode(b)], Fin(0));
      var s5, s6 := State([sp, sq], Fin(0), true), State([sp, sq, sc], Fin(0), false);
      assert Step(s4, tq, defOp) == Ok(s5) by {
        assert PopIndex(s4.stack, 1, Fin(k), q.priority) == 1;
        assert s4.stack[1..] == [sb];
        RootOfLeaf(sb);
        assert s4.stack[..1] + [sq] == [sp, sq];
      }
      assert Step(s5, vc, defOp) == Ok(s6) by {
        assert [sp, sq] + [sc] == [sp, sq, sc];
      }
      assert Root(s6.stack) == OperatorNode(p, [ValueNode(a), bc]) by {
        assert [sp, sq, sc][1..] == [sq, sc];
        RootOfPair(sq, sc);
        assert [ValueNode(b)] + [ValueNode(c)] == [ValueNode(b), ValueNode(c)];
        assert [ValueNode(a)] + [bc] == [ValueNode(a), bc];
      }
      OneBinaryOperator(a, p, b, k, defOp);
      FinishTwo(pre + Seps(k), tq, vc, s4, s5, s6, defOp);
    }
  }

  lemma {:induction false} FinishTwo(pre: seq<Token>, t1: Token, t2: Token, s0: State, s1: State, s2: State,
                                     defOp: Operator)
    requires defOp.fixity == Binary && RunFrom(Init, pre, defOp) == Ok(s0)
    requires Step(s0, t1, defOp) == Ok(s1) && Step(s1, t2, defOp) == Ok(s2) && !s2.awaitingVal
    ensures s2.stack != [] && ParseTokens(pre + [t1, t2], defOp) == Ok(Root(s2.stack))
  {
    Extend(pre, t1, s0, s1, defOp);
    Extend(pre + [t1], t2, s1, s2, defOp);
    assert pre + [t1] + [t2] == pre + [t1, t2];
    Finish(pre + [t1, t2], s2, defOp);
  }

  /** `p a q` with `p` prefix and `q` postfix: the postfix operator reaches past the prefix
      one only if the prefix operator's priority is at least its own. */
  lemma {:induction false} PrefixThenPostfix(p: Operator, a: string, q: Operator, defOp: Operator)
    requires defOp.fixity == Binary && p.fixity == Prefix && q.fixity == Postfix
    ensures ParseTokens([OperatorToken(p), ValueToken(a), OperatorToken(q)], defOp) ==
              if p.priority >= q.priority
              then Ok(OperatorNode(q, [OperatorNode(p, [ValueNode(a)])]))
              else Ok(OperatorNode(p, [OperatorNode(q, [ValueNode(a)])]))
  {
    if p.priority >= q.priority {
      PostfixOutside(p, a, q, defOp);
    } else {
      PostfixInside(p, a, q, defOp);
    }
  }

  /** The state after a prefix operator and a value: the operator's scope, with the value's
      scope above it. */
  lemma {:induction false} PrefixOperand(p: Operator, a: string, defOp: Operator)
    requires defOp.fixity == Binary && p.fixity == Prefix
    ensures RunFrom(Init, [OperatorToken(p), ValueToken(a)], defOp) ==
              Ok(State([Scope(OperatorHead(p), [], Inf), Scope(ValueHead(a), [], Fin(0))], Fin(0), false))
  {
    InitValid();
    var tp, va := OperatorToken(p), ValueToken(a);
    var sp := Scope(OperatorHead(p), [], Inf);
    var sa := Scope(ValueHead(a), [], Fin(0));
    var s1 := State([sp], Fin(0), true);
    var s2 := State([sp, sa], Fin(0), false);
    assert RunFrom(Init, [tp], defOp) == Ok(s1) by {
      assert Step(Init, tp, defOp) == Ok(s1) by {
        assert [] + [sp] == [sp];
      }
      Extend([], tp, Init, s1, defOp);
      assert [] + [tp] == [tp];
    }
    assert Step(s1, va, defOp) == Ok(s2) by {
      assert [sp] + [sa] == [sp, sa];
    }
    Extend([tp], va, s1, s2, defOp);
    assert [tp] + [va] == [tp, va];
  }

  lemma {:induction false} FinishOne(pre: seq<Token>, t: Token, s0: State, s1: State, defOp: Operator)
    requires defOp.fixity == Binary && RunFrom(Init, pre, defOp) == Ok(s0)
    requires Step(s0, t, defOp) == Ok(s1) && !s1.awaitingVal
    ensures s1.stack != [] && ParseTokens(pre + [t], defOp) == Ok(Root(s1.stack))
  {
    Extend(pre, t, s0, s1, defOp);
    Finish(pre + [t], s1, defOp);
  }

  lemma {:induction false} PostfixOutside(p: Operator, a: string, q: Operator, defOp: Operator)
    requires defOp.fixity == Binary && p.fixity == Prefix && q.fixity == Postfix
    requires p.priority >= q.priority
    ensures ParseTokens([OperatorToken(p), ValueToken(a), OperatorToken(q)], defOp) ==
              Ok(OperatorNode(q, [OperatorNode(p, [ValueNode(a)])]))
  {
    var tp, va, tq := OperatorToken(p), ValueToken(a), OperatorToken(q);
    var sp := Scope(OperatorHead(p), [], Inf);
    var sa := Scope(ValueHead(a), [], Fin(0));
    var s2 := State([sp, sa], Fin(0), false);
    var pa := OperatorNode(p, [ValueNode(a)]);
    var sq := Scope(OperatorHead(q), [pa], Inf);
    var s3 := State([sq], Fin(0), false);
    assert Step(s2, tq, defOp) == Ok(s3) by {
      assert PopIndex(s2.stack, 1, Fin(0), q.priority) == 0;
      assert s2.stack[0..] == [sp, sa];
      RootOfPair(sp, sa);
      assert [] + [ValueNode(a)] == [ValueNode(a)];
      assert s2.stack[..0] + [sq] == [sq];
    }
    assert Root(s3.stack) == OperatorNode(q, [pa]) by {
      assert [sq][1..] == [];
      assert [pa] + [] == [pa];
    }
    PrefixOperand(p, a, defOp);
    FinishOne([tp, va], tq, s2, s3, defOp);
    assert [tp, va] + [tq] == [tp, va, tq];
  }

  lemma {:induction false} PostfixInside(p: Operator, a: string, q: Operator, defOp: Operator)
    requires defOp.fixity == Binary && p.fixity == Prefix && q.fixity == Postfix
    requires p.priority < q.priority
    ensures ParseTokens([OperatorToken(p), ValueToken(a), OperatorToken(q)], defOp) ==
              Ok(OperatorNode(p, [OperatorNode(q, [ValueNode(a)])]))
  {
    var tp, va, tq := OperatorToken(p), ValueToken(a), OperatorToken(q);
    var sp := Scope(OperatorHead(p), [], Inf);
    var sa := Scope(ValueHead(a), [], Fin(0));
    var s2 := State([sp, sa], Fin(0), false);
    var qa := OperatorNode(q, [ValueNode(a)]);
    var sq := Scope(OperatorHead(q), [ValueNode(a)], Fin(0));
    var s3 := State([sp, sq], Fin(0), false);
    assert Step(s2, tq, defOp) == Ok(s3) by {
      assert PopIndex(s2.stack, 1, Fin(0), q.priority) == 1;
      assert s2.stack[1..] == [sa];
      RootOfLeaf(sa);
      assert s2.stack[..1] + [sq] == [sp, sq];
    }
    assert Root(s3.stack) == OperatorNode(p, [qa]) by {
      RootOfPair(sp, sq);
      assert [ValueNode(a)] + [] == [ValueNode(a)];
      assert [] + [qa] == [qa];
    }
    PrefixOperand(p, a, defOp);
    FinishOne([tp, va], tq, s2, s3, defOp);
    assert [tp, va] + [tq] == [tp, va, tq];
  }
}
