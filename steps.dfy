/** The parser's token-by-token behaviour as functions on its state: the specification the
    imperative `Parser.Parse` is proved against, and the object of the properties proved in
    `ParseProperties` and `Reference`. */
module ParseSteps {
  import opened Tree
  import opened Scopes

  /** A token as the tokenizer classifies it: a separator (`null`), an operator, or a value. */
  datatype Token = Separator | OperatorToken(op: Operator) | ValueToken(value: string)

  /** The two failures `parse` can throw. */
  datatype ParseError =
    | UnexpectedOperator(op: Operator)  // a binary or postfix operator while a value is awaited
    | UnexpectedEof                     // input ends while a value is awaited

  datatype Result<T> = Ok(value: T) | Err(error: ParseError)

  /** The variables `parse` keeps across tokens. `curr` is not a separate component: it is the
      top of the stack whenever the stack is non-empty, and null before the first push. */
  datatype State = State(stack: seq<Scope>, looseness: Looseness, awaitingVal: bool)

  /** Empty stack, counter at Infinity, a value awaited. */
  const Init: State := State([], Inf, true)

  /** The invariants `parse` keeps between tokens:
      - before the first value or operator the stack is empty, the counter is Infinity and a
        value is awaited;
      - afterwards the bottom scope's looseness is Infinity, every other scope's is finite,
        and so is the counter;
      - every scope below the top is open (a binary or prefix operator node whose last slot is
        the node of the scope above), the top is open or complete, and a value is awaited
        exactly when the top is open. */
  predicate Valid(st: State)
  {
    && ChainShaped(st.stack)
    && (forall i :: 0 < i < |st.stack| ==> st.stack[i].looseness.Fin?)
    && if st.stack == [] then st.awaitingVal && st.looseness.Inf?
       else
         && st.stack[0].looseness.Inf?
         && st.looseness.Fin?
         && (Open(Top(st.stack)) || Complete(Top(st.stack)))
         && (st.awaitingVal <==> Open(Top(st.stack)))
  }

  lemma InitValid()
    ensures Valid(Init)
  {
  }

  // ---------------------------------------------------------------------------------------
  // The pop loop

  /** The do-while condition, evaluated just after scope `k` was popped (the stack is then
      `stack[..k]`): the popped scope is looser-bound than the counter, or as loose and the
      operator now on top has at least the new operator's priority. The requires clauses are
      what keep `stack.at(-1).node.value.priority` from being read on an empty stack or on a
      value node. */
  predicate PopCond(stack: seq<Scope>, k: nat, counter: Looseness, priority: int): (r: bool)
    requires k < |stack| && counter.Fin? && stack[0].looseness.Inf?
    requires forall i :: 0 <= i < k ==> stack[i].head.OperatorHead?
    ensures r ==> k > 0
    ensures Below(stack[k].looseness, counter) ==> r
    ensures Below(counter, stack[k].looseness) ==> !r
  {
    || Below(stack[k].looseness, counter)
    || (stack[k].looseness == counter && stack[k - 1].head.op.priority >= priority)
  }

  /** The index of `leftScope`, the last scope the loop pops when it starts at scope `k`. At
      least scope `k` is popped; the bottom scope, of infinite looseness, stops the loop. */
  function PopIndex(stack: seq<Scope>, k: nat, counter: Looseness, priority: int): (j: nat)
    requires k < |stack| && counter.Fin? && stack[0].looseness.Inf?
    requires forall i :: 0 <= i < k ==> stack[i].head.OperatorHead?
    ensures j <= k
    ensures !PopCond(stack, j, counter, priority)
    ensures forall i :: j < i <= k ==> PopCond(stack, i, counter, priority)
    decreases k
  {
    if PopCond(stack, k, counter, priority) then PopIndex(stack, k - 1, counter, priority) else k
  }

  // ---------------------------------------------------------------------------------------
  // addOmittedOprIfNeeded, addVal, addOpr

  /** When a value or prefix operator arrives and no value is awaited, the default operator is
      processed first, and the counter is restored to what it was before. */
  function AddOmittedOprIfNeeded(st: State, defOp: Operator): (r: State)
    requires Valid(st) && defOp.fixity == Binary
    ensures Valid(r) && r.awaitingVal && r.looseness == st.looseness
    ensures st.awaitingVal ==> r == st
    decreases 1
  {
    if st.awaitingVal then st
    else
      var s := AddOpr(st, defOp, defOp).value;
      s.(looseness := st.looseness)
  }

  /** A value leaf becomes the next child of the top scope's node and is pushed as the new top,
      with the counter as its looseness. */
  function AddVal(st: State, v: string, defOp: Operator): (r: State)
    requires Valid(st) && defOp.fixity == Binary
    ensures Valid(r) && !r.awaitingVal && r.looseness == Fin(0)
    ensures |r.stack| > 0 && Top(r.stack) == Scope(ValueHead(v), [], AddOmittedOprIfNeeded(st, defOp).looseness)
  {
    var s := AddOmittedOprIfNeeded(st, defOp);
    State(s.stack + [Scope(ValueHead(v), [], s.looseness)], Fin(0), false)
  }

  /** A prefix operator is handled like a value but leaves a value awaited. A binary or
      postfix operator fails if a value is awaited; otherwise it pops scopes, subsumes the node
      of the last popped scope as its first child, takes that scope's place (and looseness),
      and is pushed; afterwards a value is awaited unless the operator is postfix. */
  function AddOpr(st: State, op: Operator, defOp: Operator): (r: Result<State>)
    requires Valid(st) && defOp.fixity == Binary
    ensures r.Ok? <==> op.fixity == Prefix || !st.awaitingVal
    ensures r.Err? ==> r.error == UnexpectedOperator(op)
    ensures r.Ok? ==> Valid(r.value) && r.value.looseness == Fin(0)
    ensures r.Ok? ==> r.value.awaitingVal == (op.fixity != Postfix)
    decreases if op.fixity == Prefix then 2 else 0
  {
    if op.fixity == Prefix then
      var s := AddOmittedOprIfNeeded(st, defOp);
      Ok(State(s.stack + [Scope(OperatorHead(op), [], s.looseness)], Fin(0), true))
    else if st.awaitingVal then
      Err(UnexpectedOperator(op))
    else
      var j := PopIndex(st.stack, |st.stack| - 1, st.looseness, op.priority);
      var left := st.stack[j..];
      ChainSuffix(st.stack, j);
      RootWellFormed(left);
      Ok(State(st.stack[..j] + [Scope(OperatorHead(op), [Root(left)], st.stack[j].looseness)],
               Fin(0), op.fixity != Postfix))
  }

  /** The binary and postfix branch, unfolded: the scopes from `j` up are replaced by one
      scope of the operator holding their node. */
  lemma SubsumedStack(st: State, op: Operator, defOp: Operator, j: nat)
    requires Valid(st) && defOp.fixity == Binary && op.fixity != Prefix && !st.awaitingVal
    requires j == PopIndex(st.stack, |st.stack| - 1, st.looseness, op.priority)
    ensures AddOpr(st, op, defOp) ==
              Ok(State(st.stack[..j] + [Scope(OperatorHead(op), [Root(st.stack[j..])], st.stack[j].looseness)],
                       Fin(0), op.fixity != Postfix))
  {
  }

  /** The scopes from `j` upwards keep the stack's shape. */
  lemma ChainSuffix(stack: seq<Scope>, j: nat)
    requires j < |stack| && ChainShaped(stack)
    ensures ChainShaped(stack[j..]) && Top(stack[j..]) == Top(stack)
  {
    var rest := stack[j..];
    forall i, c | 0 <= i < |rest| && c in rest[i].settled ensures WellFormed(c) {
      assert rest[i] == stack[j + i];
    }
  }

  // ---------------------------------------------------------------------------------------
  // The token loop

  /** One iteration of the token loop: a separator bumps the counter and changes nothing else;
      only a binary or postfix operator arriving while a value is awaited fails. */
  function Step(st: State, t: Token, defOp: Operator): (r: Result<State>)
    requires Valid(st) && defOp.fixity == Binary
    ensures r.Err? <==> t.OperatorToken? && t.op.fixity != Prefix && st.awaitingVal
    ensures r.Ok? ==> Valid(r.value)
    ensures r.Ok? && t.Separator? ==> r.value == st.(looseness := Succ(st.looseness))
    ensures r.Ok? && !t.Separator? ==> r.value.looseness == Fin(0)
  {
    match t
    case Separator => Ok(st.(looseness := Succ(st.looseness)))
    case OperatorToken(op) => AddOpr(st, op, defOp)
    case ValueToken(v) => Ok(AddVal(st, v, defOp))
  }

  /** The token loop from state `st`; the first failure ends it. */
  function RunFrom(st: State, ts: seq<Token>, defOp: Operator): (r: Result<State>)
    requires Valid(st) && defOp.fixity == Binary
    ensures r.Ok? ==> Valid(r.value)
    decreases |ts|
  {
    if ts == [] then Ok(st)
    else
      match RunFrom(st, ts[..|ts| - 1], defOp)
      case Err(e) => Err(e)
      case Ok(s) => Step(s, ts[|ts| - 1], defOp)
  }

  /** `parse`: run the token loop from the initial state, fail if a value is still awaited,
      else return the bottom scope's node. A successful result is well-formed: every binary
      node has two children and every prefix or postfix node one. */
  function ParseTokens(ts: seq<Token>, defOp: Operator): (r: Result<Node>)
    requires defOp.fixity == Binary
    ensures r.Ok? ==> WellFormed(r.value)
  {
    InitValid();
    match RunFrom(Init, ts, defOp)
    case Err(e) => Err(e)
    case Ok(s) =>
      if s.awaitingVal then Err(UnexpectedEof)
      else
        RootWellFormed(s.stack);
        Ok(Root(s.stack))
  }

  // ---------------------------------------------------------------------------------------
  // Running in pieces

  lemma {:induction false} RunFromAppend(st: State, a: seq<Token>, b: seq<Token>, defOp: Operator)
    requires Valid(st) && defOp.fixity == Binary
    ensures RunFrom(st, a + b, defOp) ==
              match RunFrom(st, a, defOp)
              case Err(e) => Err(e)
              case Ok(s) => RunFrom(s, b, defOp)
    decreases |b|
  {
    if b == [] {
      assert a + b == a;
    } else {
      var ab := a + b;
      var b' := b[..|b| - 1];
      assert ab[..|ab| - 1] == a + b';
      assert ab[|ab| - 1] == b[|b| - 1];
      RunFromAppend(st, a, b', defOp);
    }
  }

  lemma RunFromSingle(st: State, t: Token, defOp: Operator)
    requires Valid(st) && defOp.fixity == Binary
    ensures RunFrom(st, [t], defOp) == Step(st, t, defOp)
  {
    assert [t][..0] == [];
  }
}
