/** `Parser.parse` as the program runs it: a loop over the tokens that updates the variables
    shared with `addOmittedOprIfNeeded`, `addVal` and `addOpr`, with the scope-popping loop of
    `addOpr` written out. Each method is proved to compute what the functions of `ParseSteps`
    say, so everything proved about those functions holds of this code. */
module Parsing {
  import opened Tree
  import opened Scopes
  import ParseSteps

  /** The variables one call of `parse` shares with its inner functions: the scope stack, the
      separator counter and the awaited-value flag (`curr` is the top of the stack). */
  class ParseRun {
    const defOp: Operator
    var stack: seq<Scope>
    var looseness: Looseness
    var awaitingVal: bool

    function State(): ParseSteps.State
      reads this
    {
      ParseSteps.State(stack, looseness, awaitingVal)
    }

    /** Empty stack, counter at Infinity, a value awaited. */
    constructor(defOp: Operator)
      ensures this.defOp == defOp && State() == ParseSteps.Init
    {
      this.defOp := defOp;
      stack := [];
      looseness := Inf;
      awaitingVal := true;
    }

    /** Processes the default operator when no value is awaited, then restores the counter. */
    method AddOmittedOprIfNeeded()
      requires ParseSteps.Valid(State()) && defOp.fixity == Binary
      modifies this
      ensures State() == ParseSteps.AddOmittedOprIfNeeded(old(State()), defOp)
      decreases 1
    {
      if awaitingVal {
        return;
      }
      var saved := looseness;
      var _ := AddOpr(defOp);
      looseness := saved;
    }

    /** Appends a value leaf to the top scope's node and pushes its scope. */
    method AddVal(v: string)
      requires ParseSteps.Valid(State()) && defOp.fixity == Binary
      modifies this
      ensures State() == ParseSteps.AddVal(old(State()), v, defOp)
    {
      AddOmittedOprIfNeeded();
      stack := stack + [Scope(ValueHead(v), [], looseness)];
      looseness := Fin(0);
      awaitingVal := false;
    }

    /** Adds an operator; returns the error `addOpr` throws, in which case nothing changed. */
    method AddOpr(op: Operator) returns (err: Option<ParseSteps.ParseError>)
      requires ParseSteps.Valid(State()) && defOp.fixity == Binary
      modifies this
      ensures var r := ParseSteps.AddOpr(old(State()), op, defOp);
              if r.Ok? then err == None && State() == r.value
              else err == Some(r.error) && State() == old(State())
      decreases if op.fixity == Prefix then 2 else 0
    {
      ghost var st := State();
      if op.fixity == Prefix {
        AddOmittedOprIfNeeded();
        stack := stack + [Scope(OperatorHead(op), [], looseness)];
        looseness := Fin(0);
        awaitingVal := true;
        return None;
      }
      if awaitingVal {
        return Some(ParseSteps.UnexpectedOperator(op));
      }
      Subsume(op);
      ParseSteps.SubsumedStack(st, op, defOp, ParseSteps.PopIndex(st.stack, |st.stack| - 1, st.looseness, op.priority));
      looseness := Fin(0);
      awaitingVal := op.fixity != Postfix;
      return None;
    }

    /** The binary and postfix branch once a value is no longer awaited: pops the scopes the
        new operator binds looser than, makes their node its first child, and pushes it in
        their place. The counter and the flag are left to the caller. */
    method Subsume(op: Operator)
      requires ParseSteps.Valid(State()) && defOp.fixity == Binary
      requires op.fixity != Prefix && !awaitingVal
      modifies this
      ensures looseness == old(looseness) && awaitingVal == old(awaitingVal)
      ensures var j := ParseSteps.PopIndex(old(stack), |old(stack)| - 1, looseness, op.priority);
              stack == old(stack)[..j] + [Scope(OperatorHead(op), [Root(old(stack)[j..])], old(stack)[j].looseness)]
    {
      var k, leftNode := PopScopes(stack, looseness, op.priority);
      // `lastChild = oprNode` on the scope below and `appendChild(leftScope.node)`: in the
      // stack the new scope takes the popped scopes' place and holds their node.
      stack := stack[..k] + [Scope(OperatorHead(op), [leftNode], stack[k].looseness)];
    }
  }

  /** The do-while loop of `addOpr`: pop once, then keep popping while the popped scope is
      looser-bound than the counter, or as loose with an operator of at least `priority`
      below it. Returns the index of `leftScope`, the last scope popped, and its node; the
      pops work on a copy of the stack. */
  method PopScopes(stack: seq<Scope>, looseness: Looseness, priority: int) returns (k: nat, leftNode: Node)
    requires stack != [] && stack[0].looseness.Inf? && looseness.Fin?
    requires forall i :: 0 <= i < |stack| - 1 ==> stack[i].head.OperatorHead?
    ensures k == ParseSteps.PopIndex(stack, |stack| - 1, looseness, priority)
    ensures leftNode == Root(stack[k..])
  {
    k := |stack| - 1;
    var leftScope := stack[k];
    leftNode := NodeOf(leftScope, []);
    var rest := stack[..k];
    assert leftNode == Root(stack[k..]) by {
      assert stack[k..] == [leftScope];
      assert [leftScope][1..] == [];
    }
    ghost var j := ParseSteps.PopIndex(stack, k, looseness, priority);
    while || Below(leftScope.looseness, looseness)
          || (leftScope.looseness == looseness && rest[|rest| - 1].head.op.priority >= priority)
      invariant 0 <= k < |stack| && rest == stack[..k] && leftScope == stack[k]
      invariant leftNode == Root(stack[k..])
      invariant j <= k
      decreases k
    {
      assert ParseSteps.PopCond(stack, k, looseness, priority);
      PopStep(stack, looseness, priority, j, k);
      k := k - 1;
      leftScope := rest[k];
      leftNode := NodeOf(leftScope, [leftNode]);
      rest := rest[..k];
    }
    assert !ParseSteps.PopCond(stack, k, looseness, priority);
    PopStop(stack, looseness, priority, j, k);
  }

  /** One more turn of the pop loop: it never pops the bottom scope nor the scope at which
      the loop stops, and the scope it reaches has the node popped so far as its last child. */
  lemma PopStep(stack: seq<Scope>, looseness: Looseness, priority: int, j: nat, k: nat)
    requires k < |stack| && stack[0].looseness.Inf? && looseness.Fin?
    requires forall i :: 0 <= i < |stack| - 1 ==> stack[i].head.OperatorHead?
    requires j == ParseSteps.PopIndex(stack, |stack| - 1, looseness, priority) && j <= k
    requires ParseSteps.PopCond(stack, k, looseness, priority)
    ensures 0 < k && j < k
    ensures stack[..k][..k - 1] == stack[..k - 1] && stack[..k][k - 1] == stack[k - 1]
    ensures Root(stack[k - 1..]) == NodeOf(stack[k - 1], [Root(stack[k..])])
  {
    assert stack[k - 1..][1..] == stack[k..];
  }

  /** Where the pop loop stops is the index `PopIndex` names. */
  lemma PopStop(stack: seq<Scope>, looseness: Looseness, priority: int, j: nat, k: nat)
    requires k < |stack| && stack[0].looseness.Inf? && looseness.Fin?
    requires forall i :: 0 <= i < |stack| - 1 ==> stack[i].head.OperatorHead?
    requires j == ParseSteps.PopIndex(stack, |stack| - 1, looseness, priority) && j <= k
    requires !ParseSteps.PopCond(stack, k, looseness, priority)
    ensures k == j
  {
  }

  class Parser {
    const defOp: Operator

    constructor(defOp: Operator)
      ensures this.defOp == defOp
    {
      this.defOp := defOp;
    }

    /** Reads the tokens in order (a separator bumps the counter), fails if a value is still
        awaited at the end, and returns the bottom scope's node. */
    method Parse(tokens: seq<ParseSteps.Token>) returns (r: ParseSteps.Result<Node>)
      requires defOp.fixity == Binary
      ensures r == ParseSteps.ParseTokens(tokens, defOp)
    {
      var run := new ParseRun(defOp);
      ParseSteps.InitValid();
      for i := 0 to |tokens|
        invariant run.defOp == defOp
        invariant ParseSteps.RunFrom(ParseSteps.Init, tokens[..i], defOp) == ParseSteps.Ok(run.State())
      {
        ghost var st := run.State();
        assert ParseSteps.RunFrom(ParseSteps.Init, tokens[..i + 1], defOp) == ParseSteps.Step(st, tokens[i], defOp) by {
          PrefixOfPrefix(tokens, i);
        }
        match tokens[i]
        case Separator =>
          run.looseness := Succ(run.looseness);
        case OperatorToken(op) =>
          var err := run.AddOpr(op);
          if err.Some? {
            assert ParseSteps.RunFrom(ParseSteps.Init, tokens, defOp) == ParseSteps.Err(err.value) by {
              ParseSteps.RunFromAppend(ParseSteps.Init, tokens[..i + 1], tokens[i + 1..], defOp);
              SplitAt(tokens, i + 1);
            }
            return ParseSteps.Err(err.value);
          }
        case ValueToken(v) =>
          run.AddVal(v);
      }
      assert tokens[..|tokens|] == tokens;
      if run.awaitingVal {
        return ParseSteps.Err(ParseSteps.UnexpectedEof);
      }
      return ParseSteps.Ok(Root(run.stack));
    }
  }

  lemma SplitAt<T>(s: seq<T>, i: nat)
    requires i <= |s|
    ensures s[..i] + s[i..] == s
  {
  }

  lemma PrefixOfPrefix<T>(s: seq<T>, i: nat)
    requires i < |s|
    ensures s[..i + 1][..i] == s[..i]
  {
  }
}
