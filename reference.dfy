/** An independent account of what `parse` accepts and of what its tree contains.

    `Scan` reads the tokens with nothing but the awaited-value flag: it knows which tokens are
    errors and where the default operator goes, but nothing about scopes, looseness or
    priority. `ParseMatchesReference` proves that `parse` fails exactly when and how `Scan`
    says, and that a tree it returns reads, in order, as exactly the non-separator tokens with
    the inserted default operators: no node is lost, duplicated or reordered, and separators
    create none. */
module Reference {
  import opened Tree
  import opened Scopes
  import opened ParseSteps

  /** What `Scan` has read so far: the items a tree over them would read as, whether a value
      is awaited, and how many default operators were inserted. */
  datatype Scanned = Scanned(items: seq<Item>, awaiting: bool, inserted: nat)

  /** The default operator, when a value or prefix operator follows a complete expression. */
  function Omitted(awaiting: bool, defOp: Operator): seq<Item>
  {
    if awaiting then [] else [OperatorItem(defOp)]
  }

  function Scan(ts: seq<Token>, defOp: Operator): Result<Scanned>
    decreases |ts|
  {
    if ts == [] then Ok(Scanned([], true, 0))
    else
      match Scan(ts[..|ts| - 1], defOp)
      case Err(e) => Err(e)
      case Ok(sc) =>
        var pre := Omitted(sc.awaiting, defOp);
        match ts[|ts| - 1]
        case Separator => Ok(sc)
        case ValueToken(v) => Ok(Scanned(sc.items + pre + [ValueItem(v)], false, sc.inserted + |pre|))
        case OperatorToken(op) =>
          if op.fixity == Prefix then
            Ok(Scanned(sc.items + pre + [OperatorItem(op)], true, sc.inserted + |pre|))
          else if sc.awaiting then
            Err(UnexpectedOperator(op))
          else
            Ok(Scanned(sc.items + [OperatorItem(op)], op.fixity == Binary, sc.inserted))
  }

  /** The outcome `parse` should have: the first misplaced binary or postfix operator, else a
      failure if a value is still awaited at the end, else the in-order reading of the tree. */
  function Expected(ts: seq<Token>, defOp: Operator): Result<seq<Item>>
  {
    match Scan(ts, defOp)
    case Err(e) => Err(e)
    case Ok(sc) => if sc.awaiting then Err(UnexpectedEof) else Ok(sc.items)
  }

  function NonSeparators(ts: seq<Token>): nat
  {
    if ts == [] then 0 else NonSeparators(ts[..|ts| - 1]) + (if ts[|ts| - 1].Separator? then 0 else 1)
  }

  function Unseparated(ts: seq<Token>): (r: seq<Token>)
    ensures forall i :: 0 <= i < |r| ==> !r[i].Separator?
  {
    if ts == [] then []
    else Unseparated(ts[..|ts| - 1]) + (if ts[|ts| - 1].Separator? then [] else [ts[|ts| - 1]])
  }

  // ---------------------------------------------------------------------------------------
  // One step at a time

  /** Pushing a scope adds its node's own reading at the end. */
  lemma PushYield(stack: seq<Scope>, s: Scope)
    ensures StackYield(stack + [s]) == StackYield(stack) + Yield(NodeOf(s, []))
  {
    StackYieldAppend(stack, [s]);
    assert StackYield([s]) == Yield(NodeOf(s, [])) + StackYield([]);
  }

  /** The binary or postfix branch: the stack's reading gains the operator at its end. */
  lemma SubsumeYield(st: State, op: Operator, defOp: Operator)
    requires Valid(st) && defOp.fixity == Binary && op.fixity != Prefix && !st.awaitingVal
    ensures StackYield(AddOpr(st, op, defOp).value.stack) == StackYield(st.stack) + [OperatorItem(op)]
  {
    var j := PopIndex(st.stack, |st.stack| - 1, st.looseness, op.priority);
    var below, left := st.stack[..j], st.stack[j..];
    assert below + left == st.stack;
    assert StackYield(AddOpr(st, op, defOp).value.stack) == StackYield(below + left) + [OperatorItem(op)] by {
      SubsumedStack(st, op, defOp, j);
      ChainSuffix(st.stack, j);
      GainOperator(below, left, op, st.stack[j].looseness);
    }
  }

  /** Replacing the scopes `left` by one scope of a binary or postfix operator over their node
      adds the operator at the end of the reading. */
  lemma GainOperator(below: seq<Scope>, left: seq<Scope>, op: Operator, lz: Looseness)
    requires left != [] && ChainShaped(left) && op.fixity != Prefix
    ensures StackYield(below + [Scope(OperatorHead(op), [Root(left)], lz)]) ==
              StackYield(below + left) + [OperatorItem(op)]
  {
    var g := Scope(OperatorHead(op), [Root(left)], lz);
    assert Yield(NodeOf(g, [])) == StackYield(left) + [OperatorItem(op)] by {
      assert [Root(left)] + [] == [Root(left)];
      RootYield(left);
    }
    PushYield(below, g);
    StackYieldAppend(below, left);
  }

  lemma OmittedYield(st: State, defOp: Operator)
    requires Valid(st) && defOp.fixity == Binary
    ensures StackYield(AddOmittedOprIfNeeded(st, defOp).stack) == StackYield(st.stack) + Omitted(st.awaitingVal, defOp)
  {
    if !st.awaitingVal {
      SubsumeYield(st, defOp, defOp);
    }
  }

  lemma {:induction false} StepYield(st: State, t: Token, defOp: Operator)
    requires Valid(st) && defOp.fixity == Binary
    requires Step(st, t, defOp).Ok?
    ensures t.Separator? ==> StackYield(Step(st, t, defOp).value.stack) == StackYield(st.stack)
    ensures t.ValueToken? ==>
              StackYield(Step(st, t, defOp).value.stack) ==
              StackYield(st.stack) + Omitted(st.awaitingVal, defOp) + [ValueItem(t.value)]
    ensures t.OperatorToken? && t.op.fixity == Prefix ==>
              StackYield(Step(st, t, defOp).value.stack) ==
              StackYield(st.stack) + Omitted(st.awaitingVal, defOp) + [OperatorItem(t.op)]
    ensures t.OperatorToken? && t.op.fixity != Prefix ==>
              StackYield(Step(st, t, defOp).value.stack) == StackYield(st.stack) + [OperatorItem(t.op)]
  {
    match t
    case Separator =>
    case ValueToken(v) =>
      var s := AddOmittedOprIfNeeded(st, defOp);
      OmittedYield(st, defOp);
      PushYield(s.stack, Scope(ValueHead(v), [], s.looseness));
    case OperatorToken(op) =>
      if op.fixity == Prefix {
        var s := AddOmittedOprIfNeeded(st, defOp);
        OmittedYield(st, defOp);
        PushYield(s.stack, Scope(OperatorHead(op), [], s.looseness));
      } else {
        SubsumeYield(st, op, defOp);
      }
  }

  /** The token loop and the scan agree after every prefix of the input: both fail with the
      same error, or both succeed, agree on whether a value is awaited, and the stack reads as
      the scanned items. */
  lemma {:induction false} RunMatchesScan(ts: seq<Token>, defOp: Operator)
    requires defOp.fixity == Binary
    ensures RunFrom(Init, ts, defOp).Err? <==> Scan(ts, defOp).Err?
    ensures RunFrom(Init, ts, defOp).Err? ==> RunFrom(Init, ts, defOp).error == Scan(ts, defOp).error
    ensures RunFrom(Init, ts, defOp).Ok? ==>
              && RunFrom(Init, ts, defOp).value.awaitingVal == Scan(ts, defOp).value.awaiting
              && StackYield(RunFrom(Init, ts, defOp).value.stack) == Scan(ts, defOp).value.items
    decreases |ts|
  {
    InitValid();
    if ts != [] {
      var init := ts[..|ts| - 1];
      var t := ts[|ts| - 1];
      RunMatchesScan(init, defOp);
      match RunFrom(Init, init, defOp)
      case Err(_) =>
      case Ok(s) =>
        if Step(s, t, defOp).Ok? {
          StepYield(s, t, defOp);
        }
    }
  }

  /** `parse` fails exactly when the scan says, with the same error; when it succeeds, its
      tree reads as the scanned items. */
  lemma ParseMatchesReference(ts: seq<Token>, defOp: Operator)
    requires defOp.fixity == Binary
    ensures match ParseTokens(ts, defOp)
            case Ok(t) => Expected(ts, defOp) == Ok(Yield(t))
            case Err(e) => Expected(ts, defOp) == Err(e)
  {
    InitValid();
    RunMatchesScan(ts, defOp);
    match RunFrom(Init, ts, defOp)
    case Err(_) =>
    case Ok(s) =>
      if !s.awaitingVal {
        RootYield(s.stack);
      }
  }

  // ---------------------------------------------------------------------------------------
  // Consequences

  lemma {:induction false} ScanCount(ts: seq<Token>, defOp: Operator)
    requires Scan(ts, defOp).Ok?
    ensures |Scan(ts, defOp).value.items| == NonSeparators(ts) + Scan(ts, defOp).value.inserted
    decreases |ts|
  {
    if ts != [] {
      ScanCount(ts[..|ts| - 1], defOp);
    }
  }

  /** The tree has exactly one node per value token, one per operator token and one per
      inserted default operator. */
  lemma NodeCount(ts: seq<Token>, defOp: Operator)
    requires defOp.fixity == Binary
    requires ParseTokens(ts, defOp).Ok?
    ensures Scan(ts, defOp).Ok?
    ensures Size(ParseTokens(ts, defOp).value) == NonSeparators(ts) + Scan(ts, defOp).value.inserted
  {
    ParseMatchesReference(ts, defOp);
    YieldLengthIsSize(ParseTokens(ts, defOp).value);
    ScanCount(ts, defOp);
  }

  lemma {:induction false} ScanIgnoresSeparators(ts: seq<Token>, defOp: Operator)
    ensures Scan(ts, defOp) == Scan(Unseparated(ts), defOp)
    decreases |ts|
  {
    if ts != [] {
      var init := ts[..|ts| - 1];
      var t := ts[|ts| - 1];
      ScanIgnoresSeparators(init, defOp);
      var u := Unseparated(init);
      if !t.Separator? {
        var ut := u + [t];
        assert Unseparated(ts) == ut;
        assert ut[..|ut| - 1] == u;
      } else {
        assert Unseparated(ts) == u;
      }
    }
  }

  /** Separators only regroup: with them removed, `parse` succeeds or fails alike, and a tree
      it returns reads the same. */
  lemma SeparatorsOnlyRegroup(ts: seq<Token>, defOp: Operator)
    requires defOp.fixity == Binary
    ensures ParseTokens(ts, defOp).Ok? <==> ParseTokens(Unseparated(ts), defOp).Ok?
    ensures ParseTokens(ts, defOp).Err? ==> ParseTokens(ts, defOp) == ParseTokens(Unseparated(ts), defOp)
    ensures ParseTokens(ts, defOp).Ok? ==>
              Yield(ParseTokens(ts, defOp).value) == Yield(ParseTokens(Unseparated(ts), defOp).value)
  {
    ScanIgnoresSeparators(ts, defOp);
    ParseMatchesReference(ts, defOp);
    ParseMatchesReference(Unseparated(ts), defOp);
  }
}
