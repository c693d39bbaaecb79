/** The operator table of the calculator page and what `parse` makes of a few inputs over it,
    printed with `toString`. Words are already tokens here: `_` is a separator, a keyword its
    operator, anything else a value. */
module App {
  import opened Tree
  import opened ParseSteps
  import opened ParseProperties

  const Plus := Operator("plus", 1, Binary)
  const Minus := Operator("minus", 1, Binary)
  const Times := Operator("times", 2, Binary)
  const Div := Operator("div", 2, Binary)
  const Into := Operator("into", 2, Binary)
  const Mod := Operator("mod", 2, Binary)
  const Pow := Operator("pow", 3, Binary)
  const Neg := Operator("neg", 4, Prefix)
  const Sqrt := Operator("sqrt", 4, Prefix)
  const Squared := Operator("squared", 6, Postfix)

  /** Juxtaposed expressions multiply, more tightly than every binary keyword. */
  const DefOp := Operator("times", 5, Binary)

  function Val(s: string): Token
  {
    ValueToken(s)
  }

  function Op(op: Operator): Token
  {
    OperatorToken(op)
  }

  /** `a plus b plus c`: operators of equal priority group to the left. */
  lemma LeftAssociative(a: string, b: string, c: string)
    ensures ParseTokens([Val(a), Op(Plus), Val(b), Op(Plus), Val(c)], DefOp)
              == Ok(OperatorNode(Plus, [OperatorNode(Plus, [ValueNode(a), ValueNode(b)]), ValueNode(c)]))
    ensures ToString(OperatorNode(Plus, [OperatorNode(Plus, [ValueNode(a), ValueNode(b)]), ValueNode(c)]))
              == "(" + ("(" + a + " " + "plus" + " " + b + ")") + " " + "plus" + " " + c + ")"
  {
    var ab := OperatorNode(Plus, [ValueNode(a), ValueNode(b)]);
    assert ParseTokens([Val(a), Op(Plus), Val(b), Op(Plus), Val(c)], DefOp)
        == Ok(OperatorNode(Plus, [ab, ValueNode(c)])) by {
      TwoBinaryOperators(a, Plus, b, 0, Plus, c, DefOp);
      assert [Val(a), Op(Plus), Val(b)] + Seps(0) + [Op(Plus), Val(c)]
          == [Val(a), Op(Plus), Val(b), Op(Plus), Val(c)];
    }
  }

  /** `a plus b times c`: the operator of higher priority groups first. */
  lemma PriorityGroupsFirst(a: string, b: string, c: string)
    ensures ParseTokens([Val(a), Op(Plus), Val(b), Op(Times), Val(c)], DefOp)
              == Ok(OperatorNode(Plus, [ValueNode(a), OperatorNode(Times, [ValueNode(b), ValueNode(c)])]))
    ensures ToString(OperatorNode(Plus, [ValueNode(a), OperatorNode(Times, [ValueNode(b), ValueNode(c)])]))
              == "(" + a + " " + "plus" + " " + ("(" + b + " " + "times" + " " + c + ")") + ")"
  {
    var bc := OperatorNode(Times, [ValueNode(b), ValueNode(c)]);
    assert ParseTokens([Val(a), Op(Plus), Val(b), Op(Times), Val(c)], DefOp)
        == Ok(OperatorNode(Plus, [ValueNode(a), bc])) by {
      TwoBinaryOperators(a, Plus, b, 0, Times, c, DefOp);
      assert [Val(a), Op(Plus), Val(b)] + Seps(0) + [Op(Times), Val(c)]
          == [Val(a), Op(Plus), Val(b), Op(Times), Val(c)];
    }
  }

  /** `a plus b _ times c`: a separator makes `times` bind more loosely than `plus`. */
  lemma SeparatorLoosens(a: string, b: string, c: string)
    ensures ParseTokens([Val(a), Op(Plus), Val(b), Separator, Op(Times), Val(c)], DefOp)
              == Ok(OperatorNode(Times, [OperatorNode(Plus, [ValueNode(a), ValueNode(b)]), ValueNode(c)]))
    ensures ToString(OperatorNode(Times, [OperatorNode(Plus, [ValueNode(a), ValueNode(b)]), ValueNode(c)]))
              == "(" + ("(" + a + " " + "plus" + " " + b + ")") + " " + "times" + " " + c + ")"
  {
    var ab := OperatorNode(Plus, [ValueNode(a), ValueNode(b)]);
    assert ParseTokens([Val(a), Op(Plus), Val(b), Separator, Op(Times), Val(c)], DefOp)
        == Ok(OperatorNode(Times, [ab, ValueNode(c)])) by {
      TwoBinaryOperators(a, Plus, b, 1, Times, c, DefOp);
      assert Seps(1) == [Separator] by {
        assert Seps(1) == Seps(0) + [Separator];
      }
      assert [Val(a), Op(Plus), Val(b)] + Seps(1) + [Op(Times), Val(c)]
          == [Val(a), Op(Plus), Val(b), Separator, Op(Times), Val(c)];
    }
  }

  /** `neg a squared`: `squared` has the higher priority, so it applies to `a` alone. */
  lemma PostfixInsidePrefix(a: string)
    ensures ParseTokens([Op(Neg), Val(a), Op(Squared)], DefOp)
              == Ok(OperatorNode(Neg, [OperatorNode(Squared, [ValueNode(a)])]))
    ensures ToString(OperatorNode(Neg, [OperatorNode(Squared, [ValueNode(a)])]))
              == "(" + "neg" + " " + ("(" + a + " " + "squared" + ")") + ")"
  {
    var sq := OperatorNode(Squared, [ValueNode(a)]);
    assert ParseTokens([Op(Neg), Val(a), Op(Squared)], DefOp) == Ok(OperatorNode(Neg, [sq])) by {
      PrefixThenPostfix(Neg, a, Squared, DefOp);
    }
  }

  /** `a b`: juxtaposition inserts the default `times`. */
  lemma Juxtaposition(a: string, b: string)
    ensures ParseTokens([Val(a), Val(b)], DefOp) == Ok(OperatorNode(DefOp, [ValueNode(a), ValueNode(b)]))
    ensures ToString(OperatorNode(DefOp, [ValueNode(a), ValueNode(b)])) == "(" + a + " " + "times" + " " + b + ")"
  {
    assert ParseTokens([Val(a)], DefOp).Ok? && [Val(a)][0] == Val(a) by {
      SingleValue(0, a, 0, DefOp);
      assert Seps(0) + [Val(a)] + Seps(0) == [Val(a)];
    }
    assert ParseTokens([Val(a), Val(b)], DefOp) == ParseTokens([Val(a), Op(DefOp), Val(b)], DefOp) by {
      DefaultOperatorInsertion([Val(a)], 0, Val(b), [], DefOp);
      NoSeparators(Val(a), Val(b), Op(DefOp));
    }
    SingleBinaryOperator(a, DefOp, b, DefOp);
  }

  lemma NoSeparators(x: Token, y: Token, o: Token)
    ensures [x] + Seps(0) + [y] + [] == [x, y]
    ensures [x] + Seps(0) + [o] + Seps(0) + [y] + [] == [x, o, y]
  {
    assert Seps(0) == [];
  }
}
