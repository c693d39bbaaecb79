# parentheless: a verified model of the separator-aware precedence parser

parentheless reads expressions written without parentheses. The input is a flat sequence of
tokens: values, operators (binary, unary prefix or unary postfix, each with a numeric
priority) and separators. `Parser.parse` builds the expression tree in one left-to-right pass.
Grouping is decided first by *looseness*, the number of separators in front of an operator,
and then by priority. When a value or a prefix operator follows a complete expression, the
parser's default operator is inserted between them (the calculator page uses `times` for this).
A parsed tree prints fully parenthesised.

The project has two layers.

- **Specification layer.** `ParseSteps` states each step of `parse` as a function on its state:
  `addOmittedOprIfNeeded`, `addVal`, `addOpr` with its pop loop, and the token loop. The state
  is the scope stack, the separator counter and the awaited-value flag.
- **Imperative layer.** `Parsing` implements the same steps as methods of a class holding
  those variables. It includes the `for ... of` token loop and the `do ... while` pop loop.
  Each method is proved to compute what the matching function says, so every property proved
  about the functions holds for the code.

The scope stack is held in *chain form* (module `Scopes`). The node of scope i+1 is always the
last child of the node of scope i, so a scope stores only its node's head and its other
children, and `Linked` puts the tree back together from the bottom scope up. In this form:

- `curr.node.appendChild(...)` followed by `stack.push(...)` is a push.
- The splice `stack.at(-1).node.lastChild = oprNode` that follows the pop loop is a truncation
  followed by a push.

`PushAppendsChild`, `ReplaceFrom` and the lemmas of `ParseProperties` state both operations in
terms of the materialised tree, using `AppendChild` and the `lastChild` setter `SetLastChild`.

`Reference` is an independent account of `parse`. `Scan` reads the tokens with nothing but
the awaited-value flag. `ParseMatchesReference` proves two things:

- `parse` fails exactly where `Scan` says, with the same error.
- A tree it returns reads, in order, as the non-separator tokens plus the inserted default
  operators.

`App` fixes the operator table of the calculator page (app.mjs:11-24) and proves what a few
inputs parse and print to.

Modules and files: `Tree` (tree.dfy), `Scopes` (scopes.dfy), `ParseSteps` (steps.dfy),
`Reference` (reference.dfy), `ParseProperties` (properties.dfy), `Parsing` (parser.dfy) and
`App` (app.dfy).

### Three behaviours of the code worth knowing

- An operator at the very end of the input is an end-of-input error only when it is binary or
  prefix. A postfix operator leaves `awaitingVal` false (parser.mjs:159), so `a squared`
  parses. `ParseProperties.TrailingOperator` states the error for binary and prefix operators.
- `neg a squared` gives `(neg (a squared))`, not `((neg a) squared)`. The pop loop at
  parser.mjs:142-148 pops `a`'s scope, whose looseness 0 equals the counter. It then reads
  the priority of `neg`, which is 4. That is below the 6 of `squared`, so popping stops there.
  `ParseProperties.PrefixThenPostfix` states this for any priorities, and
  `App.PostfixInsidePrefix` states it for the page's operators.
- Scopes still on the stack at the end of input are not lost. The node of every scope is
  linked into `stack[0].node`, the tree `parse` returns (`Scopes.ScopeNodeAtDepth`), and
  `Reference.NodeCount` counts one node per token and per inserted default operator.

## Model

| member | source | states |
|---|---|---|
| `Tree.AppendChild` | parser.mjs:54-57 | `lastChild` then reads back the appended node; the earlier children are kept, in order, and there is one more child |
| `Tree.LastChild` | parser.mjs:61-63 | the last child, which is absent exactly when the node has no children |
| `Tree.SetLastChild` | parser.mjs:64-67 | `lastChild` then reads back the new node; every other child is kept; on a childless node the new node becomes the only child |
| `Tree.SetLastChildSize` | parser.mjs:64-67 | replacing the last child changes the tree's size by exactly the new subtree's size minus the old one's: no other node is lost |
| `Tree.Format` | parser.mjs:20-38 | each operator kind's rendering opens with `(` and closes with `)` |
| `Tree.ToString` | parser.mjs:68-81 | a leaf renders as its value; an operator node renders wrapped in parentheses |
| `Tree.ToStringInjective` | parser.mjs:20-38 | two well-formed trees render to the same text exactly when they have the same shape: the same grouping, values, operator names and fixities. Only priorities, which are not printed, may differ. It needs every value and operator name to be a word without spaces or parentheses, and no value spelled like an operator name |
| `Tree.UnparenToString` | parser.mjs:68-70 | with every parenthesis deleted, the rendering of a well-formed tree is its in-order reading (values and operator names, space-separated) |
| `Tree.OpeningIsOperatorCount` | parser.mjs:68-70 | the rendering opens exactly one parenthesis per operator node |
| `Scopes.Succ` | parser.mjs:104 | `looseness++`: Infinity stays Infinity and a finite count grows by one |
| `Scopes.Below` | parser.mjs:145 | JavaScript's `<` with Infinity: nothing is below itself; Infinity is below nothing; every count is below Infinity; counts compare as numbers |
| `Scopes.BelowOrder` | parser.mjs:145 | `<` on loosenesses is a strict total order: asymmetric, transitive, and any two different loosenesses are ordered |
| `Scopes.SuccAbove` | parser.mjs:104 | one more separator makes a finite count strictly looser |
| `Scopes.Root` | parser.mjs:110 | `stack[0].node` is the bottom scope's node: a value leaf holding the scope's value, or an operator node holding the scope's operator |
| `Scopes.RootLinks` | parser.mjs:122-124 | an operator node at the bottom holds the bottom scope's other children first and, if there is a scope above, exactly one more child: that scope's node, as its last child |
| `Scopes.RootWellFormed` | parser.mjs:110 | when every scope below the top is open and the top is complete, `stack[0].node` has the arity its fixity asks for everywhere |
| `Scopes.ScopeNodeAtDepth` | parser.mjs:122-124 | scope j's node is reached from `stack[0].node` by following `lastChild` j times |
| `Scopes.ReplaceFrom` | parser.mjs:150 | keeping the bottom j scopes and pushing new ones gives the old tree with the node at depth j re-linked through the `lastChild` setter |
| `Scopes.PushAppendsChild` | parser.mjs:122-124 | pushing a scope appends its node as the new last child of the top scope's node and changes nothing else |
| `ParseSteps.InitValid` | parser.mjs:98-101 | the initial state (empty stack, counter at Infinity, value awaited) satisfies the parser's invariants |
| `ParseSteps.PopCond` | parser.mjs:144-148 | the do-while test never passes at the bottom scope, so the loop never empties the stack; a scope with a smaller looseness than the counter always passes it, and one with a greater looseness never does |
| `ParseSteps.PopIndex` | parser.mjs:141-148 | the do-while loop pops at least one scope; it stops at the first scope that fails the test, and every scope above that one passed it |
| `ParseSteps.AddOmittedOprIfNeeded` | parser.mjs:112-117 | afterwards a value is awaited and the counter is what it was before; it changes nothing if a value was already awaited; the invariants are kept |
| `ParseSteps.AddVal` | parser.mjs:119-127 | the new top scope holds the value leaf, with the counter as its looseness; then the counter is 0 and no value is awaited; the invariants are kept |
| `ParseSteps.AddOpr` | parser.mjs:129-160 | fails, with that operator, exactly when a binary or postfix operator arrives while a value is awaited; otherwise the invariants are kept, the counter is 0, and a value is awaited unless the operator is postfix |
| `ParseSteps.Step` | parser.mjs:103-107 | a separator only bumps the counter; only a binary or postfix operator while a value is awaited fails; any other token resets the counter to 0 |
| `ParseSteps.RunFrom` | parser.mjs:103-107 | the invariants hold after every token: `curr` is the top, each scope's node is the last child of the node below, every scope below the top holds an open operator node, the bottom looseness is Infinity |
| `ParseSteps.ParseTokens` | parser.mjs:96-110 | a returned tree is well-formed: binary nodes have 2 children, prefix and postfix nodes 1 |
| `ParseSteps.RunFromAppend` | parser.mjs:103-107 | the token loop over `a + b` is the loop over `a` continued over `b`; a failure in `a` is final |
| `Reference.ParseMatchesReference` | parser.mjs:96-161 | `parse` fails exactly when the flag-only scan fails, with the same error, or at the end while a value is awaited; a returned tree reads in order as the non-separator tokens with a default operator inserted before each value or prefix operator that follows a complete expression |
| `Reference.RunMatchesScan` | parser.mjs:103-107 | after every prefix of the input the loop and the scan agree on failure, on the error, on whether a value is awaited and on the stack's reading |
| `Reference.StepYield` | parser.mjs:119-160 | each token adds its own node to the stack's reading, after the inserted default operator if any; separators add nothing |
| `Reference.NodeCount` | parser.mjs:119-160 | the tree has one node per value token, one per operator token and one per inserted default operator |
| `Reference.SeparatorsOnlyRegroup` | parser.mjs:104 | removing every separator changes neither success nor the error nor the tree's in-order reading |
| `ParseProperties.RunSeparators` | parser.mjs:104 | separators only add their number to the counter (Infinity stays Infinity) |
| `ParseProperties.ErrorIsFinal` | parser.mjs:139 | once an operator is rejected, later tokens are not read |
| `ParseProperties.SingleValue` | parser.mjs:96-127 | one value with any number of leading and trailing separators parses to the leaf holding that value |
| `ParseProperties.OnlySeparators` | parser.mjs:109 | empty input, or separators only, fails at the end of input |
| `ParseProperties.LeadingOperator` | parser.mjs:138-139 | a binary or postfix operator before any value fails with that operator |
| `ParseProperties.OperatorAfterOperator` | parser.mjs:138-139 | a binary or postfix operator right after a binary or prefix operator (separators between them allowed) fails with that operator |
| `ParseProperties.TrailingOperator` | parser.mjs:109 | input ending in a binary or prefix operator and separators fails, at the end of input unless an earlier operator was rejected |
| `ParseProperties.SubsumeRelinks` | parser.mjs:150-152 | the new operator's node takes the last popped scope's place in the tree (via `lastChild`) and holds that scope's node as its only child; the tree's reading gains just the operator |
| `ParseProperties.AddValAppends` | parser.mjs:119-124 | the value leaf is appended as the last child of the top scope's node (after any default operator), or becomes the root of an empty stack |
| `ParseProperties.AddPrefixAppends` | parser.mjs:133-136 | a prefix operator's node is appended like a value leaf |
| `ParseProperties.InsertionAtState` | parser.mjs:112-117 | after a complete expression, `k` separators then a value or prefix operator act as `k` separators, the default operator, `k` separators and that token |
| `ParseProperties.DefaultOperatorInsertion` | parser.mjs:112-120 | for any complete expression X and any continuation, `X sep^k t` parses exactly as `X sep^k defOp sep^k t`, for a value or prefix operator `t` |
| `ParseProperties.SingleBinaryOperator` | parser.mjs:141-152 | `a p b` parses to `p`'s node with children `a` and `b` |
| `ParseProperties.TwoBinaryOperators` | parser.mjs:142-148 | in `a p b sep^k q c`, `p` groups first when k > 0 or p's priority is at least q's (left-associative at equal priority); otherwise `q` groups first |
| `ParseProperties.PrefixThenPostfix` | parser.mjs:142-148 | in `p a q` (prefix p, postfix q), q applies to `p a` when p's priority is at least q's and to `a` alone otherwise |
| `Parsing.ParseRun.constructor` | parser.mjs:98-101 | the initial state: empty stack, counter at Infinity, a value awaited |
| `Parsing.ParseRun.AddOmittedOprIfNeeded` | parser.mjs:112-117 | the state afterwards is `ParseSteps.AddOmittedOprIfNeeded` of the state before |
| `Parsing.ParseRun.AddVal` | parser.mjs:119-127 | the state afterwards is `ParseSteps.AddVal` of the state before |
| `Parsing.ParseRun.AddOpr` | parser.mjs:129-160 | returns the error of `ParseSteps.AddOpr` and changes nothing, or returns no error and leaves the state `ParseSteps.AddOpr` computes |
| `Parsing.ParseRun.Subsume` | parser.mjs:141-152 | the scopes from index `PopIndex` up are replaced by one scope of the new operator, which holds their node as its only child and takes the last popped scope's looseness; the scopes below are kept, and the counter and flag are unchanged |
| `Parsing.PopScopes` | parser.mjs:141-148 | the do-while loop stops at exactly the scope `PopIndex` names, and the node it holds is that scope's node with every popped scope above it linked in |
| `Parsing.Parser.constructor` | parser.mjs:92-94 | the parser keeps its default operator |
| `Parsing.Parser.Parse` | parser.mjs:96-110 | the token loop returns exactly `ParseSteps.ParseTokens`, so every property above holds of it |
| `App.LeftAssociative` | parser.mjs:142-148 | with the page's operators, `a plus b plus c` parses to `plus` over (`plus` over `a`, `b`) and `c`, which prints `((a plus b) plus c)` |
| `App.PriorityGroupsFirst` | parser.mjs:142-148 | `a plus b times c` parses to `plus` over `a` and (`times` over `b`, `c`), which prints `(a plus (b times c))` |
| `App.SeparatorLoosens` | parser.mjs:142-148 | `a plus b _ times c` parses to `times` over (`plus` over `a`, `b`) and `c`, which prints `((a plus b) times c)` |
| `App.PostfixInsidePrefix` | parser.mjs:142-148 | `neg a squared` parses to `neg` over (`squared` over `a`), which prints `(neg (a squared))` |
| `App.Juxtaposition` | parser.mjs:112-120 | `a b` parses to the default operator `times` over `a` and `b`, which prints `(a times b)` |

## Left out

- Error messages. The two errors are the variants `UnexpectedOperator(op)` and `UnexpectedEof`, and the text thrown, including its typo, is not modelled. A thrown error is a returned `Err`.
- JavaScript's `Infinity` is a sentinel here, the constructor `Inf`, and not a floating-point value.
- The base `Operator` class, whose type is "unknown", is not modelled. Only the three subclasses are, as `Fixity`.
- A default operator that is not binary is not modelled; every member requires `defOp.fixity == Binary`.
  - A prefix default makes `addOmittedOprIfNeeded` and `addOpr` call each other forever (parser.mjs:115 and 134): the flag stays false, so each call inserts the default operator again.
  - A postfix default is inserted and leaves `awaitingVal` false (parser.mjs:159). The value or prefix operator that follows is then appended as a second child of the postfix node (parser.mjs:122 and 136), and `format` never prints that child (parser.mjs:36-38).
- The write at parser.mjs:153 is not modelled. It goes to a scope that is already off the stack, so it has no visible effect.
- Object identity is not modelled: trees are values compared structurally.
  - The in-place update of `childNodes` by `appendChild` and the `lastChild` setter is modelled as the re-linking of values along the last-child path (`ReplaceAt`).
  - Aliasing between a scope and the node it holds is not modelled.
- The pop loop works on a copy of the stack (`Parsing.PopScopes`), and `Parsing.ParseRun.Subsume` writes the resulting stack back to the field once. The field's intermediate values during the loop are not modelled; nothing else reads them.
- `curr` is not a separate variable. It is always the top of the stack (null while the stack is empty).
- The return value of `appendChild` is not modelled, and neither is the `that` alias; `parse` does not use them.
- Values are strings, and `String(value)` is the identity on them. The `ValueNode` default value `null` is not modelled.
- `Operator.toString` is the operator's `name`.
- `Tree.ToString` renders a missing child as `undefined`, as JavaScript interpolation does. A tree returned by `parse` never has one (`ParseSteps.ParseTokens`).
- From app.mjs only the operator table and the default operator are modelled. The DOM code, the whitespace tokenizer, the display names and `renderTree` are not.
- `Tree.Format`: its contract says only that each rendering is wrapped in parentheses. What a whole rendering determines is stated by `Tree.ToStringInjective`; the order of its words by `Tree.UnparenToString`; and the exact text for given inputs by the `App` lemmas.
- `Tree.ToString`: its own contract says only that a leaf renders as its value and an operator node in parentheses. The grouping is stated by `Tree.ToStringInjective`. It holds only for trees whose values and operator names are non-empty, contain no space or parenthesis, and whose values are not operator names. The calculator page's tokenizer (app.mjs:56-60, not modelled) keeps spaces and operator names out of values, but not parentheses: a value such as `(a` can make two different trees print alike.
