# minidyn expression tree and printer, in Dafny

This project models the abstract syntax tree of minidyn's condition and filter
expression language, which is written in the style of DynamoDB. It covers the
tree's printer (`interpreter/language/ast.go`) and proves what that
printer guarantees.

- `text.dfy` (module `Text`) holds two things:
  - `Join`, the model of Go's `strings.Join`;
  - a count of parentheses (`Net`, `Opens`, `Balanced`, `Enclosed`), used to state balance.
- `ast.dfy` (module `Ast`) holds the node kinds as one closed `datatype Expression`:
  - `Identifier`, `PrefixExpression`, `InfixExpression`, `CallExpression`, `BetweenExpression`;
  - the `Statement` (`ExpressionStatement`) and `DynamoExpression` wrappers;
  - `Token(typ, literal)`;
  - each node's `String()` and `TokenLiteral()`;
  - `CallExpressionString`, which runs the argument loop of `CallExpression.String()` as a method.
- `printer.dfy` (module `Printer`) holds the lemmas about the printer:
  - the exact layout of each node's text;
  - the order of call arguments;
  - that the root delegates to its statement;
  - that the printed text does not depend on tokens;
  - that, when no identifier value or operator contains a parenthesis, the printed
    parentheses are balanced, with exactly one pair for each prefix, infix and call node.

`Identifier.String()` returns a field and `ExpressionStatement.String()` makes
one choice. The other five `String()` methods (`DynamoExpression`,
`PrefixExpression`, `InfixExpression`, `CallExpression` and `BetweenExpression`)
each fill a local `bytes.Buffer` with a fixed sequence of writes. None of that
state escapes the method, so all of them are functions that concatenate strings.
The one loop in the file collects the printed arguments of a call (lines
156-159). It is the method `Ast.CallExpressionString`, and its contract says it
produces the same text as the function.

The Go field `CallExpression.Function` is named `callee` here, because
`function` is a reserved word. `BetweenExpression.Range[0]` and `Range[1]` are
the fields `rangeStart` and `rangeEnd`, printed in that order.

The printer loses the boundary between a prefix operator and its operand,
because it writes them with no space between: `NOT` applied to `a` prints as
`(NOTa)`. In general, moving characters from the end of the operator to the
front of an identifier operand gives a different tree with the same text
(`Printer.PrefixBoundaryLost`). Whether such text re-parses to the tree it came
from depends on the lexer, which is not part of this model.

## Model

| member | source | states |
|---|---|---|
| `Ast.CallExpressionString` | interpreter/language/ast.go:153-167 | Collecting the printed arguments in a loop, then joining them with ", " between the callee's text and one pair of parentheses, gives exactly the call's `String()` |
| `Ast.Strings` | interpreter/language/ast.go:156-159 | Appending one printed argument at a time, as the loop builds `args`, yields the printed arguments in order, one per argument: as many texts as expressions, the i-th being the i-th expression's `String()` |
| `Printer.IdentifierPrint` | interpreter/language/ast.go:54-57 | An identifier prints its `Value`, and its `TokenLiteral()` is the token's literal. The two agree exactly when the value equals the literal |
| `Printer.StatementPrint` | interpreter/language/ast.go:69-78 | An expression statement prints "" when its expression is absent, and otherwise exactly the wrapped expression's text. Its literal is its own token's |
| `Printer.PrefixPrint` | interpreter/language/ast.go:96-105 | Prefix text is `(`, the operator, the operand's text and `)`, with no space. It starts with `(`, ends with `)` and is two characters longer than the operator and operand |
| `Printer.InfixPrint` | interpreter/language/ast.go:124-134 | Infix text is `(`, left, " op ", right, `)`. Its length is that of left, operator and right plus 4 |
| `Printer.InfixText` | interpreter/language/ast.go:127-131 | The same layout and length for any left text, operator and right text |
| `Printer.CallPrint` | interpreter/language/ast.go:153-167 | Call text is the callee's text, `(`, the argument texts joined by ", ", then `)`. No arguments prints `f()`. One argument prints `f(a)`, with no separator |
| `Printer.CallArgumentOrder` | interpreter/language/ast.go:156-164 | For any two arguments i < j, both texts occur unchanged in the call's text at their offsets, and argument i's text, followed by ", ", ends before argument j's begins |
| `Printer.CallLastArgument` | interpreter/language/ast.go:161-164 | The last argument's text is followed only by the closing `)`, which is the final character: nothing else is printed after the arguments |
| `Printer.CallTextArgument` | interpreter/language/ast.go:161-164 | Each argument text lies inside the call's parentheses at its join offset |
| `Printer.CallTextSeparator` | interpreter/language/ast.go:163 | ", " follows every argument text except the last |
| `Printer.BetweenPrint` | interpreter/language/ast.go:186-196 | BETWEEN text is left, " BETWEEN ", range start, " AND ", range end, with no parentheses added. It begins with the left operand's text and ends with the range end's. Its length is theirs plus 14 |
| `Printer.BetweenText` | interpreter/language/ast.go:189-193 | The same layout for any three texts |
| `Printer.TokenLiteralIsOwn` | interpreter/language/ast.go:55-184 | Every expression node's `TokenLiteral()` is its own token's literal. Two nodes with the same token report the same literal, whatever their children |
| `Printer.DynamoDelegates` | interpreter/language/ast.go:13-24 | The root's `String()` and `TokenLiteral()` are its statement's. The literal is the statement's token's, not the expression's. An absent expression prints "" |
| `Printer.PrintIgnoresTokens` | interpreter/language/ast.go:57-196 | Replacing every token in a tree leaves its printed text unchanged. The printer reads identifier values and operators, never token literals |
| `Printer.PrefixTextBalanced` | interpreter/language/ast.go:99-102 | If the operand's text is balanced and the operator has no parenthesis, the prefix text is one enclosed group and adds exactly one pair |
| `Printer.InfixTextBalanced` | interpreter/language/ast.go:127-131 | If both operands' texts are balanced and the operator has no parenthesis, the infix text is one enclosed group and adds exactly one pair |
| `Printer.CallTextBalanced` | interpreter/language/ast.go:161-164 | If the callee text and the joined arguments are balanced, so is the call text. It adds exactly one pair, and its part after the callee is one enclosed group |
| `Printer.BetweenTextBalanced` | interpreter/language/ast.go:189-193 | BETWEEN text of balanced parts is balanced and adds no pair |
| `Printer.PrintBalanced` | interpreter/language/ast.go:96-196 | If no identifier value or operator contains a parenthesis, every printed expression is balanced. Its `(` count equals the number of prefix, infix and call nodes |
| `Printer.CallBalanced` | interpreter/language/ast.go:153-167 | The call case of the above. The text after the callee is one enclosed group |
| `Printer.PrintEnclosed` | interpreter/language/ast.go:96-134 | When no identifier value or operator contains a parenthesis, prefix and infix texts are fully parenthesised: the opening `(` is matched by the final `)` and by no earlier one |
| `Printer.PrefixBoundaryLost` | interpreter/language/ast.go:96-105 | Prefix `op1 + op2` over identifier `v` and prefix `op1` over identifier `op2 + v` are different trees when `op2` is not empty, and print the same text, because operator and operand are written with no space |
| `Text.JoinSlices` | interpreter/language/ast.go:163 | In `Join(parts, sep)`, each part occurs unchanged at its offset, and `sep` lies between it and the next part |
| `Text.JoinLength` | interpreter/language/ast.go:163 | A non-empty join ends exactly where its last part ends: nothing follows the last part |
| `Text.JoinOffsetsOrdered` | interpreter/language/ast.go:156-163 | Parts appear in list order. Each part ends, followed by a separator, before any later part begins |
| `Text.JoinBalanced` | interpreter/language/ast.go:163 | Joining balanced parts with a separator that has no parenthesis gives balanced text. Its `(` count is the sum of the parts' counts |

## Left out

- The marker methods `statementNode()` and `expressionNode()`, with their `_ = 1` bodies. They do nothing, and the closed datatypes replace them.
- Nil children other than `ExpressionStatement.Expression`, which is an `Option`. Go would panic on the others, so here they always exist. A typed-nil pointer stored in `ExpressionStatement.Expression` passes the `!= nil` test and then panics when its `String()` dereferences it; `Option` cannot express that case.
- `bytes.Buffer` and `strings.Join` are library code. They become string concatenation and the function `Text.Join`.
- Go strings are sequences of bytes; here they are sequences of characters, so lengths count characters. The layout identities still hold, because all the text the printer adds (parentheses, spaces, ", ", " BETWEEN ", " AND ") is ASCII.
- Only the argument loop of `CallExpression.String()` is a method. The five buffer-building `String()` methods (`DynamoExpression`, `PrefixExpression`, `InfixExpression`, `CallExpression`, `BetweenExpression`) keep their buffer local, so they are functions. `Identifier.String()` and `ExpressionStatement.String()` hold no state.
- Trees are values. Go nodes are pointers, and a node could be shared by two parents. The printer only reads the tree, so sharing does not change its output.
- Go pointers could also form a cycle, on which `String()` never returns. Value trees are finite, so the model excludes cycles.
- `Token` is defined outside this file. It keeps only its type and literal.
- The lexer, parser and evaluator are not part of this model, and neither is the round trip of printing and re-parsing. Their code is not among the files modelled.
