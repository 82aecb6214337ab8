/** The abstract syntax tree of the condition/filter expression language and its
    printer (interpreter/language/ast.go).

    Go imitates a closed sum type with the marker interfaces `Statement` and
    `Expression`; here each is a datatype whose constructors are the node kinds.
    Every node answers `TokenLiteral()` (the literal of the token that anchors it)
    and `String()` (its printed text). */
module Ast {
  import opened Text

  datatype Option<T> = None | Some(value: T)

  /** A lexer token. The tree reads only its literal. */
  datatype Token = Token(typ: string, literal: string)

  datatype Expression =
    | Identifier(token: Token, value: string)
      /** A unary operator such as NOT applied to one operand. */
    | PrefixExpression(token: Token, operator: string, right: Expression)
    | InfixExpression(token: Token, left: Expression, operator: string, right: Expression)
      /** A function application; `callee` is Go's `Function` field. */
    | CallExpression(token: Token, callee: Expression, arguments: seq<Expression>)
      /** `left BETWEEN rangeStart AND rangeEnd`: Go's `Range[0]` and `Range[1]`. */
    | BetweenExpression(token: Token, left: Expression, rangeStart: Expression, rangeEnd: Expression)
  {
    /** The literal of this node's own token. */
    function TokenLiteral(): string
    {
      token.literal
    }

    /** Printed text: prefix and infix forms fully parenthesised, calls as
        `f(a, b)`, BETWEEN without parentheses. */
    function String(): string
    {
      match this
      case Identifier(_, value) => value
      case PrefixExpression(_, operator, right) => "(" + operator + right.String() + ")"
      case InfixExpression(_, left, operator, right) =>
        "(" + left.String() + " " + operator + " " + right.String() + ")"
      case CallExpression(_, callee, arguments) =>
        callee.String() + "(" + Join(Strings(arguments), ", ") + ")"
      case BetweenExpression(_, left, rangeStart, rangeEnd) =>
        left.String() + " BETWEEN " + rangeStart.String() + " AND " + rangeEnd.String()
    }
  }

  /** The printed form of each expression of a list, in order, built one
      `append` at a time as the source builds its argument list. */
  function Strings(es: seq<Expression>): (r: seq<string>)
    decreases es
    ensures |r| == |es|
    ensures forall i :: 0 <= i < |es| ==> r[i] == es[i].String()
  {
    if es == [] then [] else Strings(es[..|es| - 1]) + [es[|es| - 1].String()]
  }

  /** The only statement form: one expression, which the parser may leave absent. */
  datatype Statement = ExpressionStatement(token: Token, expression: Option<Expression>)
  {
    function TokenLiteral(): string
    {
      token.literal
    }

    function String(): string
    {
      match expression
      case Some(e) => e.String()
      case None => ""
    }
  }

  /** The root of a parsed expression. */
  datatype DynamoExpression = DynamoExpression(statement: Statement)
  {
    function String(): string
    {
      statement.String()
    }

    function TokenLiteral(): string
    {
      statement.TokenLiteral()
    }
  }

  /** `CallExpression.String()` as the source runs it: a loop collects the printed
      arguments in a list, which is then joined with ", " between the callee's
      text and a pair of parentheses. */
  method CallExpressionString(token: Token, callee: Expression, arguments: seq<Expression>)
    returns (s: string)
    ensures s == CallExpression(token, callee, arguments).String()
  {
    var args: seq<string> := [];
    var i := 0;
    while i < |arguments|
      invariant 0 <= i <= |arguments|
      invariant args == Strings(arguments[..i])
    {
      assert arguments[..i + 1] == arguments[..i] + [arguments[i]];
      args := args + [arguments[i].String()];
      i := i + 1;
    }
    assert arguments[..i] == arguments;
    s := callee.String() + "(" + Join(args, ", ") + ")";
  }
}
