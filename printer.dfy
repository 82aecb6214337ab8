/** What the printer of interpreter/language/ast.go guarantees: the exact
    shape of each node's text, the order of call arguments, delegation from the
    root, the independence of the text from tokens, and balanced parentheses. */
module Printer {
  import opened Text
  import opened Ast

  /** An identifier prints its value; its token literal is reported separately,
      and the two agree only when the value equals the literal. */
  lemma IdentifierPrint(t: Token, v: string)
    ensures Identifier(t, v).String() == v
    ensures Identifier(t, v).TokenLiteral() == t.literal
    ensures Identifier(t, v).String() == Identifier(t, v).TokenLiteral() <==> v == t.literal
  {
  }

  /** An absent expression prints as the empty string; a present one prints
      exactly as the wrapped expression. The statement's literal is its own token's. */
  lemma StatementPrint(t: Token, x: Option<Expression>)
    ensures x.None? ==> ExpressionStatement(t, x).String() == ""
    ensures x.Some? ==> ExpressionStatement(t, x).String() == x.value.String()
    ensures ExpressionStatement(t, x).TokenLiteral() == t.literal
  {
  }

  /** `(` operator operand `)`, with no space after the operator. */
  lemma PrefixPrint(t: Token, op: string, right: Expression)
    ensures var s := PrefixExpression(t, op, right).String();
      |s| == |op| + |right.String()| + 2 &&
      s[0] == '(' && s[|s| - 1] == ')' &&
      s[1..1 + |op|] == op && s[1 + |op|..|s| - 1] == right.String()
  {
  }

  /** `(` left ` ` operator ` ` right `)`, four characters longer than its parts. */
  lemma InfixPrint(t: Token, left: Expression, op: string, right: Expression)
    ensures var s := InfixExpression(t, left, op, right).String();
      |s| == |left.String()| + |op| + |right.String()| + 4 &&
      s[0] == '(' && s[|s| - 1] == ')' &&
      s[1..1 + |left.String()|] == left.String() &&
      s[1 + |left.String()|..3 + |left.String()| + |op|] == " " + op + " " &&
      s[3 + |left.String()| + |op|..|s| - 1] == right.String()
  {
    InfixText(left.String(), op, right.String());
  }

  /** The infix layout on plain text: where each part sits. */
  lemma InfixText(l: string, op: string, r: string)
    ensures var s := "(" + l + " " + op + " " + r + ")";
      |s| == |l| + |op| + |r| + 4 &&
      s[0] == '(' && s[|s| - 1] == ')' &&
      s[1..1 + |l|] == l &&
      s[1 + |l|..3 + |l| + |op|] == " " + op + " " &&
      s[3 + |l| + |op|..|s| - 1] == r
  {
  }

  /** A call prints its callee, then its printed arguments joined by ", " inside
      one pair of parentheses: `f()` without arguments, `f(a)` without a separator
      for one argument. */
  lemma CallPrint(t: Token, callee: Expression, arguments: seq<Expression>)
    ensures CallExpression(t, callee, arguments).String() ==
            callee.String() + "(" + Join(Strings(arguments), ", ") + ")"
    ensures arguments == [] ==>
              CallExpression(t, callee, arguments).String() == callee.String() + "()"
    ensures |arguments| == 1 ==>
              CallExpression(t, callee, arguments).String() == callee.String() + "(" + arguments[0].String() + ")"
  {
  }

  /** Where the printed text of argument `i` starts inside the printed call. */
  function ArgumentOffset(callee: Expression, arguments: seq<Expression>, i: nat): nat
    requires i < |arguments|
  {
    |callee.String()| + 1 + JoinOffset(Strings(arguments), ", ", i)
  }

  /** Each argument's text occurs unchanged in the printed call, and an earlier
      argument ends, followed by ", ", before a later one begins. */
  lemma CallArgumentOrder(t: Token, callee: Expression, arguments: seq<Expression>, i: nat, j: nat)
    requires i < j < |arguments|
    ensures var s := CallExpression(t, callee, arguments).String();
      var oi, oj := ArgumentOffset(callee, arguments, i), ArgumentOffset(callee, arguments, j);
      oi + |arguments[i].String()| + 2 <= oj &&
      oj + |arguments[j].String()| < |s| &&
      s[oi..oi + |arguments[i].String()|] == arguments[i].String() &&
      s[oi + |arguments[i].String()|..oi + |arguments[i].String()| + 2] == ", " &&
      s[oj..oj + |arguments[j].String()|] == arguments[j].String()
  {
    CallPrint(t, callee, arguments);
    var f, parts := callee.String(), Strings(arguments);
    CallTextArgument(f, parts, i);
    CallTextSeparator(f, parts, i);
    CallTextArgument(f, parts, j);
    JoinOffsetsOrdered(parts, ", ", i, j);
  }

  /** The last argument's text is followed only by the closing parenthesis:
      nothing else is printed after the arguments. */
  lemma CallLastArgument(t: Token, callee: Expression, arguments: seq<Expression>)
    requires arguments != []
    ensures var s := CallExpression(t, callee, arguments).String();
      var last := |arguments| - 1;
      var o := ArgumentOffset(callee, arguments, last);
      o + |arguments[last].String()| + 1 == |s| &&
      s[o..o + |arguments[last].String()|] == arguments[last].String() &&
      s[|s| - 1] == ')'
  {
    CallPrint(t, callee, arguments);
    var f, parts := callee.String(), Strings(arguments);
    CallTextArgument(f, parts, |parts| - 1);
    JoinLength(parts, ", ");
  }

  /** One argument's text inside a printed call. */
  lemma {:induction false} CallTextArgument(f: string, parts: seq<string>, i: nat)
    requires i < |parts|
    ensures var s := f + "(" + Join(parts, ", ") + ")";
      var oi := |f| + 1 + JoinOffset(parts, ", ", i);
      oi + |parts[i]| < |s| &&
      s[oi..oi + |parts[i]|] == parts[i]
  {
    var j0 := Join(parts, ", ");
    var head := f + "(";
    var ji := JoinOffset(parts, ", ", i);
    var pi := parts[i];
    JoinSlices(parts, ", ", i);
    Framed(head, j0, ji, ji + |pi|);
  }

  /** The separator after every argument but the last inside a printed call. */
  lemma {:induction false} CallTextSeparator(f: string, parts: seq<string>, i: nat)
    requires i + 1 < |parts|
    ensures var s := f + "(" + Join(parts, ", ") + ")";
      var e := |f| + 1 + JoinOffset(parts, ", ", i) + |parts[i]|;
      e + 2 < |s| && s[e..e + 2] == ", "
  {
    var j0 := Join(parts, ", ");
    var head := f + "(";
    var ji := JoinOffset(parts, ", ", i);
    var pi := parts[i];
    JoinSlices(parts, ", ", i);
    assert j0[ji + |pi|..ji + |pi| + 2] == ", ";
    Framed(head, j0, ji + |pi|, ji + |pi| + 2);
  }

  /** A slice of the joined arguments, seen inside the printed call. */
  lemma Framed(head: string, args: string, lo: nat, hi: nat)
    requires lo <= hi <= |args|
    ensures |head| + hi < |head + args + ")"|
    ensures (head + args + ")")[|head| + lo..|head| + hi] == args[lo..hi]
  {
    SliceOfLeft(head + args, ")", |head| + lo, |head| + hi);
    SliceOfRight(head, args, |head| + lo, |head| + hi);
  }

  /** `left BETWEEN start AND end`, with no parentheses added: the text begins
      with the left operand's and ends with the range end's. */
  lemma BetweenPrint(t: Token, left: Expression, rangeStart: Expression, rangeEnd: Expression)
    ensures var s := BetweenExpression(t, left, rangeStart, rangeEnd).String();
      var l, a, b := left.String(), rangeStart.String(), rangeEnd.String();
      |s| == |l| + |a| + |b| + 14 &&
      s[..|l|] == l &&
      s[|l|..|l| + 9] == " BETWEEN " &&
      s[|l| + 9..|l| + 9 + |a|] == a &&
      s[|l| + 9 + |a|..|l| + 14 + |a|] == " AND " &&
      s[|s| - |b|..] == b
  {
    BetweenText(left.String(), rangeStart.String(), rangeEnd.String());
  }

  /** The BETWEEN layout on plain text: where each part sits. */
  lemma BetweenText(l: string, a: string, b: string)
    ensures var s := l + " BETWEEN " + a + " AND " + b;
      |s| == |l| + |a| + |b| + 14 &&
      s[..|l|] == l &&
      s[|l|..|l| + 9] == " BETWEEN " &&
      s[|l| + 9..|l| + 9 + |a|] == a &&
      s[|l| + 9 + |a|..|l| + 14 + |a|] == " AND " &&
      s[|s| - |b|..] == b
  {
  }

  /** Every node reports its own token's literal, whatever its children are. */
  lemma TokenLiteralIsOwn(e: Expression, e': Expression)
    requires e.token == e'.token
    ensures e.TokenLiteral() == e.token.literal
    ensures e.TokenLiteral() == e'.TokenLiteral()
  {
  }

  /** The root prints and reports its literal exactly as its statement does: the
      literal is the statement's token's, not the wrapped expression's. */
  lemma DynamoDelegates(d: DynamoExpression)
    ensures d.String() == d.statement.String()
    ensures d.TokenLiteral() == d.statement.TokenLiteral() == d.statement.token.literal
    ensures d.statement.expression.None? ==> d.String() == ""
  {
  }

  /** The same tree with every token replaced by `t`. */
  function Retoken(e: Expression, t: Token): (r: Expression)
    ensures r.TokenLiteral() == t.literal
  {
    match e
    case Identifier(_, v) => Identifier(t, v)
    case PrefixExpression(_, op, right) => PrefixExpression(t, op, Retoken(right, t))
    case InfixExpression(_, left, op, right) => InfixExpression(t, Retoken(left, t), op, Retoken(right, t))
    case CallExpression(_, callee, arguments) =>
      CallExpression(t, Retoken(callee, t),
                     seq(|arguments|, i requires 0 <= i < |arguments| => Retoken(arguments[i], t)))
    case BetweenExpression(_, left, a, b) =>
      BetweenExpression(t, Retoken(left, t), Retoken(a, t), Retoken(b, t))
  }

  /** The printer reads identifier values and operators only, never a token:
      replacing every token in a tree leaves its text unchanged. */
  lemma {:induction false} PrintIgnoresTokens(e: Expression, t: Token)
    ensures Retoken(e, t).String() == e.String()
    decreases e
  {
    match e
    case Identifier(_, _) =>
    case PrefixExpression(_, _, right) =>
      PrintIgnoresTokens(right, t);
    case InfixExpression(_, left, _, right) =>
      PrintIgnoresTokens(left, t);
      PrintIgnoresTokens(right, t);
    case CallExpression(_, callee, arguments) =>
      PrintIgnoresTokens(callee, t);
      var r := Retoken(e, t);
      forall i | 0 <= i < |arguments|
        ensures Strings(r.arguments)[i] == Strings(arguments)[i]
      {
        PrintIgnoresTokens(arguments[i], t);
      }
      assert Strings(r.arguments) == Strings(arguments);
      CallPrint(r.token, r.callee, r.arguments);
      CallPrint(e.token, callee, arguments);
    case BetweenExpression(_, left, a, b) =>
      PrintIgnoresTokens(left, t);
      PrintIgnoresTokens(a, t);
      PrintIgnoresTokens(b, t);
  }

  /** No identifier value and no operator in the tree contains a parenthesis. */
  predicate NoParens(e: Expression)
  {
    match e
    case Identifier(_, v) => ParenFree(v)
    case PrefixExpression(_, op, right) => ParenFree(op) && NoParens(right)
    case InfixExpression(_, left, op, right) => NoParens(left) && ParenFree(op) && NoParens(right)
    case CallExpression(_, callee, arguments) =>
      NoParens(callee) && forall i :: 0 <= i < |arguments| ==> NoParens(arguments[i])
    case BetweenExpression(_, left, a, b) => NoParens(left) && NoParens(a) && NoParens(b)
  }

  /** How many parenthesis pairs the printer adds: one per prefix, infix and call
      node, none per identifier or BETWEEN. */
  function Pairs(e: Expression): nat
  {
    match e
    case Identifier(_, _) => 0
    case PrefixExpression(_, _, right) => 1 + Pairs(right)
    case InfixExpression(_, left, _, right) => 1 + Pairs(left) + Pairs(right)
    case CallExpression(_, callee, arguments) =>
      1 + Pairs(callee) + Sum(seq(|arguments|, i requires 0 <= i < |arguments| => Pairs(arguments[i])))
    case BetweenExpression(_, left, a, b) => Pairs(left) + Pairs(a) + Pairs(b)
  }

  /** Text of a prefix node whose operator has no parenthesis and whose operand is balanced. */
  lemma PrefixTextBalanced(op: string, right: string)
    requires ParenFree(op) && Balanced(right)
    ensures Enclosed("(" + op + right + ")")
    ensures Opens("(" + op + right + ")") == Opens(right) + 1
  {
    ParenFreeBalanced(op);
    BalancedConcat(op, right);
    Wrap(op + right);
    assert "(" + op + right + ")" == "(" + (op + right) + ")";
  }

  /** Text of an infix node whose operator has no parenthesis and whose operands are balanced. */
  lemma InfixTextBalanced(left: string, op: string, right: string)
    requires Balanced(left) && ParenFree(op) && Balanced(right)
    ensures Enclosed("(" + left + " " + op + " " + right + ")")
    ensures Opens("(" + left + " " + op + " " + right + ")") == Opens(left) + Opens(right) + 1
  {
    ParenFreeBalanced(" ");
    ParenFreeBalanced(op);
    BalancedConcat(left, " ");
    BalancedConcat(left + " ", op);
    BalancedConcat(left + " " + op, " ");
    BalancedConcat(left + " " + op + " ", right);
    var inner := left + " " + op + " " + right;
    Wrap(inner);
    Assoc("(", left + " " + op + " ", right);
    Assoc("(", left + " " + op, " ");
    Assoc("(", left + " ", op);
    Assoc("(", left, " ");
  }

  /** Text of a call whose callee text and joined argument text are balanced. */
  lemma CallTextBalanced(callee: string, args: string)
    requires Balanced(callee) && Balanced(args)
    ensures Enclosed("(" + args + ")")
    ensures Balanced(callee + "(" + args + ")")
    ensures Opens(callee + "(" + args + ")") == Opens(callee) + Opens(args) + 1
  {
    Wrap(args);
    BalancedConcat(callee, "(" + args + ")");
    assert callee + "(" + args + ")" == callee + ("(" + args + ")");
  }

  /** Text of a BETWEEN node whose three operands are balanced: no pair is added. */
  lemma BetweenTextBalanced(left: string, a: string, b: string)
    requires Balanced(left) && Balanced(a) && Balanced(b)
    ensures Balanced(left + " BETWEEN " + a + " AND " + b)
    ensures Opens(left + " BETWEEN " + a + " AND " + b) == Opens(left) + Opens(a) + Opens(b)
  {
    assert ParenFree(" BETWEEN ") && ParenFree(" AND ");
    ParenFreeBalanced(" BETWEEN ");
    ParenFreeBalanced(" AND ");
    BalancedConcat(left, " BETWEEN ");
    BalancedConcat(left + " BETWEEN ", a);
    BalancedConcat(left + " BETWEEN " + a, " AND ");
    BalancedConcat(left + " BETWEEN " + a + " AND ", b);
  }

  /** When no identifier value or operator contains a parenthesis, the printed text
      of any expression is balanced and holds exactly one pair per prefix, infix
      and call node. */
  lemma {:induction false} PrintBalanced(e: Expression)
    requires NoParens(e)
    ensures Balanced(e.String())
    ensures Opens(e.String()) == Pairs(e)
    decreases e, 1
  {
    match e
    case Identifier(_, v) =>
      ParenFreeBalanced(v);
    case PrefixExpression(_, op, right) =>
      PrintBalanced(right);
      PrefixTextBalanced(op, right.String());
    case InfixExpression(_, left, op, right) =>
      PrintBalanced(left);
      PrintBalanced(right);
      InfixTextBalanced(left.String(), op, right.String());
    case CallExpression(_, _, _) =>
      CallBalanced(e);
    case BetweenExpression(_, left, a, b) =>
      PrintBalanced(left);
      PrintBalanced(a);
      PrintBalanced(b);
      BetweenTextBalanced(left.String(), a.String(), b.String());
  }

  /** The call case of PrintBalanced; its arguments' text is joined balanced. */
  lemma {:induction false} CallBalanced(e: Expression)
    requires e.CallExpression? && NoParens(e)
    ensures Balanced(e.String())
    ensures Opens(e.String()) == Pairs(e)
    ensures Enclosed(e.String()[|e.callee.String()|..])
    decreases e, 0
  {
    var parts := Strings(e.arguments);
    forall i | 0 <= i < |parts|
      ensures Balanced(parts[i]) && Opens(parts[i]) == Pairs(e.arguments[i])
    {
      PrintBalanced(e.arguments[i]);
    }
    PrintBalanced(e.callee);
    JoinBalanced(parts, ", ");
    assert OpensEach(parts) == seq(|e.arguments|, i requires 0 <= i < |e.arguments| => Pairs(e.arguments[i]));
    CallTextBalanced(e.callee.String(), Join(parts, ", "));
    CallPrint(e.token, e.callee, e.arguments);
    assert e.String()[|e.callee.String()|..] == "(" + Join(parts, ", ") + ")";
  }

  /** Prefix and infix text is one parenthesised group whose outer pair matches;
      a call's text after its callee is one such group. */
  lemma PrintEnclosed(e: Expression)
    requires NoParens(e)
    ensures e.PrefixExpression? || e.InfixExpression? ==> Enclosed(e.String())
    ensures e.CallExpression? ==> |e.callee.String()| <= |e.String()| &&
                                  Enclosed(e.String()[|e.callee.String()|..])
  {
    match e
    case Identifier(_, _) =>
    case PrefixExpression(_, op, right) =>
      PrintBalanced(right);
      PrefixTextBalanced(op, right.String());
    case InfixExpression(_, left, op, right) =>
      PrintBalanced(left);
      PrintBalanced(right);
      InfixTextBalanced(left.String(), op, right.String());
    case CallExpression(_, _, _) =>
      CallBalanced(e);
    case BetweenExpression(_, _, _, _) =>
  }

  /** The printer loses the boundary between a prefix operator and its operand:
      it writes them with no space between, so moving characters from the end
      of the operator to the front of an identifier operand leaves the text
      unchanged. Telling the two trees apart is left to the lexer. */
  lemma PrefixBoundaryLost(t: Token, u: Token, op1: string, op2: string, v: string)
    ensures op2 != [] ==>
              PrefixExpression(t, op1 + op2, Identifier(u, v)) != PrefixExpression(t, op1, Identifier(u, op2 + v))
    ensures PrefixExpression(t, op1 + op2, Identifier(u, v)).String() ==
            PrefixExpression(t, op1, Identifier(u, op2 + v)).String()
  {
  }
}
