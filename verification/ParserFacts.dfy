/** Consequences of how the operator loop works: BETWEEN cannot be accepted, and chains of
    operators nest to the right whatever their precedence. */
module ParserFacts {
  import opened Options
  import opened Parsing

  // ----- The precedence table -----

  /** The levels from weak to strong, and zero for every other token. */
  lemma PrecedenceLevels(t: Token)
    ensures 0 < Precedence(Or) < Precedence(And) < Precedence(Not) < Precedence(Eq) < Precedence(LikeOp)
    ensures Precedence(LikeOp) < Precedence(Plus) < Precedence(Star)
    ensures t in {Eq, Neq, Lt, Gt, Lte, Gte} <==> Precedence(t) == Precedence(Eq)
    ensures t in {LikeOp, InOp, BetweenOp} <==> Precedence(t) == Precedence(LikeOp)
    ensures t in {Plus, Minus} <==> Precedence(t) == Precedence(Plus)
    ensures t in {Star, Slash, Percent} <==> Precedence(t) == Precedence(Star)
    ensures Precedence(t) == 0 <==> t !in {Or, And, Not, Eq, Neq, Lt, Gt, Lte, Gte, LikeOp, InOp, BetweenOp, Plus,
                                          Minus, Star, Slash, Percent}
  {
  }

  // ----- BETWEEN -----

  predicate NoBetween(e: Expr)
    decreases e
  {
    match e
    case Unary(_, x) => NoBetween(x)
    case Binary(l, _, r) => NoBetween(l) && NoBetween(r)
    case LikeExpr(x, p) => NoBetween(x) && NoBetween(p)
    case InExpr(x, list) => NoBetween(x) && forall i :: 0 <= i < |list| ==> NoBetween(list[i])
    case BetweenExpr(_, _, _) => false
    case _ => true
  }

  /** No identifier token is spelled like the keyword AND.  The lexer produces none, as
      Keywords.IdentifiersAreNotWords shows. */
  predicate NoAndIdent(toks: seq<Token>) {
    forall i :: 0 <= i < |toks| && toks[i].Ident? ==> !Spells(toks[i].name, "AND")
  }

  ghost predicate Clean(r: Parse) {
    NoAndIdent(r.1.toks) && (r.0.Some? ==> NoBetween(r.0.value))
  }

  lemma {:induction false} LiteralClean(st: Input)
    requires Enterable(st) && NoAndIdent(st.toks)
    ensures Clean(Literal(st))
    decreases |st.toks|, 0
  {
    hide Spells;
    match st.Cur()
    case LParen => ExpressionClean(st.Advance());
    case Minus => LiteralClean(st.Advance());
    case Plus => LiteralClean(st.Advance());
    case _ =>
  }

  lemma {:induction false} UnaryNotClean(st: Input)
    requires Enterable(st) && NoAndIdent(st.toks)
    ensures Clean(UnaryNot(st))
    decreases |st.toks|, 1
  {
    hide Spells;
    if IsKeyword(st.Cur(), Not, "NOT") {
      UnaryNotClean(st.Advance());
    } else {
      LiteralClean(st);
    }
  }

  lemma {:induction false} ExpressionClean(st: Input)
    requires Enterable(st) && NoAndIdent(st.toks)
    ensures Clean(Expression(st))
    decreases |st.toks|, 3
  {
    hide Spells;
    UnaryNotClean(st);
    var (left, st1) := UnaryNot(st);
    if left.Some? && !st1.err {
      OperatorsClean(left.value, st1);
    }
  }

  lemma {:induction false} OperatorsClean(left: Expr, st: Input)
    requires (st.err ==> !Infix(st.Cur())) && NoAndIdent(st.toks) && NoBetween(left)
    ensures Clean(Operators(left, st))
    decreases |st.toks|, 2
  {
    hide Spells;
    if Infix(st.Cur()) {
      OperatorClean(left, st);
      var (e, st1) := Operator(left, st);
      if e.Some? {
        OperatorsClean(e.value, st1);
      }
    }
  }

  /** The low bound of a BETWEEN has consumed every operator, so AND cannot follow it. */
  lemma {:induction false} OperatorClean(left: Expr, st: Input)
    requires !st.err && Infix(st.Cur()) && NoAndIdent(st.toks) && NoBetween(left)
    ensures Clean(Operator(left, st))
    decreases |st.toks|, 1
  {
    hide Spells, Expression, Membership;
    if st.Cur() == In {
      MembershipClean(left, st.Advance());
    } else {
      ExpressionClean(st.Advance());
    }
  }

  lemma {:induction false} MembershipClean(left: Expr, st: Input)
    requires !st.err && NoAndIdent(st.toks) && NoBetween(left)
    ensures Clean(Membership(left, st))
    decreases |st.toks|, 5
  {
    hide Spells, List, Expression;
    if st.Cur() == LParen && st.Advance().Cur() != RParen {
      ListClean([], st.Advance());
    }
  }

  lemma {:induction false} ListClean(done: seq<Expr>, st: Input)
    requires (st.err ==> st.Cur() == Comma) && NoAndIdent(st.toks)
    requires forall i :: 0 <= i < |done| ==> NoBetween(done[i])
    ensures var r := List(done, st);
      NoAndIdent(r.1.toks) && (r.0.Some? ==> forall i :: 0 <= i < |r.0.value| ==> NoBetween(r.0.value[i]))
    decreases |st.toks|, 4
  {
    hide Spells;
    ExpressionClean(st);
    var (e, st1) := Expression(st);
    if e.Some? && st1.Cur() == Comma {
      ListClean(done + [e.value], st1.Advance());
    }
  }

  /** No expression containing BETWEEN is ever accepted from tokens the lexer can produce. */
  lemma BetweenNeverAccepted(toks: seq<Token>)
    requires NoAndIdent(toks) && Expression(At(toks)).0.Some?
    ensures NoBetween(Expression(At(toks)).0.value)
  {
    ExpressionClean(At(toks));
  }

  /** A value, BETWEEN, a low bound, a separator and a high bound. */
  function BetweenTokens(x: Expr, low: Expr, sep: Token, high: Expr): seq<Token> {
    Print(x) + ([Between] + (Print(low) + ([sep] + Print(high))))
  }

  lemma RegroupBetween(x: Expr, low: Expr, sep: Token, high: Expr, rest: seq<Token>)
    ensures BetweenTokens(x, low, sep, high) + rest ==
      Print(x) + ([Between] + (Print(low) + ([sep] + (Print(high) + rest))))
    ensures ([Between] + (Print(low) + ([sep] + (Print(high) + rest))))[1..] ==
      Print(low) + ([sep] + (Print(high) + rest))
    ensures ([sep] + (Print(high) + rest))[1..] == Print(high) + rest
  {
    hide Print;
  }

  /** The loop has taken the value and stands on BETWEEN. */
  lemma BetweenStep(x: Expr, body: seq<Token>)
    requires Printable(x)
    ensures Expression(At(Print(x) + ([Between] + body))) == Operators(x, At([Between] + body))
  {
    hide Literal, Expression, Operators, Print, Printable, IsKeyword;
    PrintParses(x, [Between] + body);
    FirstToken(x, [Between] + body);
    LiteralIsExpression(At(Print(x) + ([Between] + body)), x, At([Between] + body));
  }

  /** For all operands BETWEEN is accepted exactly when the word between its bounds reaches the
      parser as an identifier: the keyword AND is swallowed by the low bound. */
  lemma BetweenAcceptedIff(x: Expr, low: Expr, sep: Token, high: Expr, rest: seq<Token>)
    requires Printable(x) && Printable(low) && Printable(high) && IsKeyword(sep, And, "AND")
    requires !Infix(At(rest).Cur()) && At(rest).Cur() != Dot && !IsKeyword(At(rest).Cur(), And, "AND")
    ensures Expression(At(BetweenTokens(x, low, sep, high) + rest)) ==
      if sep.Ident? then (Some(BetweenExpr(x, low, high)), At(rest)) else (None, At(rest).Fail())
  {
    hide Literal, Expression, Operators, Print, Printable, Spells;
    var tail := Print(high) + rest;
    var body := Print(low) + ([sep] + tail);
    RegroupBetween(x, low, sep, high, rest);
    BetweenStep(x, body);
    RoundTrip(high, rest);
    if sep.Ident? {
      RoundTrip(low, [sep] + tail);
      BetweenAccepts(x, At([Between] + body), low, At([sep] + tail), high, At(rest));
    } else {
      PrintParses(low, [sep] + tail);
      FirstToken(low, [sep] + tail);
      InfixIsExpression(At(body), low, At([sep] + tail), high, At(rest));
      BetweenRefuses(x, At([Between] + body), Binary(low, sep, high), At(rest));
    }
  }

  // ----- IS -----

  /** IS binds with precedence zero, so the loop stops before it and its branch is never reached:
      every expression ends where IS begins. */
  lemma StopsBeforeIs(e: Expr, rest: seq<Token>)
    requires Printable(e)
    ensures Expression(At(Print(e) + ([Is] + rest))) == (Some(e), At([Is] + rest))
  {
    hide Expression, Print, Printable;
    RoundTrip(e, [Is] + rest);
  }

  // ----- Chains of operators -----

  predicate IsOperator(t: Token) {
    Infix(t) && t != Like && t != In && t != Between
  }

  /** Operands and the operators between them. */
  predicate IsChain(xs: seq<Expr>, ops: seq<Token>) {
    && |xs| == |ops| + 1
    && (forall i :: 0 <= i < |xs| ==> Printable(xs[i]))
    && (forall i :: 0 <= i < |ops| ==> IsOperator(ops[i]))
  }

  /** The chain without any parentheses between its operands. */
  function ChainTokens(xs: seq<Expr>, ops: seq<Token>): seq<Token>
    requires |xs| == |ops| + 1
    decreases |ops|
  {
    Print(xs[0]) + if ops == [] then [] else [ops[0]] + ChainTokens(xs[1..], ops[1..])
  }

  function RightNest(xs: seq<Expr>, ops: seq<Token>): Expr
    requires |xs| == |ops| + 1
    decreases |ops|
  {
    if ops == [] then xs[0] else Binary(xs[0], ops[0], RightNest(xs[1..], ops[1..]))
  }

  /** The loop recurses for its right operand, so every chain nests to the right. */
  lemma {:induction false} ChainParses(xs: seq<Expr>, ops: seq<Token>, rest: seq<Token>)
    requires IsChain(xs, ops) && !Infix(At(rest).Cur()) && At(rest).Cur() != Dot
    ensures Expression(At(ChainTokens(xs, ops) + rest)) == (Some(RightNest(xs, ops)), At(rest))
    decreases |ops|
  {
    hide Literal, Expression, Printable, IsKeyword, Print, ChainTokens, RightNest;
    ChainSteps(xs, ops, rest);
    if ops == [] {
      RoundTrip(xs[0], rest);
    } else {
      var tail := ChainTokens(xs[1..], ops[1..]) + rest;
      ChainParses(xs[1..], ops[1..], rest);
      PrintParses(xs[0], [ops[0]] + tail);
      FirstToken(xs[0], [ops[0]] + tail);
      InfixIsExpression(At(Print(xs[0]) + ([ops[0]] + tail)), xs[0], At([ops[0]] + tail),
                        RightNest(xs[1..], ops[1..]), At(rest));
    }
  }

  lemma ChainSteps(xs: seq<Expr>, ops: seq<Token>, rest: seq<Token>)
    requires |xs| == |ops| + 1
    ensures ops == [] ==> ChainTokens(xs, ops) + rest == Print(xs[0]) + rest && RightNest(xs, ops) == xs[0]
    ensures ops != [] ==> RightNest(xs, ops) == Binary(xs[0], ops[0], RightNest(xs[1..], ops[1..]))
    ensures ops != [] ==> var tail := ChainTokens(xs[1..], ops[1..]) + rest;
      ChainTokens(xs, ops) + rest == Print(xs[0]) + ([ops[0]] + tail) && ([ops[0]] + tail)[1..] == tail
  {
    hide Print;
  }

  /** Where precedence and left associativity put the root: the last of the weakest operators. */
  function RootIndex(ops: seq<Token>): (k: nat)
    requires ops != []
    ensures k < |ops|
    ensures forall i :: 0 <= i < |ops| ==> Precedence(ops[k]) <= Precedence(ops[i])
    ensures forall i :: k < i < |ops| ==> Precedence(ops[k]) < Precedence(ops[i])
    decreases |ops|
  {
    if |ops| == 1 then 0
    else
      var k := 1 + RootIndex(ops[1..]);
      assert forall i :: 1 <= i < |ops| ==> ops[i] == ops[1..][i - 1];
      if Precedence(ops[0]) < Precedence(ops[k]) then 0 else k
  }

  /** The tree the precedence table describes, operators of equal precedence grouping left. */
  function PrecedenceTree(xs: seq<Expr>, ops: seq<Token>): Expr
    requires |xs| == |ops| + 1
    decreases |ops|
  {
    if ops == [] then xs[0]
    else
      var k := RootIndex(ops);
      Binary(PrecedenceTree(xs[..k + 1], ops[..k]), ops[k], PrecedenceTree(xs[k + 1..], ops[k + 1..]))
  }

  function Weight(e: Expr): nat {
    match e
    case Binary(l, _, r) => 1 + Weight(l) + Weight(r)
    case _ => 1
  }

  lemma {:induction false} PrecedenceWeight(xs: seq<Expr>, ops: seq<Token>)
    requires |xs| == |ops| + 1
    ensures Weight(PrecedenceTree(xs, ops)) >= Weight(xs[0]) + |ops|
    decreases |ops|
  {
    if ops != [] {
      var k := RootIndex(ops);
      PrecedenceWeight(xs[..k + 1], ops[..k]);
      PrecedenceWeight(xs[k + 1..], ops[k + 1..]);
    }
  }

  predicate StrictlyTightening(ops: seq<Token>) {
    forall i, j :: 0 <= i < j < |ops| ==> Precedence(ops[i]) < Precedence(ops[j])
  }

  lemma {:induction false} NestIff(xs: seq<Expr>, ops: seq<Token>)
    requires |xs| == |ops| + 1
    ensures RightNest(xs, ops) == PrecedenceTree(xs, ops) <==> StrictlyTightening(ops)
    decreases |ops|
  {
    hide Precedence;
    if ops != [] {
      var k := RootIndex(ops);
      if k == 0 {
        NestIff(xs[1..], ops[1..]);
        assert forall i :: 1 <= i < |ops| ==> ops[i] == ops[1..][i - 1];
      } else {
        PrecedenceWeight(xs[..k + 1], ops[..k]);
        assert Precedence(ops[k]) <= Precedence(ops[0]);
      }
    }
  }

  /** A chain written without parentheses is parsed as the precedence table says exactly when its
      operators bind strictly tighter from left to right. */
  lemma PrecedenceHonouredIff(xs: seq<Expr>, ops: seq<Token>, rest: seq<Token>)
    requires IsChain(xs, ops) && !Infix(At(rest).Cur()) && At(rest).Cur() != Dot
    ensures Expression(At(ChainTokens(xs, ops) + rest)).0 == Some(PrecedenceTree(xs, ops)) <==> StrictlyTightening(ops)
  {
    ChainParses(xs, ops, rest);
    NestIff(xs, ops);
  }
}
