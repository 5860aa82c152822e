/** The expression parser in the form of the source: an object whose current token and error flag
    the parsing methods change. */
module ParserMachine {
  import opened Options
  import opened Parsing

  class Parser {
    /** The current token and those after it. */
    var toks: seq<Token>
    var hasError: bool

    constructor (toks: seq<Token>)
      ensures State() == At(toks)
    {
      this.toks, hasError := toks, false;
    }

    function State(): Input
      reads this
    {
      Input(toks, hasError)
    }

    method Advance()
      modifies this
      ensures State() == old(State()).Advance()
    {
      if !hasError && toks != [] {
        toks := toks[1..];
      }
    }

    method SetError()
      modifies this
      ensures State() == old(State()).Fail()
    {
      hasError := true;
    }

    /** expect_token. */
    method Expect(kind: Token)
      modifies this
      ensures State() == if old(State()).Cur() == kind then old(State()).Advance() else old(State()).Fail()
    {
      if State().Cur() != kind {
        SetError();
      } else {
        Advance();
      }
    }

    method ParseLiteral() returns (e: Option<Expr>)
      requires Enterable(State())
      modifies this
      ensures (e, State()) == Literal(old(State()))
      decreases |toks|, 0
    {
      match State().Cur()
      case IntTok(i) => Advance(); e := Some(IntLit(i));
      case RealTok(x) => Advance(); e := Some(RealLit(x));
      case StrTok(s) => Advance(); e := Some(StrLit(s));
      case NullTok => Advance(); e := Some(NullLit);
      case Ident(name) =>
        Advance();
        e := Some(Column(name));
        if State().Cur() == Dot {
          Advance();
          if State().Cur().Ident? {
            e := Some(Column(State().Cur().name));
            Advance();
          } else {
            SetError();
            e := None;
          }
        }
      case LParen =>
        Advance();
        e := ParseBinaryExpr();
        Expect(RParen);
      case Minus =>
        Advance();
        e := ParseLiteral();
        if e.Some? { e := Some(Unary(Minus, e.value)); }
      case Plus =>
        Advance();
        e := ParseLiteral();
        if e.Some? { e := Some(Unary(Plus, e.value)); }
      case _ =>
        SetError();
        e := None;
    }

    method ParseUnaryNot() returns (e: Option<Expr>)
      requires Enterable(State())
      modifies this
      ensures (e, State()) == UnaryNot(old(State()))
      decreases |toks|, 1
    {
      if IsKeyword(State().Cur(), Not, "NOT") {
        Advance();
        e := ParseUnaryNot();
        if e.Some? { e := Some(Unary(Not, e.value)); }
      } else {
        e := ParseLiteral();
      }
    }

    method ParseBinaryExpr() returns (e: Option<Expr>)
      requires Enterable(State())
      modifies this
      ensures (e, State()) == Expression(old(State()))
      decreases |toks|, 3
    {
      hide Literal, UnaryNot, Operator;
      ghost var st := State();
      e := ParseUnaryNot();
      if e.None? || hasError {
        return;
      }
      var left := e.value;
      while Infix(State().Cur())
        invariant |toks| < |st.toks|
        invariant hasError ==> !Infix(State().Cur())
        invariant Expression(st) == Operators(left, State())
        decreases |toks|
      {
        e := ParseOperator(left);
        if e.None? {
          return;
        }
        left := e.value;
      }
      e := Some(left);
    }

    /** The body of the operator loop. */
    method ParseOperator(left: Expr) returns (e: Option<Expr>)
      requires !State().err && Infix(State().Cur())
      modifies this
      ensures (e, State()) == Operator(left, old(State()))
      decreases |toks|, 1
    {
      hide Literal, UnaryNot, Expression, Membership;
      var op := State().Cur();
      Advance();
      if op == In {
        e := ParseMembership(left);
        return;
      }
      e := ParseBinaryExpr();
      if e.None? {
        return;
      }
      var operand := e.value;
      if op == Like {
        e := Some(LikeExpr(left, operand));
      } else if op != Between {
        e := Some(Binary(left, op, operand));
      } else if !IsKeyword(State().Cur(), And, "AND") {
        SetError();
        e := None;
      } else {
        AndIsNotNot(State().Cur());
        Advance();
        e := ParseBinaryExpr();
        if e.Some? { e := Some(BetweenExpr(left, operand, e.value)); }
      }
    }

    method ParseMembership(left: Expr) returns (e: Option<Expr>)
      requires !State().err
      modifies this
      ensures (e, State()) == Membership(left, old(State()))
      decreases |toks|, 5
    {
      hide Literal, UnaryNot, Expression;
      if State().Cur() != LParen {
        return Some(left);
      }
      Advance();
      if State().Cur() == RParen {
        Expect(RParen);
        return Some(InExpr(left, []));
      }
      ghost var st := State();
      var list := [];
      var more := true;
      while more
        invariant more ==> |toks| <= |st.toks| && (hasError ==> State().Cur() == Comma)
        invariant more ==> List([], st) == List(list, State())
        invariant !more ==> List([], st) == (Some(list), State())
        decreases more, |toks|
      {
        ghost var before := State();
        var item := ParseBinaryExpr();
        if item.None? {
          return None;
        }
        list := list + [item.value];
        more := State().Cur() == Comma;
        if more {
          Advance();
        }
      }
      Expect(RParen);
      e := Some(InExpr(left, list));
    }
  }
}
