/** The expression parser: recursive descent over a token stream with a sticky error flag. */
module Parsing {
  import opened Options

  datatype Token =
    | Eof | Other
    | IntTok(i: int) | RealTok(r: real) | StrTok(s: string) | NullTok | Ident(name: string)
    | LParen | RParen | Comma | Dot
    | Plus | Minus | Star | Slash | Percent
    | Eq | Neq | Lt | Gt | Lte | Gte
    | LikeOp | InOp | BetweenOp
    | And | Or | Not | Like | In | Between | Is

  datatype Expr =
    | IntLit(i: int) | RealLit(r: real) | StrLit(s: string) | NullLit
    | Column(name: string)
    | Unary(op: Token, operand: Expr)
    | Binary(left: Expr, bop: Token, right: Expr)
    | LikeExpr(str: Expr, pattern: Expr)
    | InExpr(item: Expr, list: seq<Expr>)
    | BetweenExpr(value: Expr, low: Expr, high: Expr)

  /** The tokens not yet consumed and whether an error is pending. */
  datatype Input = Input(toks: seq<Token>, err: bool) {
    function Cur(): Token {
      if toks == [] then Eof else toks[0]
    }

    /** advance: does nothing once an error is pending. */
    function Advance(): Input {
      if err || toks == [] then this else Input(toks[1..], false)
    }

    function Fail(): Input {
      this.(err := true)
    }
  }

  /** get_precedence. */
  function Precedence(t: Token): nat {
    match t
    case Or => 4
    case And => 5
    case Not => 6
    case Eq | Neq | Lt | Gt | Lte | Gte => 7
    case LikeOp | InOp | BetweenOp => 8
    case Plus | Minus => 9
    case Star | Slash | Percent => 10
    case _ => 0
  }

  /** Tokens after which the operator loop goes round again. */
  predicate Infix(t: Token) {
    t == Like || t == In || t == Between || (Precedence(t) != 0 && t != Not)
  }

  function Upper(c: char): char {
    if 'a' <= c <= 'z' then (c as int - 32) as char else c
  }

  predicate Spells(name: string, keyword: string) {
    |name| == |keyword| && forall i :: 0 <= i < |name| ==> Upper(name[i]) == keyword[i]
  }

  /** check_keyword: the keyword's own token, or an identifier spelled like it. */
  predicate IsKeyword(t: Token, kind: Token, keyword: string) {
    t == kind || (t.Ident? && Spells(t.name, keyword))
  }

  /** Capitals do not matter. */
  lemma SpellsIff(name: string)
    ensures Spells(name, "AND") <==> |name| == 3 && name[0] in "Aa" && name[1] in "Nn" && name[2] in "Dd"
    ensures Spells(name, "NOT") <==> |name| == 3 && name[0] in "Nn" && name[1] in "Oo" && name[2] in "Tt"
  {
  }

  lemma AndIsNotNot(t: Token)
    requires t.Ident? && Spells(t.name, "AND")
    ensures !IsKeyword(t, Not, "NOT")
  {
    assert Upper(t.name[0]) == 'A';
  }

  /** With an error pending the parser is only ever re-entered on a token that ends the descent. */
  predicate Enterable(st: Input) {
    st.err ==> st.Cur() == Comma || (st.Cur().Ident? && !IsKeyword(st.Cur(), Not, "NOT"))
  }

  // ----- The parser as functions -----

  type Parse = (Option<Expr>, Input)

  /** What every parsing function promises about its result. */
  predicate Sound(st: Input, r: Parse) {
    && |r.1.toks| <= |st.toks|
    && (st.err ==> r.1.err)
    && (r.0.None? ==> r.1.err)
    && (r.0.Some? && !st.err ==> |r.1.toks| < |st.toks|)
    && (r.0.Some? && r.1.err ==> !Infix(r.1.Cur()))
    && (st.err && st.Cur() == Comma ==> r.0.None?)
  }

  function Literal(st: Input): (r: Parse)
    requires Enterable(st)
    ensures Sound(st, r)
    decreases |st.toks|, 0
  {
    match st.Cur()
    case IntTok(i) => (Some(IntLit(i)), st.Advance())
    case RealTok(x) => (Some(RealLit(x)), st.Advance())
    case StrTok(s) => (Some(StrLit(s)), st.Advance())
    case NullTok => (Some(NullLit), st.Advance())
    case Ident(name) =>
      var st1 := st.Advance();
      if st1.Cur() != Dot then (Some(Column(name)), st1)
      else
        var st2 := st1.Advance();
        if st2.Cur().Ident? then (Some(Column(st2.Cur().name)), st2.Advance()) else (None, st2.Fail())
    case LParen =>
      var (e, st1) := Expression(st.Advance());
      (e, if st1.Cur() == RParen then st1.Advance() else st1.Fail())
    case Minus =>
      var (e, st1) := Literal(st.Advance());
      (if e.Some? then Some(Unary(Minus, e.value)) else None, st1)
    case Plus =>
      var (e, st1) := Literal(st.Advance());
      (if e.Some? then Some(Unary(Plus, e.value)) else None, st1)
    case _ => (None, st.Fail())
  }

  function UnaryNot(st: Input): (r: Parse)
    requires Enterable(st)
    ensures Sound(st, r)
    decreases |st.toks|, 1
  {
    if IsKeyword(st.Cur(), Not, "NOT") then
      var (e, st1) := UnaryNot(st.Advance());
      (if e.Some? then Some(Unary(Not, e.value)) else None, st1)
    else
      Literal(st)
  }

  /** parse_binary_expr, whose precedence argument is ignored, and parse_expression. */
  function Expression(st: Input): (r: Parse)
    requires Enterable(st)
    ensures Sound(st, r)
    ensures r.0.Some? ==> !Infix(r.1.Cur())
    decreases |st.toks|, 3
  {
    var (left, st1) := UnaryNot(st);
    if left.None? || st1.err then (left, st1) else Operators(left.value, st1)
  }

  /** The operator loop. */
  function Operators(left: Expr, st: Input): (r: Parse)
    requires st.err ==> !Infix(st.Cur())
    ensures |r.1.toks| <= |st.toks|
    ensures st.err ==> r.1.err
    ensures r.0.None? ==> r.1.err
    ensures r.0.Some? ==> !Infix(r.1.Cur())
    decreases |st.toks|, 2
  {
    if !Infix(st.Cur()) then (Some(left), st)
    else
      var (e, st1) := Operator(left, st);
      if e.None? then (None, st1) else Operators(e.value, st1)
  }

  /** One round of the loop, on an operator: the new left operand. */
  function Operator(left: Expr, st: Input): (r: Parse)
    requires !st.err && Infix(st.Cur())
    ensures |r.1.toks| < |st.toks|
    ensures r.0.None? ==> r.1.err
    ensures r.0.Some? && r.1.err ==> !Infix(r.1.Cur())
    decreases |st.toks|, 1
  {
    var op, st1 := st.Cur(), st.Advance();
    if op == In then Membership(left, st1)
    else
      var (e, st2) := Expression(st1);
      if e.None? then (None, st2)
      else if op == Like then (Some(LikeExpr(left, e.value)), st2)
      else if op != Between then (Some(Binary(left, op, e.value)), st2)
      else if !IsKeyword(st2.Cur(), And, "AND") then (None, st2.Fail())
      else
        AndIsNotNot(st2.Cur());
        var (high, st3) := Expression(st2.Advance());
        (if high.None? then None else Some(BetweenExpr(left, e.value, high.value)), st3)
  }

  /** What follows IN; without a parenthesis the keyword is silently dropped. */
  function Membership(left: Expr, st: Input): (r: Parse)
    requires !st.err
    ensures |r.1.toks| <= |st.toks|
    ensures r.0.None? ==> r.1.err
    ensures r.0.Some? && r.1.err ==> !Infix(r.1.Cur())
    decreases |st.toks|, 5
  {
    if st.Cur() != LParen then (Some(left), st)
    else
      var st1 := st.Advance();
      if st1.Cur() == RParen then (Some(InExpr(left, [])), st1.Advance())
      else
        var (list, st2) := List([], st1);
        if list.None? then (None, st2)
        else (Some(InExpr(left, list.value)), if st2.Cur() == RParen then st2.Advance() else st2.Fail())
  }

  /** The elements of an IN list, up to but not including the closing parenthesis. */
  function List(done: seq<Expr>, st: Input): (r: (Option<seq<Expr>>, Input))
    requires st.err ==> st.Cur() == Comma
    ensures |r.1.toks| <= |st.toks|
    ensures st.err ==> r.1.err
    ensures r.0.None? ==> r.1.err
    ensures r.0.Some? ==> !Infix(r.1.Cur())
    decreases |st.toks|, 4
  {
    var (e, st1) := Expression(st);
    if e.None? then (None, st1)
    else if st1.Cur() == Comma then List(done + [e.value], st1.Advance())
    else (Some(done + [e.value]), st1)
  }

  // ----- Fully parenthesised form -----

  function Print(e: Expr): (toks: seq<Token>)
    ensures |toks| > 0
    decreases e, 1
  {
    match e
    case IntLit(i) => [IntTok(i)]
    case RealLit(x) => [RealTok(x)]
    case StrLit(s) => [StrTok(s)]
    case NullLit => [NullTok]
    case Column(name) => [Ident(name)]
    case Unary(op, x) => [LParen, op] + Print(x) + [RParen]
    case Binary(l, op, r) => [LParen] + Print(l) + [op] + Print(r) + [RParen]
    case LikeExpr(x, p) => [LParen] + Print(x) + [Like] + Print(p) + [RParen]
    case InExpr(x, list) => [LParen] + Print(x) + [In, LParen] + PrintList(list) + [RParen, RParen]
    case BetweenExpr(x, low, high) => [LParen] + Print(x) + [Between] + Print(low) + [And] + Print(high) + [RParen]
  }

  function PrintList(list: seq<Expr>): seq<Token>
    decreases list, 0
  {
    if list == [] then []
    else if |list| == 1 then Print(list[0])
    else Print(list[0]) + [Comma] + PrintList(list[1..])
  }

  /** Expressions over literals, unqualified columns, unary minus, plus and NOT, the binary
      operators, LIKE and IN: no BETWEEN, and no column named NOT. */
  predicate Printable(e: Expr)
    decreases e
  {
    match e
    case Column(name) => !Spells(name, "NOT")
    case Unary(op, x) => (op == Minus || op == Plus || op == Not) && Printable(x)
    case Binary(l, op, r) => Infix(op) && op != Like && op != In && op != Between && Printable(l) && Printable(r)
    case LikeExpr(x, p) => Printable(x) && Printable(p)
    case InExpr(x, list) => Printable(x) && forall i :: 0 <= i < |list| ==> Printable(list[i])
    case BetweenExpr(_, _, _) => false
    case _ => true
  }

  lemma FirstToken(e: Expr, rest: seq<Token>)
    requires Printable(e)
    ensures var t := (Print(e) + rest)[0];
      !IsKeyword(t, Not, "NOT") && t != RParen && !Infix(t)
  {
  }

  function At(toks: seq<Token>): Input {
    Input(toks, false)
  }

  /** A literal not followed by an operator is the whole expression. */
  lemma LiteralIsExpression(st: Input, e: Expr, st1: Input)
    requires !st.err && !IsKeyword(st.Cur(), Not, "NOT") && Literal(st) == (Some(e), st1) && !st1.err
    ensures Expression(st) == Operators(e, st1)
    ensures !Infix(st1.Cur()) ==> Expression(st) == (Some(e), st1)
  {
  }

  lemma RegroupUnary(op: Token, x: seq<Token>, rest: seq<Token>)
    ensures [LParen, op] + x + [RParen] + rest == [LParen] + ([op] + x) + [RParen] + rest
    ensures ([op] + x + ([RParen] + rest))[1..] == x + ([RParen] + rest)
  {
  }

  lemma RegroupInfix(l: seq<Token>, op: Token, r: seq<Token>, rest: seq<Token>)
    ensures [LParen] + l + [op] + r + [RParen] + rest == [LParen] + (l + [op] + r) + [RParen] + rest
    ensures l + [op] + r + ([RParen] + rest) == l + ([op] + (r + ([RParen] + rest)))
    ensures ([op] + (r + ([RParen] + rest)))[1..] == r + ([RParen] + rest)
  {
  }

  lemma AtomParses(e: Expr, rest: seq<Token>)
    requires e.IntLit? || e.RealLit? || e.StrLit? || e.NullLit? || e.Column?
    requires Printable(e) && At(rest).Cur() != Dot
    ensures Literal(At(Print(e) + rest)) == (Some(e), At(rest))
  {
  }

  lemma {:induction false} PrintParses(e: Expr, rest: seq<Token>)
    requires Printable(e) && At(rest).Cur() != Dot
    ensures Literal(At(Print(e) + rest)) == (Some(e), At(rest))
    decreases e, 1
  {
    hide Literal;
    match e
    case Unary(op, x) => PrintUnary(op, x, rest);
    case Binary(l, op, r) => InfixPrints(e, l, op, r, rest);
    case LikeExpr(x, p) => InfixPrints(e, x, Like, p, rest);
    case InExpr(x, list) => PrintIn(x, list, rest);
    case _ => AtomParses(e, rest);
  }

  /** Parsing the parenthesised form of an expression, followed by a token that is neither an
      operator nor a dot, gives back exactly that tree and consumes exactly those tokens. */
  lemma {:induction false} RoundTrip(e: Expr, rest: seq<Token>)
    requires Printable(e) && !Infix(At(rest).Cur()) && At(rest).Cur() != Dot
    ensures Expression(At(Print(e) + rest)) == (Some(e), At(rest))
    decreases e, 2
  {
    PrintParses(e, rest);
    FirstToken(e, rest);
    LiteralIsExpression(At(Print(e) + rest), e, At(rest));
  }

  /** An opening parenthesis, an expression and a closing one. */
  lemma Parenthesised(inner: seq<Token>, e: Expr, rest: seq<Token>)
    requires Expression(At(inner + ([RParen] + rest))) == (Some(e), At([RParen] + rest))
    ensures Literal(At([LParen] + inner + [RParen] + rest)) == (Some(e), At(rest))
  {
    var toks := [LParen] + inner + [RParen] + rest;
    assert toks[1..] == inner + ([RParen] + rest);
    assert ([RParen] + rest)[1..] == rest;
  }

  lemma UnaryIsExpression(st: Input, x: Expr, st1: Input)
    requires !st.err && (st.Cur() == Minus || st.Cur() == Plus || st.Cur() == Not)
    requires !IsKeyword(st.Advance().Cur(), Not, "NOT") && Literal(st.Advance()) == (Some(x), st1)
    requires !st1.err && !Infix(st1.Cur())
    ensures Expression(st) == (Some(Unary(st.Cur(), x)), st1)
  {
    if st.Cur() == Not {
      assert UnaryNot(st.Advance()) == (Some(x), st1);
      assert UnaryNot(st) == (Some(Unary(Not, x)), st1);
      assert Operators(Unary(Not, x), st1) == (Some(Unary(Not, x)), st1);
    } else {
      assert Literal(st) == (Some(Unary(st.Cur(), x)), st1);
      LiteralIsExpression(st, Unary(st.Cur(), x), st1);
    }
  }

  /** An operand, an infix operator other than IN and BETWEEN, and a second operand. */
  lemma InfixIsExpression(st: Input, l: Expr, st1: Input, r: Expr, st2: Input)
    requires !st.err && !IsKeyword(st.Cur(), Not, "NOT") && Literal(st) == (Some(l), st1) && !st1.err
    requires Infix(st1.Cur()) && st1.Cur() != In && st1.Cur() != Between
    requires Expression(st1.Advance()) == (Some(r), st2) && !st2.err
    ensures Expression(st) == (Some(if st1.Cur() == Like then LikeExpr(l, r) else Binary(l, st1.Cur(), r)), st2)
  {
    LiteralIsExpression(st, l, st1);
  }

  lemma {:induction false} PrintUnary(op: Token, x: Expr, rest: seq<Token>)
    requires (op == Minus || op == Plus || op == Not) && Printable(x)
    ensures Literal(At(Print(Unary(op, x)) + rest)) == (Some(Unary(op, x)), At(rest))
    decreases Unary(op, x), 0
  {
    hide Literal, Expression, Printable, IsKeyword;
    var close, inner := [RParen] + rest, [op] + Print(x);
    PrintParses(x, close);
    FirstToken(x, close);
    RegroupUnary(op, Print(x), rest);
    UnaryIsExpression(At(inner + close), x, At(close));
    Parenthesised(inner, Unary(op, x), rest);
  }

  lemma {:induction false} InfixPrints(e: Expr, l: Expr, op: Token, r: Expr, rest: seq<Token>)
    requires e == if op == Like then LikeExpr(l, r) else Binary(l, op, r)
    requires Infix(op) && op != In && op != Between && Printable(l) && Printable(r)
    ensures Literal(At(Print(e) + rest)) == (Some(e), At(rest))
    decreases e, 0
  {
    hide Literal, Expression, Printable, IsKeyword;
    var close, inner := [RParen] + rest, Print(l) + [op] + Print(r);
    var tail := [op] + (Print(r) + close);
    PrintParses(l, tail);
    FirstToken(l, tail);
    RoundTrip(r, close);
    RegroupInfix(Print(l), op, Print(r), rest);
    InfixIsExpression(At(inner + close), l, At(tail), r, At(close));
    Parenthesised(inner, e, rest);
  }

  // ----- IN lists -----

  lemma RegroupIn(x: seq<Token>, list: seq<Token>, rest: seq<Token>)
    ensures [LParen] + x + [In, LParen] + list + [RParen, RParen] + rest ==
      [LParen] + (x + [In, LParen] + list + [RParen]) + [RParen] + rest
    ensures x + [In, LParen] + list + [RParen] + ([RParen] + rest) ==
      x + ([In, LParen] + (list + ([RParen] + ([RParen] + rest))))
  {
  }

  /** The elements of a list parse back in order, up to the closing parenthesis. */
  lemma {:induction false} ListParses(done: seq<Expr>, list: seq<Expr>, rest: seq<Token>)
    requires list != [] && forall i :: 0 <= i < |list| ==> Printable(list[i])
    ensures List(done, At(PrintList(list) + ([RParen] + rest))) == (Some(done + list), At([RParen] + rest))
    decreases list, 3
  {
    hide Expression, Printable;
    var close := [RParen] + rest;
    if |list| == 1 {
      RoundTrip(list[0], close);
      assert done + list == done + [list[0]];
    } else {
      var tail := [Comma] + (PrintList(list[1..]) + close);
      assert PrintList(list) + close == Print(list[0]) + tail;
      assert tail[1..] == PrintList(list[1..]) + close;
      RoundTrip(list[0], tail);
      ListParses(done + [list[0]], list[1..], rest);
      assert done + [list[0]] + list[1..] == done + list;
    }
  }

  lemma MembershipParses(x: Expr, list: seq<Expr>, rest: seq<Token>)
    requires forall i :: 0 <= i < |list| ==> Printable(list[i])
    requires list != [] ==>
      List([], At(PrintList(list) + ([RParen] + rest))) == (Some(list), At([RParen] + rest))
    ensures Membership(x, At([LParen] + (PrintList(list) + ([RParen] + rest)))) == (Some(InExpr(x, list)), At(rest))
  {
    hide List;
    var body := PrintList(list) + ([RParen] + rest);
    assert ([LParen] + body)[1..] == body;
    assert ([RParen] + rest)[1..] == rest;
    if list == [] {
      assert body == [RParen] + rest;
    } else {
      FirstToken(list[0], []);
      assert body[0] == Print(list[0])[0];
    }
  }

  lemma {:induction false} PrintIn(x: Expr, list: seq<Expr>, rest: seq<Token>)
    requires Printable(x) && forall i :: 0 <= i < |list| ==> Printable(list[i])
    ensures Literal(At(Print(InExpr(x, list)) + rest)) == (Some(InExpr(x, list)), At(rest))
    decreases InExpr(x, list), 0
  {
    hide Literal, Expression, Printable, IsKeyword, Membership, List;
    var close := [RParen] + rest;
    var inner := Print(x) + [In, LParen] + PrintList(list) + [RParen];
    var after := [LParen] + (PrintList(list) + ([RParen] + close));
    var tail := [In] + after;
    assert [In, LParen] + (PrintList(list) + ([RParen] + close)) == tail;
    PrintParses(x, tail);
    FirstToken(x, tail);
    RegroupIn(Print(x), PrintList(list), rest);
    if list != [] {
      ListParses([], list, close);
      assert [] + list == list;
    }
    MembershipParses(x, list, close);
    InIsExpression(At(inner + close), x, At(tail), InExpr(x, list), At(close));
    Parenthesised(inner, InExpr(x, list), rest);
  }

  lemma InIsExpression(st: Input, x: Expr, st1: Input, e: Expr, st2: Input)
    requires !st.err && !IsKeyword(st.Cur(), Not, "NOT") && Literal(st) == (Some(x), st1) && !st1.err
    requires st1.Cur() == In && Membership(x, st1.Advance()) == (Some(e), st2) && !st2.err && !Infix(st2.Cur())
    ensures Expression(st) == (Some(e), st2)
  {
    LiteralIsExpression(st, x, st1);
  }

  // ----- BETWEEN -----

  /** A round on BETWEEN, from the two bounds. */
  lemma BetweenAccepts(left: Expr, st: Input, low: Expr, st1: Input, high: Expr, st2: Input)
    requires !st.err && st.Cur() == Between && Expression(st.Advance()) == (Some(low), st1)
    requires !st1.err && st1.Cur().Ident? && Spells(st1.Cur().name, "AND")
    requires Expression(st1.Advance()) == (Some(high), st2)
    ensures Operators(left, st) == (Some(BetweenExpr(left, low, high)), st2)
  {
    hide Expression, Spells;
    AndIsNotNot(st1.Cur());
  }

  lemma BetweenRefuses(left: Expr, st: Input, low: Expr, st1: Input)
    requires !st.err && st.Cur() == Between && Expression(st.Advance()) == (Some(low), st1)
    requires !st1.err && !IsKeyword(st1.Cur(), And, "AND")
    ensures Operators(left, st) == (None, st1.Fail())
  {
    hide Expression, Spells;
  }
}
