/** The language of the expression parser: every way in which tokens spell a tree, defined apart from the
    parser, and the proof that the parser accepts exactly these. */
module Grammar {
  import opened Options
  import opened Parsing

  /** What parse_literal accepts: a literal or a name, a qualified name, parentheses, a signed operand. */
  datatype Operand =
    | Leaf(token: Token)
    | Qualified(table: string, column: string)
    | Paren(inner: Form)
    | Signed(sign: Token, operand: Operand)

  /** An operand behind any number of NOTs. */
  datatype Negation = NotOf(word: Token, rest: Negation) | Plain(operand: Operand)

  datatype Form = Form(first: Negation, rounds: Rounds)

  /** What follows the first operand.  The right operand of an operator takes in all that follows it.
      An IN without a parenthesis is dropped. */
  datatype Rounds =
    | Done
    | Infixed(op: Token, right: Form)
    | Ranged(low: Form, word: Token, high: Form)
    | Dropped(more: Rounds)
    | Listed(list: seq<Form>, more: Rounds)

  // ----- Tokens -----

  function YieldO(c: Operand): (toks: seq<Token>)
    ensures toks != []
    decreases c, 0
  {
    match c
    case Leaf(t) => [t]
    case Qualified(table, column) => [Ident(table), Dot, Ident(column)]
    case Paren(f) => [LParen] + (YieldF(f) + [RParen])
    case Signed(sign, x) => [sign] + YieldO(x)
  }

  function YieldN(n: Negation): (toks: seq<Token>)
    ensures toks != []
    decreases n, 0
  {
    match n
    case NotOf(word, rest) => [word] + YieldN(rest)
    case Plain(c) => YieldO(c)
  }

  function YieldF(f: Form): (toks: seq<Token>)
    ensures toks != []
    decreases f, 0
  {
    YieldN(f.first) + YieldR(f.rounds)
  }

  function YieldR(r: Rounds): seq<Token>
    decreases r, 0
  {
    match r
    case Done => []
    case Infixed(op, right) => [op] + YieldF(right)
    case Ranged(low, word, high) => [Between] + (YieldF(low) + ([word] + YieldF(high)))
    case Dropped(more) => [In] + YieldR(more)
    case Listed(list, more) => [In, LParen] + (YieldL(list) + ([RParen] + YieldR(more)))
  }

  function YieldL(list: seq<Form>): seq<Token>
    decreases list, 0
  {
    if list == [] then []
    else if |list| == 1 then YieldF(list[0])
    else YieldF(list[0]) + ([Comma] + YieldL(list[1..]))
  }

  // ----- Trees -----

  function TreeO(c: Operand): Expr
    requires ValidO(c)
    decreases c, 0
  {
    match c
    case Leaf(t) => (match t
      case IntTok(i) => IntLit(i)
      case RealTok(x) => RealLit(x)
      case StrTok(s) => StrLit(s)
      case Ident(name) => Column(name)
      case _ => NullLit)
    case Qualified(_, column) => Column(column)
    case Paren(f) => TreeF(f)
    case Signed(sign, x) => Unary(sign, TreeO(x))
  }

  function TreeN(n: Negation): Expr
    requires ValidN(n)
    decreases n, 0
  {
    match n
    case NotOf(_, rest) => Unary(Not, TreeN(rest))
    case Plain(c) => TreeO(c)
  }

  function TreeF(f: Form): Expr
    requires ValidF(f)
    decreases f, 0
  {
    TreeR(TreeN(f.first), f.rounds)
  }

  function TreeR(left: Expr, r: Rounds): Expr
    requires ValidR(r)
    decreases r, 0
  {
    match r
    case Done => left
    case Infixed(op, right) => if op == Like then LikeExpr(left, TreeF(right)) else Binary(left, op, TreeF(right))
    case Ranged(low, _, high) => BetweenExpr(left, TreeF(low), TreeF(high))
    case Dropped(more) => TreeR(left, more)
    case Listed(list, more) => TreeR(InExpr(left, Trees(list)), more)
  }

  function Trees(list: seq<Form>): (es: seq<Expr>)
    requires ValidL(list)
    ensures |es| == |list|
    decreases list, 0
  {
    if list == [] then [] else [TreeF(list[0])] + Trees(list[1..])
  }

  // ----- Which forms there are -----

  predicate IsBinary(t: Token) {
    t in {Or, And, Eq, Neq, Lt, Gt, Lte, Gte, LikeOp, InOp, BetweenOp, Plus, Minus, Star, Slash, Percent}
  }

  predicate ValidO(c: Operand)
    decreases c, 0
  {
    match c
    case Leaf(t) => t.IntTok? || t.RealTok? || t.StrTok? || t.NullTok? || t.Ident?
    case Qualified(_, _) => true
    case Paren(f) => ValidF(f)
    case Signed(sign, x) => (sign == Minus || sign == Plus) && ValidO(x)
  }

  /** A name that spells NOT is taken for the keyword. */
  predicate ValidN(n: Negation)
    decreases n, 0
  {
    match n
    case NotOf(word, rest) => IsKeyword(word, Not, "NOT") && ValidN(rest)
    case Plain(c) => ValidO(c) && !IsKeyword(YieldO(c)[0], Not, "NOT")
  }

  predicate ValidF(f: Form)
    decreases f, 0
  {
    ValidN(f.first) && ValidR(f.rounds)
  }

  /** The word between the bounds must be an identifier: the keyword AND belongs to the low bound. */
  predicate ValidR(r: Rounds)
    decreases r, 0
  {
    match r
    case Done => true
    case Infixed(op, right) => (IsBinary(op) || op == Like) && ValidF(right)
    case Ranged(low, word, high) => ValidF(low) && word.Ident? && Spells(word.name, "AND") && ValidF(high)
    case Dropped(more) => ValidR(more)
    case Listed(list, more) => ValidL(list) && ValidR(more)
  }

  predicate ValidL(list: seq<Form>)
    decreases list, 0
  {
    list == [] || (ValidF(list[0]) && ValidL(list[1..]))
  }

  lemma InfixIs(t: Token)
    ensures Infix(t) <==> IsBinary(t) || t == Like || t == In || t == Between
  {
  }

  // ----- What may follow a form -----

  /** A bare name takes a dot after it as its own. */
  predicate FollowsO(c: Operand, t: Token)
    decreases c, 0
  {
    match c
    case Leaf(x) => x.Ident? ==> t != Dot
    case Signed(_, x) => FollowsO(x, t)
    case _ => true
  }

  predicate FollowsN(n: Negation, t: Token)
    decreases n, 0
  {
    match n
    case NotOf(_, rest) => FollowsN(rest, t)
    case Plain(c) => FollowsO(c, t)
  }

  predicate FollowsF(f: Form, t: Token)
    decreases f, 0
  {
    if f.rounds.Done? then FollowsN(f.first, t) else FollowsR(f.rounds, t)
  }

  /** An IN takes a parenthesis after it as its own. */
  predicate FollowsR(r: Rounds, t: Token)
    decreases r, 0
  {
    match r
    case Done => true
    case Infixed(_, right) => FollowsF(right, t)
    case Ranged(_, _, high) => FollowsF(high, t)
    case Dropped(more) => if more.Done? then t != LParen else FollowsR(more, t)
    case Listed(_, more) => FollowsR(more, t)
  }

  // ----- Everything accepted is a form -----

  /** The parser went from st to an error-free end with the tree e over the given tokens. */
  ghost predicate Spelled(st: Input, toks: seq<Token>, r: Parse, e: Expr) {
    r.0 == Some(e) && !r.1.err && st.toks == toks + r.1.toks
  }

  lemma Assoc(a: seq<Token>, b: seq<Token>, c: seq<Token>)
    ensures (a + b) + c == a + (b + c)
  {
  }

  /** The current token and the others. */
  lemma CurFirst(st: Input)
    requires !st.err && st.toks != []
    ensures st.toks == [st.Cur()] + st.Advance().toks
  {
  }

  lemma NameSound(st: Input) returns (c: Operand)
    requires !st.err && st.Cur().Ident? && Literal(st).0.Some?
    ensures ValidO(c) && Spelled(st, YieldO(c), Literal(st), TreeO(c)) && FollowsO(c, Literal(st).1.Cur())
  {
    hide Expression, YieldF, TreeF, ValidF;
    CurFirst(st);
    var st1 := st.Advance();
    if st1.Cur() == Dot {
      var st2 := st1.Advance();
      c := Qualified(st.Cur().name, st2.Cur().name);
      assert st.toks == [st.Cur(), Dot, st2.Cur()] + st2.Advance().toks;
    } else {
      c := Leaf(st.Cur());
    }
  }

  /** What is left of the opening parenthesis when an accepted operand starts with one. */
  lemma ParenRound(st: Input)
    requires !st.err && st.Cur() == LParen && Literal(st).0.Some? && !Literal(st).1.err
    ensures var (e, st1) := Expression(st.Advance());
      e.Some? && !st1.err && st1.Cur() == RParen && Literal(st) == (e, st1.Advance())
  {
    hide Expression;
  }

  lemma SignRound(st: Input)
    requires !st.err && (st.Cur() == Minus || st.Cur() == Plus) && Literal(st).0.Some? && !Literal(st).1.err
    ensures var (e, st1) := Literal(st.Advance());
      e.Some? && Literal(st) == (Some(Unary(st.Cur(), e.value)), st1)
  {
    hide Expression;
  }

  lemma LeafSound(st: Input)
    requires !st.err && Literal(st).0.Some? && !st.Cur().Ident?
    requires st.Cur() != LParen && st.Cur() != Minus && st.Cur() != Plus
    ensures var c := Leaf(st.Cur()); ValidO(c) && Spelled(st, [st.Cur()], Literal(st), TreeO(c))
  {
    hide Expression;
    CurFirst(st);
  }

  lemma {:induction false} LiteralSound(st: Input) returns (c: Operand)
    requires !st.err && Literal(st).0.Some? && !Literal(st).1.err
    ensures ValidO(c) && Spelled(st, YieldO(c), Literal(st), TreeO(c)) && FollowsO(c, Literal(st).1.Cur())
    decreases |st.toks|, 0
  {
    hide Literal, Expression, YieldF, TreeF, ValidF, FollowsF;
    var t, rest := st.Cur(), Literal(st).1.toks;
    CurFirst(st);
    if t.Ident? {
      c := NameSound(st);
    } else if t == LParen {
      ParenRound(st);
      var f := ExpressionSound(st.Advance());
      var st1 := Expression(st.Advance()).1;
      c := Paren(f);
      CurFirst(st1);
      Assoc(YieldF(f), [RParen], rest);
      Assoc([LParen], YieldF(f) + [RParen], rest);
    } else if t == Minus || t == Plus {
      SignRound(st);
      var x := LiteralSound(st.Advance());
      c := Signed(t, x);
      Assoc([t], YieldO(x), rest);
    } else {
      LeafSound(st);
      c := Leaf(t);
    }
  }

  lemma {:induction false} UnaryNotSound(st: Input) returns (n: Negation)
    requires !st.err && UnaryNot(st).0.Some? && !UnaryNot(st).1.err
    ensures ValidN(n) && Spelled(st, YieldN(n), UnaryNot(st), TreeN(n)) && FollowsN(n, UnaryNot(st).1.Cur())
    decreases |st.toks|, 1
  {
    hide Literal, Spells;
    if IsKeyword(st.Cur(), Not, "NOT") {
      var rest := UnaryNotSound(st.Advance());
      n := NotOf(st.Cur(), rest);
      assert st.toks == [st.Cur()] + st.Advance().toks;
    } else {
      var c := LiteralSound(st);
      n := Plain(c);
      assert st.Cur() == YieldO(c)[0];
    }
  }

  lemma {:induction false} ExpressionSound(st: Input) returns (f: Form)
    requires !st.err && Expression(st).0.Some? && !Expression(st).1.err
    ensures ValidF(f) && Spelled(st, YieldF(f), Expression(st), TreeF(f)) && FollowsF(f, Expression(st).1.Cur())
    decreases |st.toks|, 3
  {
    hide UnaryNot, YieldN, TreeN, TreeR, ValidN, ValidR, FollowsN, FollowsR;
    var n := UnaryNotSound(st);
    var (left, st1) := UnaryNot(st);
    var r := OperatorsSound(left.value, st1);
    f := Form(n, r);
    Assoc(YieldN(n), YieldR(r), Expression(st).1.toks);
  }

  lemma {:induction false} OperatorsSound(left: Expr, st: Input) returns (r: Rounds)
    requires !st.err && Operators(left, st).0.Some? && !Operators(left, st).1.err
    ensures ValidR(r) && Spelled(st, YieldR(r), Operators(left, st), TreeR(left, r))
    ensures FollowsR(r, Operators(left, st).1.Cur())
    decreases |st.toks|, 2
  {
    hide Operator;
    if !Infix(st.Cur()) {
      r := Done;
    } else if st.Cur() == In {
      r := InSound(left, st);
    } else if st.Cur() == Between {
      r := BetweenSound(left, st);
    } else {
      r := BinarySound(left, st);
    }
  }

  /** A round on an operator other than IN and BETWEEN ends the loop. */
  lemma BinaryRound(left: Expr, st: Input)
    requires !st.err && Infix(st.Cur()) && st.Cur() != In && st.Cur() != Between
    ensures var (e, st1) := Expression(st.Advance()); var op := st.Cur();
      Operators(left, st) == (if e.None? then (None, st1)
        else (Some(if op == Like then LikeExpr(left, e.value) else Binary(left, op, e.value)), st1))
  {
    hide Expression;
  }

  lemma {:induction false} BinarySound(left: Expr, st: Input) returns (r: Rounds)
    requires !st.err && Infix(st.Cur()) && st.Cur() != In && st.Cur() != Between
    requires Operators(left, st).0.Some? && !Operators(left, st).1.err
    ensures ValidR(r) && Spelled(st, YieldR(r), Operators(left, st), TreeR(left, r))
    ensures FollowsR(r, Operators(left, st).1.Cur())
    decreases |st.toks|, 1
  {
    hide Expression, Operators, YieldF, TreeF, ValidF, FollowsF;
    var op := st.Cur();
    BinaryRound(left, st);
    InfixIs(op);
    CurFirst(st);
    var right := ExpressionSound(st.Advance());
    r := Infixed(op, right);
    Assoc([op], YieldF(right), Operators(left, st).1.toks);
  }

  /** A round on BETWEEN that is accepted. */
  lemma BetweenRound(left: Expr, st: Input)
    requires !st.err && st.Cur() == Between && Operators(left, st).0.Some? && !Operators(left, st).1.err
    ensures var (low, st1) := Expression(st.Advance());
      && low.Some? && !st1.err && st1.toks != [] && st1.Cur().Ident? && Spells(st1.Cur().name, "AND")
      && var (high, st2) := Expression(st1.Advance());
      && high.Some? && !st2.err && Operators(left, st) == (Some(BetweenExpr(left, low.value, high.value)), st2)
  {
    hide Expression, Spells;
    var (low, st1) := Expression(st.Advance());
    if low.Some? && IsKeyword(st1.Cur(), And, "AND") {
      AndIsNotNot(st1.Cur());
    }
  }

  lemma {:induction false} BetweenSound(left: Expr, st: Input) returns (r: Rounds)
    requires !st.err && st.Cur() == Between && Operators(left, st).0.Some? && !Operators(left, st).1.err
    ensures ValidR(r) && Spelled(st, YieldR(r), Operators(left, st), TreeR(left, r))
    ensures FollowsR(r, Operators(left, st).1.Cur())
    decreases |st.toks|, 1
  {
    hide Expression, Operators, YieldF, TreeF, ValidF, FollowsF, Spells;
    BetweenRound(left, st);
    CurFirst(st);
    var low := ExpressionSound(st.Advance());
    var st1 := Expression(st.Advance()).1;
    CurFirst(st1);
    var high := ExpressionSound(st1.Advance());
    var word, rest := st1.Cur(), Operators(left, st).1.toks;
    r := Ranged(low, word, high);
    Assoc([word], YieldF(high), rest);
    Assoc(YieldF(low), [word] + YieldF(high), rest);
    Assoc([Between], YieldF(low) + ([word] + YieldF(high)), rest);
  }

  /** A round on IN: without a parenthesis nothing but the keyword goes. */
  lemma InRound(left: Expr, st: Input)
    requires !st.err && st.Cur() == In
    ensures var (e, st1) := Membership(left, st.Advance());
      Operators(left, st) == if e.None? then (None, st1) else Operators(e.value, st1)
  {
    hide Membership;
  }

  lemma RegroupListed(list: seq<Token>, more: seq<Token>, rest: seq<Token>)
    ensures ([In, LParen] + (list + ([RParen] + more))) + rest ==
      [In] + ([LParen] + (list + ([RParen] + (more + rest))))
  {
  }

  lemma {:induction false} InSound(left: Expr, st: Input) returns (r: Rounds)
    requires !st.err && st.Cur() == In && Operators(left, st).0.Some? && !Operators(left, st).1.err
    ensures ValidR(r) && Spelled(st, YieldR(r), Operators(left, st), TreeR(left, r))
    ensures FollowsR(r, Operators(left, st).1.Cur())
    decreases |st.toks|, 1
  {
    hide Operators, List, YieldF, YieldL, ValidF, ValidL, TreeF, Trees, FollowsF;
    var st1, rest := st.Advance(), Operators(left, st).1.toks;
    InRound(left, st);
    CurFirst(st);
    var (e, st3) := Membership(left, st1);
    var more := OperatorsSound(e.value, st3);
    if st1.Cur() != LParen {
      r := Dropped(more);
      Assoc([In], YieldR(more), rest);
    } else {
      var list := ParenthesesSound(left, st1);
      r := Listed(list, more);
      RegroupListed(YieldL(list), YieldR(more), rest);
    }
  }

  /** The list after IN, from its opening to its closing parenthesis. */
  lemma {:induction false} ParenthesesSound(left: Expr, st: Input) returns (list: seq<Form>)
    requires !st.err && st.Cur() == LParen && Membership(left, st).0.Some? && !Membership(left, st).1.err
    ensures ValidL(list) && Membership(left, st).0 == Some(InExpr(left, Trees(list)))
    ensures st.toks == [LParen] + (YieldL(list) + ([RParen] + Membership(left, st).1.toks))
    decreases |st.toks|, 0
  {
    hide List, YieldF, TreeF, ValidF;
    var st1 := st.Advance();
    CurFirst(st);
    if st1.Cur() == RParen {
      list := [];
      CurFirst(st1);
    } else {
      list := ListSound([], st1);
      var st2 := List([], st1).1;
      CurFirst(st2);
      assert [] + Trees(list) == Trees(list);
    }
  }

  lemma ListRound(done: seq<Expr>, st: Input)
    requires !st.err
    ensures var (e, st1) := Expression(st);
      List(done, st) == (if e.None? then (None, st1)
        else if st1.Cur() == Comma then List(done + [e.value], st1.Advance())
        else (Some(done + [e.value]), st1))
  {
    hide Expression;
  }

  /** A list of one form, and a longer one. */
  lemma OneForm(f: Form)
    ensures YieldL([f]) == YieldF(f) && (ValidL([f]) <==> ValidF(f)) && (ValidF(f) ==> Trees([f]) == [TreeF(f)])
  {
    hide YieldF, TreeF, ValidF;
  }

  lemma MoreForms(f: Form, rest: seq<Form>)
    requires rest != []
    ensures YieldL([f] + rest) == YieldF(f) + ([Comma] + YieldL(rest))
    ensures ValidL([f] + rest) <==> ValidF(f) && ValidL(rest)
    ensures ValidF(f) && ValidL(rest) ==> Trees([f] + rest) == [TreeF(f)] + Trees(rest)
  {
    hide YieldF, TreeF, ValidF;
    assert ([f] + rest)[1..] == rest;
  }

  lemma {:induction false} ListSound(done: seq<Expr>, st: Input) returns (list: seq<Form>)
    requires !st.err && List(done, st).0.Some? && !List(done, st).1.err
    ensures list != [] && ValidL(list) && List(done, st).0 == Some(done + Trees(list))
    ensures st.toks == YieldL(list) + List(done, st).1.toks
    decreases |st.toks|, 4
  {
    hide Expression, List, YieldF, TreeF, ValidF, FollowsF, YieldL, Trees, ValidL;
    ListRound(done, st);
    var (e, st1) := Expression(st);
    assert !st1.err by { ListClears(done, st); }
    var f := ExpressionSound(st);
    if st1.Cur() == Comma {
      CurFirst(st1);
      var rest := ListSound(done + [e.value], st1.Advance());
      list := [f] + rest;
      MoreForms(f, rest);
      assert done + [e.value] + Trees(rest) == done + ([e.value] + Trees(rest));
      Assoc([Comma], YieldL(rest), List(done, st).1.toks);
      Assoc(YieldF(f), [Comma] + YieldL(rest), List(done, st).1.toks);
    } else {
      list := [f];
      OneForm(f);
    }
  }

  /** An error after an element stays. */
  lemma ListClears(done: seq<Expr>, st: Input)
    requires !st.err && !List(done, st).1.err
    ensures !Expression(st).1.err
  {
    hide Expression;
  }

  // ----- Every form is accepted -----

  /** Any form may stand before a token that is neither a dot nor an opening parenthesis. */
  lemma {:induction false} FollowsAnyO(c: Operand, t: Token)
    requires t != Dot
    ensures FollowsO(c, t)
    decreases c
  {
    if c.Signed? { FollowsAnyO(c.operand, t); }
  }

  lemma {:induction false} FollowsAnyN(n: Negation, t: Token)
    requires t != Dot
    ensures FollowsN(n, t)
    decreases n
  {
    match n
    case NotOf(_, rest) => FollowsAnyN(rest, t);
    case Plain(c) => FollowsAnyO(c, t);
  }

  lemma {:induction false} FollowsAnyF(f: Form, t: Token)
    requires t != Dot && t != LParen
    ensures FollowsF(f, t)
    decreases f
  {
    if f.rounds.Done? { FollowsAnyN(f.first, t); } else { FollowsAnyR(f.rounds, t); }
  }

  lemma {:induction false} FollowsAnyR(r: Rounds, t: Token)
    requires t != Dot && t != LParen
    ensures FollowsR(r, t)
    decreases r
  {
    match r
    case Done =>
    case Infixed(_, right) => FollowsAnyF(right, t);
    case Ranged(_, _, high) => FollowsAnyF(high, t);
    case Dropped(more) => FollowsAnyR(more, t);
    case Listed(_, more) => FollowsAnyR(more, t);
  }

  /** The token after the first of some. */
  lemma Next(t: Token, rest: seq<Token>)
    ensures At([t] + rest).Cur() == t && At([t] + rest).Advance() == At(rest)
  {
    assert ([t] + rest)[1..] == rest;
  }

  lemma LeafParses(t: Token, rest: seq<Token>)
    requires ValidO(Leaf(t)) && FollowsO(Leaf(t), At(rest).Cur())
    ensures Literal(At([t] + rest)) == (Some(TreeO(Leaf(t))), At(rest))
  {
    hide Expression;
    Next(t, rest);
  }

  lemma SignParses(sign: Token, e: Expr, toks: seq<Token>, st: Input)
    requires (sign == Minus || sign == Plus) && Literal(At(toks)) == (Some(e), st)
    ensures Literal(At([sign] + toks)) == (Some(Unary(sign, e)), st)
  {
    hide Expression;
    Next(sign, toks);
  }

  lemma {:induction false} OperandParses(c: Operand, rest: seq<Token>)
    requires ValidO(c) && FollowsO(c, At(rest).Cur())
    ensures Literal(At(YieldO(c) + rest)) == (Some(TreeO(c)), At(rest))
    decreases c, 0
  {
    hide Literal, Expression, YieldF, TreeF, ValidF;
    match c
    case Leaf(t) => LeafParses(t, rest);
    case Qualified(table, column) => QualifiedColumn(table, column, rest);
    case Paren(f) =>
      FollowsAnyF(f, RParen);
      FormParses(f, [RParen] + rest);
      assert YieldO(c) + rest == [LParen] + YieldF(f) + [RParen] + rest;
      Parenthesised(YieldF(f), TreeF(f), rest);
    case Signed(sign, x) =>
      OperandParses(x, rest);
      Assoc([sign], YieldO(x), rest);
      SignParses(sign, TreeO(x), YieldO(x) + rest, At(rest));
  }

  /** A qualified name is the column alone: the table before the dot is dropped. */
  lemma QualifiedColumn(table: string, column: string, rest: seq<Token>)
    ensures Literal(At([Ident(table), Dot, Ident(column)] + rest)) == (Some(Column(column)), At(rest))
  {
    var toks := [Ident(table), Dot, Ident(column)] + rest;
    assert toks[1..][1..] == [Ident(column)] + rest;
    Next(Ident(column), rest);
  }

  lemma {:induction false} NegationParses(n: Negation, rest: seq<Token>)
    requires ValidN(n) && FollowsN(n, At(rest).Cur())
    ensures UnaryNot(At(YieldN(n) + rest)) == (Some(TreeN(n)), At(rest))
    decreases n, 1
  {
    hide Literal, Spells, YieldO, TreeO, ValidO;
    match n
    case NotOf(word, more) =>
      NegationParses(more, rest);
      Assoc([word], YieldN(more), rest);
      Next(word, YieldN(more) + rest);
    case Plain(c) =>
      OperandParses(c, rest);
  }

  /** What begins the rounds begins no operand. */
  lemma RoundsBegin(r: Rounds, rest: seq<Token>)
    requires ValidR(r) && !r.Done?
    ensures var t := At(YieldR(r) + rest).Cur(); Infix(t) && t != Dot && t != LParen
  {
    hide YieldF, YieldL, ValidF, ValidL;
    if r.Infixed? { InfixIs(r.op); }
  }

  lemma {:induction false} FormParses(f: Form, rest: seq<Token>)
    requires ValidF(f) && FollowsF(f, At(rest).Cur()) && !Infix(At(rest).Cur())
    ensures Expression(At(YieldF(f) + rest)) == (Some(TreeF(f)), At(rest))
    decreases f, 2
  {
    hide UnaryNot, Operators, YieldN, TreeN, TreeR, ValidN, ValidR, FollowsN, FollowsR;
    var tail := YieldR(f.rounds) + rest;
    if f.rounds.Done? {
      assert tail == rest;
      DoneFollows(rest);
    } else {
      RoundsBegin(f.rounds, rest);
      FollowsAnyN(f.first, At(tail).Cur());
    }
    Assoc(YieldN(f.first), YieldR(f.rounds), rest);
    NegationParses(f.first, tail);
    RoundsParse(TreeN(f.first), f.rounds, rest);
  }

  lemma DoneFollows(rest: seq<Token>)
    ensures FollowsR(Done, At(rest).Cur())
  {
  }

  lemma {:induction false} RoundsParse(left: Expr, r: Rounds, rest: seq<Token>)
    requires ValidR(r) && FollowsR(r, At(rest).Cur()) && !Infix(At(rest).Cur())
    ensures Operators(left, At(YieldR(r) + rest)) == (Some(TreeR(left, r)), At(rest))
    decreases r, 1
  {
    match r
    case Done => assert YieldR(r) + rest == rest;
    case Infixed(op, right) => InfixedParses(left, op, right, rest);
    case Ranged(low, word, high) => RangedParses(left, low, word, high, rest);
    case Dropped(more) => DroppedParses(left, more, rest);
    case Listed(list, more) => ListedParses(left, list, more, rest);
  }

  lemma {:induction false} InfixedParses(left: Expr, op: Token, right: Form, rest: seq<Token>)
    requires ValidR(Infixed(op, right)) && FollowsF(right, At(rest).Cur()) && !Infix(At(rest).Cur())
    ensures var r := Infixed(op, right); Operators(left, At(YieldR(r) + rest)) == (Some(TreeR(left, r)), At(rest))
    decreases Infixed(op, right), 0
  {
    hide Expression, Operators, YieldF, TreeF, ValidF, FollowsF;
    FormParses(right, rest);
    Assoc([op], YieldF(right), rest);
    Next(op, YieldF(right) + rest);
    InfixIs(op);
    BinaryRound(left, At([op] + (YieldF(right) + rest)));
  }

  lemma {:induction false} RangedParses(left: Expr, low: Form, word: Token, high: Form, rest: seq<Token>)
    requires ValidR(Ranged(low, word, high)) && FollowsF(high, At(rest).Cur()) && !Infix(At(rest).Cur())
    ensures var r := Ranged(low, word, high); Operators(left, At(YieldR(r) + rest)) == (Some(TreeR(left, r)), At(rest))
    decreases Ranged(low, word, high), 0
  {
    hide Expression, Operators, YieldF, TreeF, ValidF, FollowsF, Spells;
    var second := YieldF(high) + rest;
    var first := YieldF(low) + ([word] + second);
    FollowsAnyF(low, word);
    Next(word, second);
    Next(Between, first);
    FormParses(low, [word] + second);
    FormParses(high, rest);
    Assoc([word], YieldF(high), rest);
    Assoc(YieldF(low), [word] + YieldF(high), rest);
    Assoc([Between], YieldF(low) + ([word] + YieldF(high)), rest);
    BetweenAccepts(left, At([Between] + first), TreeF(low), At([word] + second), TreeF(high), At(rest));
  }

  lemma DropRound(left: Expr, st: Input)
    requires !st.err && st.Cur() == In && st.Advance().Cur() != LParen
    ensures Operators(left, st) == Operators(left, st.Advance())
  {
    hide Operators;
    InRound(left, st);
  }

  lemma {:induction false} DroppedParses(left: Expr, more: Rounds, rest: seq<Token>)
    requires ValidR(Dropped(more)) && FollowsR(Dropped(more), At(rest).Cur()) && !Infix(At(rest).Cur())
    ensures var r := Dropped(more); Operators(left, At(YieldR(r) + rest)) == (Some(TreeR(left, r)), At(rest))
    decreases Dropped(more), 0
  {
    hide Operators, Infix, YieldF, YieldL, TreeF, Trees, ValidF, ValidL, FollowsF;
    var tail := YieldR(more) + rest;
    if more.Done? {
      assert tail == rest;
      DoneFollows(rest);
    } else {
      RoundsBegin(more, rest);
    }
    RoundsParse(left, more, rest);
    Assoc([In], YieldR(more), rest);
    Next(In, tail);
    DropRound(left, At([In] + tail));
  }

  lemma {:induction false} ListedParses(left: Expr, list: seq<Form>, more: Rounds, rest: seq<Token>)
    requires ValidR(Listed(list, more)) && FollowsR(more, At(rest).Cur()) && !Infix(At(rest).Cur())
    ensures var r := Listed(list, more); Operators(left, At(YieldR(r) + rest)) == (Some(TreeR(left, r)), At(rest))
    decreases Listed(list, more), 0
  {
    hide Operators, Membership, YieldF, YieldL, TreeF, Trees, ValidF, ValidL, FollowsF;
    var tail := YieldR(more) + rest;
    var after := [LParen] + (YieldL(list) + ([RParen] + tail));
    RoundsParse(InExpr(left, Trees(list)), more, rest);
    ParenthesesParse(left, list, tail);
    RegroupListed(YieldL(list), YieldR(more), rest);
    Next(In, after);
    InRound(left, At([In] + after));
  }

  /** No form begins with a closing parenthesis. */
  lemma FormBegins(f: Form)
    requires ValidF(f)
    ensures YieldF(f)[0] != RParen
  {
    hide YieldR, ValidR, Spells;
    assert YieldF(f)[0] == YieldN(f.first)[0];
    match f.first
    case NotOf(word, _) => assert word != RParen;
    case Plain(c) => OperandBegins(c);
  }

  lemma OperandBegins(c: Operand)
    requires ValidO(c)
    ensures YieldO(c)[0] != RParen
  {
    hide YieldF, ValidF;
  }

  lemma {:induction false} ParenthesesParse(left: Expr, list: seq<Form>, rest: seq<Token>)
    requires ValidL(list)
    ensures Membership(left, At([LParen] + (YieldL(list) + ([RParen] + rest)))) ==
      (Some(InExpr(left, Trees(list))), At(rest))
    decreases list, 2
  {
    hide List, YieldF, TreeF, ValidF;
    var body := YieldL(list) + ([RParen] + rest);
    Next(LParen, body);
    Next(RParen, rest);
    if list == [] {
      assert body == [RParen] + rest;
    } else {
      FormBegins(list[0]);
      assert body[0] == YieldF(list[0])[0];
      FormsParse([], list, rest);
      assert [] + Trees(list) == Trees(list);
    }
  }

  lemma {:induction false} FormsParse(done: seq<Expr>, list: seq<Form>, rest: seq<Token>)
    requires list != [] && ValidL(list)
    ensures List(done, At(YieldL(list) + ([RParen] + rest))) == (Some(done + Trees(list)), At([RParen] + rest))
    decreases list, 1
  {
    hide Expression, List, YieldF, TreeF, ValidF, FollowsF, YieldL, Trees, ValidL;
    var close, f := [RParen] + rest, list[0];
    ListRound(done, At(YieldL(list) + close));
    if |list| == 1 {
      assert list == [f];
      OneForm(f);
      FollowsAnyF(f, RParen);
      FormParses(f, close);
    } else {
      assert list == [f] + list[1..];
      MoreForms(f, list[1..]);
      var more := YieldL(list[1..]) + close;
      Assoc([Comma], YieldL(list[1..]), close);
      Assoc(YieldF(f), [Comma] + YieldL(list[1..]), close);
      Next(Comma, more);
      FollowsAnyF(f, Comma);
      FormParses(f, [Comma] + more);
      FormsParse(done + [TreeF(f)], list[1..], rest);
      assert done + [TreeF(f)] + Trees(list[1..]) == done + ([TreeF(f)] + Trees(list[1..]));
    }
  }

  // ----- The language -----

  /** The tokens are the form f and then the rest, which is no part of it. */
  predicate Reads(toks: seq<Token>, f: Form, rest: seq<Token>) {
    && ValidF(f)
    && toks == YieldF(f) + rest
    && FollowsF(f, At(rest).Cur())
    && !Infix(At(rest).Cur())
  }

  /** The parser turns toks into e and stops before rest if and only if toks is a form of e and then rest. */
  lemma AcceptedIff(toks: seq<Token>, e: Expr, rest: seq<Token>)
    ensures Expression(At(toks)) == (Some(e), At(rest)) <==> exists f :: Reads(toks, f, rest) && TreeF(f) == e
  {
    hide Expression, YieldF, TreeF, ValidF, FollowsF;
    if Expression(At(toks)) == (Some(e), At(rest)) {
      var f := ExpressionSound(At(toks));
      assert Reads(toks, f, rest);
    }
    if f :| Reads(toks, f, rest) && TreeF(f) == e {
      FormParses(f, rest);
    }
  }

  /** It refuses, or leaves an error, if and only if no beginning of toks is a form. */
  lemma RefusedIff(toks: seq<Token>)
    ensures Expression(At(toks)).0.None? || Expression(At(toks)).1.err <==> forall f, rest :: !Reads(toks, f, rest)
  {
    hide Expression, YieldF, TreeF, ValidF, FollowsF;
    var (e, st) := Expression(At(toks));
    if e.Some? && !st.err {
      var f := ExpressionSound(At(toks));
      assert Reads(toks, f, st.toks);
    } else {
      forall f, rest | Reads(toks, f, rest) ensures false {
        FormParses(f, rest);
      }
    }
  }

  /** No token sequence has two readings. */
  lemma Unambiguous(toks: seq<Token>, f: Form, rest: seq<Token>, f': Form, rest': seq<Token>)
    requires Reads(toks, f, rest) && Reads(toks, f', rest')
    ensures TreeF(f) == TreeF(f') && rest == rest'
  {
    hide Expression, YieldF, TreeF, ValidF, FollowsF;
    FormParses(f, rest);
    FormParses(f', rest');
  }
}
