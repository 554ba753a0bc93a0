/** A printer for evaluator expressions that writes a parenthesis only where the grammar needs
    one, and the proof that the parser of src/osmpq/ql/evaluator.py undoes it. */
module Printer {
  import opened Expressions
  import opened Parser

  // The tokens of e, at a place that accepts trees of at least that rank, before the given tokens.
  function PrintAt<N>(e: Expr<N>, min: nat, rest: seq<Token<N>>): seq<Token<N>>
    decreases e, 1
  {
    if Rank(e) < min then [LParen] + PrintBody(e, [RParen] + rest) else PrintBody(e, rest)
  }

  function PrintBody<N>(e: Expr<N>, rest: seq<Token<N>>): seq<Token<N>>
    decreases e, 0
  {
    match e
    case Num(v) => [Number(v)] + rest
    case Str(s) => [Text(s)] + rest
    case TagAccess(key) => [Ident("t"), LBracket, Text(key), RBracket] + rest
    case ElementCall(name, args) => [Ident(name), LParen] + PrintArgs(args, [RParen] + rest)
    case SetCount(t) => [Ident("count"), LParen, Ident(t), RParen] + rest
    case NamedSetCount(s, t) => [Dot, Ident(s), Dot, Ident("count"), LParen, Ident(t), RParen] + rest
    case Aggregate(f, arg) => [Ident(f), LParen] + PrintAt(arg, 0, [RParen] + rest)
    case Unary(p, operand) => [if p == Not then Bang else Operator(Sub)] + PrintAt(operand, 7, rest)
    case Binary(op, l, r) => PrintAt(l, OpRank(op), [Operator(op)] + PrintAt(r, OpRank(op) + 1, rest))
    case Ternary(c, t, o) => PrintAt(c, 1, [Question] + PrintAt(t, 0, [Colon] + PrintAt(o, 0, rest)))
  }

  function PrintArgs<N>(args: seq<Expr<N>>, rest: seq<Token<N>>): seq<Token<N>>
    decreases args, 0
  {
    if args == [] then rest
    else if |args| == 1 then PrintAt(args[0], 0, rest)
    else PrintAt(args[0], 0, [Comma] + PrintArgs(args[1..], rest))
  }

  // Tokens after which a tree of a level is complete: no operator of that level or a stronger one,
  // and no question mark after a ternary.
  predicate Stops<N>(rank: nat, rest: seq<Token<N>>) {
    rest == [] || match rest[0]
      case Operator(op) => OpRank(op) < rank
      case Question => rank > 0
      case _ => true
  }

  // A tree parsed at one level is parsed at every weaker level that stops there.
  lemma {:induction false} ParsedAtWeakerLevel<N>(ts: seq<Token<N>>, e: Expr<N>, rest: seq<Token<N>>, j: nat, k: nat)
    requires j <= k <= 8 && ParseAt(k, ts) == Parsed(e, rest) && Stops(j, rest)
    ensures ParseAt(j, ts) == Parsed(e, rest)
    decreases k - j
  {
    if j < k {
      ParsedAtWeakerLevel(ts, e, rest, j + 1, k);
      if 1 <= j <= 6 {
        assert ParseLoop(j, e, rest) == Parsed(e, rest);
      }
    }
  }

  lemma ParensParse<N>(e: Expr<N>, rest: seq<Token<N>>)
    requires ParseAt(0, PrintBody(e, [RParen] + rest)) == Parsed(e, [RParen] + rest)
    ensures ParseAt(8, [LParen] + PrintBody(e, [RParen] + rest)) == Parsed(e, rest)
  {
    var ts := [LParen] + PrintBody(e, [RParen] + rest);
    assert ts[1..] == PrintBody(e, [RParen] + rest);
    assert ([RParen] + rest)[1..] == rest;
    assert ParseParenthesized(ts[1..]) == Parsed(e, rest);
  }

  // Parsing a printed tree gives the tree back, and stops where the printing ended.
  lemma {:induction false} ParseUndoesPrint<N>(e: Expr<N>, min: nat, rest: seq<Token<N>>)
    requires WellFormed(e) && min <= 8 && Stops(min, rest)
    ensures ParseAt(min, PrintAt(e, min, rest)) == Parsed(e, rest)
    decreases e, 3
  {
    if Rank(e) < min {
      BodyParses(e, [RParen] + rest);
      ParsedAtWeakerLevel(PrintBody(e, [RParen] + rest), e, [RParen] + rest, 0, Rank(e));
      ParensParse(e, rest);
      ParsedAtWeakerLevel(PrintAt(e, min, rest), e, rest, min, 8);
    } else {
      BodyParses(e, rest);
      ParsedAtWeakerLevel(PrintBody(e, rest), e, rest, min, Rank(e));
    }
  }

  // The same without outer parentheses, at the tree's own level.
  lemma {:induction false} BodyParses<N>(e: Expr<N>, rest: seq<Token<N>>)
    requires WellFormed(e) && Stops(Rank(e), rest)
    ensures ParseAt(Rank(e), PrintBody(e, rest)) == Parsed(e, rest)
    decreases e, 2
  {
    match e
    case Binary(op, l, r) => LoopReachesTree(e, OpRank(op), rest);
    case Ternary(c, t, o) => TernaryParses(c, t, o, rest);
    case Unary(p, operand) => PrefixParses(p, operand, rest);
    case ElementCall(name, args) => CallParses(name, args, rest);
    case Aggregate(f, arg) => AggregateParses(f, arg, rest);
    case NamedSetCount(s, t) => NamedCountParses(s, t, rest);
    case TagAccess(key) => TagParses(key, rest);
    case SetCount(t) => SetCountParses(t, rest);
    case _ =>
  }

  // Left associativity: reading a tree at a binary level is running that level's loop from it.
  lemma {:induction false} LoopReachesTree<N>(e: Expr<N>, k: nat, rest: seq<Token<N>>)
    requires WellFormed(e) && 1 <= k <= 6 && Stops(k + 1, rest)
    ensures ParseAt(k, PrintAt(e, k, rest)) == ParseLoop(k, e, rest)
    decreases e, if Rank(e) == k then 1 else 4
  {
    if Rank(e) == k {
      var more := PrintAt(e.right, k + 1, rest);
      var tail := [Operator(e.op)] + more;
      LoopReachesTree(e.left, k, tail);
      ParseUndoesPrint(e.right, k + 1, rest);
      assert tail[1..] == more;
    } else {
      ParseUndoesPrint(e, k + 1, rest);
      assert PrintAt(e, k, rest) == PrintAt(e, k + 1, rest);
    }
  }

  lemma TernaryParses<N>(c: Expr<N>, t: Expr<N>, o: Expr<N>, rest: seq<Token<N>>)
    requires WellFormed(Ternary(c, t, o)) && Stops(0, rest)
    ensures ParseAt(0, PrintBody(Ternary(c, t, o), rest)) == Parsed(Ternary(c, t, o), rest)
    decreases Ternary(c, t, o), 1
  {
    var third := PrintAt(o, 0, rest);
    var second := PrintAt(t, 0, [Colon] + third);
    ParseUndoesPrint(c, 1, [Question] + second);
    ParseUndoesPrint(t, 0, [Colon] + third);
    ParseUndoesPrint(o, 0, rest);
    assert ([Question] + second)[1..] == second && ([Colon] + third)[1..] == third;
  }

  lemma PrefixParses<N>(p: Prefix, operand: Expr<N>, rest: seq<Token<N>>)
    requires WellFormed(operand) && Stops(7, rest)
    ensures ParseAt(7, PrintBody(Unary(p, operand), rest)) == Parsed(Unary(p, operand), rest)
    decreases Unary(p, operand), 1
  {
    var ts := PrintBody(Unary(p, operand), rest);
    assert ts[1..] == PrintAt(operand, 7, rest);
    ParseUndoesPrint(operand, 7, rest);
  }

  lemma AggregateParses<N>(f: string, arg: Expr<N>, rest: seq<Token<N>>)
    requires f in AGGREGATES && WellFormed(arg)
    ensures ParsePrimary(PrintBody(Aggregate(f, arg), rest)) == Parsed(Aggregate(f, arg), rest)
    decreases Aggregate(f, arg), 1
  {
    var inner := PrintAt(arg, 0, [RParen] + rest);
    var ts := PrintBody(Aggregate(f, arg), rest);
    assert ts[1..] == [LParen] + inner && ts[1..][1..] == inner;
    ParseUndoesPrint(arg, 0, [RParen] + rest);
    assert ([RParen] + rest)[1..] == rest;
    assert f != "t" && f != "count";
  }

  lemma CallParses<N>(name: string, args: seq<Expr<N>>, rest: seq<Token<N>>)
    requires WellFormed(ElementCall(name, args))
    ensures ParsePrimary(PrintBody(ElementCall(name, args), rest)) == Parsed(ElementCall(name, args), rest)
    decreases ElementCall(name, args), 1
  {
    var inner := PrintArgs(args, [RParen] + rest);
    var ts := PrintBody(ElementCall(name, args), rest);
    assert ts[1..] == [LParen] + inner && ts[1..][1..] == inner;
    assert ([RParen] + rest)[1..] == rest;
    if |args| == 1 {
      ParseUndoesPrint(args[0], 0, [RParen] + rest);
      NotAParen(args[0], [RParen] + rest);
      assert args == [args[0]];
    }
    assert ParseArgs(inner) == Parsed(args, [RParen] + rest);
  }

  // A printed tree never starts with a closing parenthesis.
  lemma {:induction false} NotAParen<N>(e: Expr<N>, rest: seq<Token<N>>)
    ensures PrintAt(e, 0, rest) != [] && PrintAt(e, 0, rest)[0] != RParen
  {
    BodyNotAParen(e, rest);
  }

  lemma {:induction false} BodyNotAParen<N>(e: Expr<N>, rest: seq<Token<N>>)
    ensures PrintBody(e, rest) != [] && PrintBody(e, rest)[0] != RParen
  {
    match e
    case Binary(op, l, r) => BodyNotAParen(l, [Operator(op)] + PrintAt(r, OpRank(op) + 1, rest));
    case Ternary(c, t, o) => BodyNotAParen(c, [Question] + PrintAt(t, 0, [Colon] + PrintAt(o, 0, rest)));
    case _ =>
  }

  lemma TagParses<N>(key: string, rest: seq<Token<N>>)
    ensures ParsePrimary(PrintBody(TagAccess(key), rest)) == Parsed(TagAccess(key), rest)
  {
    var ts: seq<Token<N>> := [Ident("t"), LBracket, Text(key), RBracket] + rest;
    assert ts[1..] == [LBracket, Text(key), RBracket] + rest;
    assert ts[1..][1..] == [Text(key), RBracket] + rest;
    assert ts[1..][1..][1..] == [RBracket] + rest;
    assert ts[1..][1..][1..][1..] == rest;
  }

  lemma TypeInParensParses<N>(t: string, rest: seq<Token<N>>)
    requires t in TYPE_KEYWORDS
    ensures ParenthesizedType([LParen, Ident(t), RParen] + rest) == Parsed(t, rest)
  {
    var ts: seq<Token<N>> := [LParen, Ident(t), RParen] + rest;
    assert ts[1..] == [Ident(t), RParen] + rest;
    assert ts[1..][1..] == [RParen] + rest;
    assert ts[1..][1..][1..] == rest;
  }

  lemma SetCountParses<N>(t: string, rest: seq<Token<N>>)
    requires t in TYPE_KEYWORDS
    ensures ParsePrimary(PrintBody(SetCount(t), rest)) == Parsed(SetCount(t), rest)
  {
    var ts: seq<Token<N>> := [Ident("count"), LParen, Ident(t), RParen] + rest;
    assert ts[1..] == [LParen, Ident(t), RParen] + rest;
    TypeInParensParses(t, rest);
    assert "count" != "t";
  }

  lemma AfterDotParses<N>(s: string, t: string, rest: seq<Token<N>>)
    requires t in TYPE_KEYWORDS
    ensures ParseNamedCount([Ident(s), Dot, Ident("count"), LParen, Ident(t), RParen] + rest) == Parsed(NamedSetCount(s, t), rest)
  {
    var ts: seq<Token<N>> := [Ident(s), Dot, Ident("count"), LParen, Ident(t), RParen] + rest;
    assert ts[1..] == [Dot, Ident("count"), LParen, Ident(t), RParen] + rest;
    assert ts[1..][1..] == [Ident("count"), LParen, Ident(t), RParen] + rest;
    assert ts[1..][1..][1..] == [LParen, Ident(t), RParen] + rest;
    TypeInParensParses(t, rest);
  }

  lemma NamedCountParses<N>(s: string, t: string, rest: seq<Token<N>>)
    requires t in TYPE_KEYWORDS
    ensures ParsePrimary(PrintBody(NamedSetCount(s, t), rest)) == Parsed(NamedSetCount(s, t), rest)
  {
    var ts: seq<Token<N>> := [Dot, Ident(s), Dot, Ident("count"), LParen, Ident(t), RParen] + rest;
    assert ts[1..] == [Ident(s), Dot, Ident("count"), LParen, Ident(t), RParen] + rest;
    AfterDotParses(s, t, rest);
  }

  // The main result: printing a whole expression and parsing it gives the same tree.
  lemma ParseProgramUndoesPrint<N>(e: Expr<N>)
    requires WellFormed(e)
    ensures ParseProgram(PrintAt(e, 0, [Eof])) == Parsed(e, [Eof])
  {
    ParseUndoesPrint(e, 0, [Eof]);
  }

  // Any accepted program is printed to tokens that give the same tree.
  lemma AcceptedReprints<N>(ts: seq<Token<N>>)
    requires ParseProgram(ts).Parsed?
    ensures ParseProgram(PrintAt(ParseProgram(ts).value, 0, [Eof])) == Parsed(ParseProgram(ts).value, [Eof])
  {
    AcceptedIsWellFormed(ts);
    ParseProgramUndoesPrint(ParseProgram(ts).value);
  }

  // ---- no parenthesis can be left out ---------------------------------------------------------

  lemma {:induction false} PrintIsLonger<N>(e: Expr<N>, min: nat, rest: seq<Token<N>>)
    ensures |PrintAt(e, min, rest)| > |rest|
    decreases e, 1
  {
    BodyIsLonger(e, rest);
    BodyIsLonger(e, [RParen] + rest);
  }

  lemma {:induction false} BodyIsLonger<N>(e: Expr<N>, rest: seq<Token<N>>)
    ensures |PrintBody(e, rest)| > |rest|
    decreases e, 0
  {
    match e
    case ElementCall(name, args) => ArgsAreLonger(args, [RParen] + rest);
    case Aggregate(_, arg) => PrintIsLonger(arg, 0, [RParen] + rest);
    case Unary(_, operand) => PrintIsLonger(operand, 7, rest);
    case Binary(op, l, r) =>
      PrintIsLonger(r, OpRank(op) + 1, rest);
      PrintIsLonger(l, OpRank(op), [Operator(op)] + PrintAt(r, OpRank(op) + 1, rest));
    case Ternary(c, t, o) =>
      PrintIsLonger(o, 0, rest);
      PrintIsLonger(t, 0, [Colon] + PrintAt(o, 0, rest));
      PrintIsLonger(c, 1, [Question] + PrintAt(t, 0, [Colon] + PrintAt(o, 0, rest)));
    case _ =>
  }

  lemma {:induction false} ArgsAreLonger<N>(args: seq<Expr<N>>, rest: seq<Token<N>>)
    ensures |PrintArgs(args, rest)| >= |rest|
    decreases args, 0
  {
    if |args| == 1 {
      PrintIsLonger(args[0], 0, rest);
    } else if |args| > 1 {
      ArgsAreLonger(args[1..], rest);
      PrintIsLonger(args[0], 0, [Comma] + PrintArgs(args[1..], rest));
    }
  }

  // A level that is too strong for the tree stops inside it, or fails.
  predicate StopsInside<N>(p: Parse<Expr<N>, N>, rest: seq<Token<N>>) { p.Parsed? ==> |p.rest| > |rest| }

  // The first part of a tree, printed for a weaker level before tokens that end the stronger one.
  lemma {:induction false} FirstPartStops<N>(e: Expr<N>, weak: nat, min: nat, more: seq<Token<N>>, rest: seq<Token<N>>)
    requires WellFormed(e) && weak <= min <= 8 && Stops(min, more) && |more| > |rest|
    ensures StopsInside(ParseAt(min, PrintAt(e, weak, more)), rest)
    decreases e, 1
  {
    if weak <= Rank(e) < min {
      ParenthesesAreNeeded(e, min, more);
    } else {
      assert PrintAt(e, weak, more) == PrintAt(e, min, more);
      ParseUndoesPrint(e, min, more);
    }
  }

  // Main result: where the printer writes parentheses, leaving them out does not give the tree back:
  // the level asked for fails, or stops before the tree's end.
  lemma {:induction false} ParenthesesAreNeeded<N>(e: Expr<N>, min: nat, rest: seq<Token<N>>)
    requires WellFormed(e) && Rank(e) < min <= 8
    ensures StopsInside(ParseAt(min, PrintBody(e, rest)), rest)
    decreases e, 0
  {
    match e
    case Unary(prefix, operand) =>
      var ts := PrintBody(e, rest);
      assert ts[0] == if prefix == Not then Bang else Operator(Sub);
      assert ParseAt(8, ts) == ParsePrimary(ts) == Error;
    case Binary(op, l, r) =>
      PrintIsLonger(r, OpRank(op) + 1, rest);
      FirstPartStops(l, OpRank(op), min, [Operator(op)] + PrintAt(r, OpRank(op) + 1, rest), rest);
    case Ternary(c, t, o) =>
      PrintIsLonger(o, 0, rest);
      PrintIsLonger(t, 0, [Colon] + PrintAt(o, 0, rest));
      FirstPartStops(c, 1, min, [Question] + PrintAt(t, 0, [Colon] + PrintAt(o, 0, rest)), rest);
  }
}
