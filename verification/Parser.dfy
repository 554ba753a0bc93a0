/** The precedence parser of the evaluator language (src/osmpq/ql/evaluator.py).

    The grammar as functions on the tokens still to be read: each gives the tree and the tokens
    left, or an error. The levels of the grammar are numbered from the ternary, 0, over the six
    binary levels to prefix operators, 7, and primaries, 8; a level calls the next stronger one,
    and the loop of a binary level makes its operators associate to the left. Recursion always
    consumes tokens or moves to a stronger level, so parsing ends on every token list. TokenParser
    has the parser object that works on a position, Printer the inverse. */
module Parser {
  import opened Expressions

  // A parse: the tree and the tokens left, or a ParseError.
  datatype Parse<T, N> = Error | Parsed(value: T, rest: seq<Token<N>>) {
    predicate IsFailure() { Error? }
    function PropagateFailure<U>(): Parse<U, N> requires Error? { Error }
    function Extract(): (T, seq<Token<N>>) requires Parsed? { (value, rest) }
  }

  // ---- the grammar, on the tokens still to be read --------------------------------------------

  predicate Starts<N(==)>(ts: seq<Token<N>>, tok: Token<N>) { ts != [] && ts[0] == tok }

  predicate StartsBinary<N>(ts: seq<Token<N>>, rank: nat) {
    ts != [] && ts[0].Operator? && OpRank(ts[0].op) == rank
  }

  function Expect<N(==)>(ts: seq<Token<N>>, tok: Token<N>): (r: Parse<(), N>)
    ensures r.Parsed? ==> |r.rest| == |ts| - 1
  {
    if Starts(ts, tok) then Parsed((), ts[1..]) else Error
  }

  // One grammar level: 0 ternary, 1 to 6 the binary levels, 7 prefix operators, 8 primary.
  function ParseAt<N(==)>(rank: nat, ts: seq<Token<N>>): (r: Parse<Expr<N>, N>)
    requires rank <= 8
    ensures r.Parsed? ==> |r.rest| < |ts|
    decreases |ts|, 1, 8 - rank
  {
    if rank == 0 then
      var (cond, ts1) :- ParseAt(1, ts);
      if Starts(ts1, Question) then
        var (then_, ts2) :- ParseAt(0, ts1[1..]);
        var (_, ts3) :- Expect(ts2, Colon);
        var (otherwise, ts4) :- ParseAt(0, ts3);
        Parsed(Ternary(cond, then_, otherwise), ts4)
      else Parsed(cond, ts1)
    else if rank <= 6 then
      var (left, ts1) :- ParseAt(rank + 1, ts);
      ParseLoop(rank, left, ts1)
    else if rank == 7 then
      if Starts(ts, Bang) then
        var (e, ts1) :- ParseAt(7, ts[1..]);
        Parsed(Unary(Not, e), ts1)
      else if Starts(ts, Operator(Sub)) then
        var (e, ts1) :- ParseAt(7, ts[1..]);
        Parsed(Unary(Neg, e), ts1)
      else ParseAt(8, ts)
    else ParsePrimary(ts)
  }

  // The loop of a binary level, with the tree built so far.
  function ParseLoop<N(==)>(rank: nat, left: Expr<N>, ts: seq<Token<N>>): (r: Parse<Expr<N>, N>)
    requires 1 <= rank <= 6
    ensures r.Parsed? ==> |r.rest| <= |ts|
    decreases |ts|, 2
  {
    if StartsBinary(ts, rank) then
      var (right, ts1) :- ParseAt(rank + 1, ts[1..]);
      ParseLoop(rank, Binary(ts[0].op, left, right), ts1)
    else Parsed(left, ts)
  }

  function ParseTypeKeyword<N>(ts: seq<Token<N>>): (r: Parse<string, N>)
    ensures r.Parsed? ==> |r.rest| == |ts| - 1 && r.value in TYPE_KEYWORDS
  {
    if ts != [] && ts[0].Ident? && ts[0].name in TYPE_KEYWORDS then Parsed(ts[0].name, ts[1..]) else Error
  }

  function ParseIdent<N>(ts: seq<Token<N>>): (r: Parse<string, N>)
    ensures r.Parsed? ==> |r.rest| == |ts| - 1
  {
    if ts != [] && ts[0].Ident? then Parsed(ts[0].name, ts[1..]) else Error
  }

  // After an opening parenthesis: no argument, or some separated by commas.
  function ParseMoreArgs<N(==)>(args: seq<Expr<N>>, ts: seq<Token<N>>): (r: Parse<seq<Expr<N>>, N>)
    ensures r.Parsed? ==> |r.rest| <= |ts|
    decreases |ts|, 2
  {
    if Starts(ts, Comma) then
      var (e, ts1) :- ParseAt(0, ts[1..]);
      ParseMoreArgs(args + [e], ts1)
    else Parsed(args, ts)
  }

  function ParseArgs<N(==)>(ts: seq<Token<N>>): (r: Parse<seq<Expr<N>>, N>)
    ensures r.Parsed? ==> |r.rest| <= |ts|
    decreases |ts|, 3
  {
    if Starts(ts, RParen) then Parsed([], ts)
    else
      var (e, ts1) :- ParseAt(0, ts);
      ParseMoreArgs([e], ts1)
  }

  function ParsePrimary<N(==)>(ts: seq<Token<N>>): (r: Parse<Expr<N>, N>)
    ensures r.Parsed? ==> |r.rest| < |ts|
    decreases |ts|, 0
  {
    if ts == [] then Error
    else
      match ts[0]
      case Number(v) => Parsed(Num(v), ts[1..])
      case Text(s) => Parsed(Str(s), ts[1..])
      case LParen => ParseParenthesized(ts[1..])
      case Dot => ParseNamedCount(ts[1..])
      case Ident(name) => ParseCall(name, ts[1..])
      case _ => Error
  }

  function ParseParenthesized<N(==)>(ts: seq<Token<N>>): (r: Parse<Expr<N>, N>)
    ensures r.Parsed? ==> |r.rest| < |ts|
    decreases |ts|, 11
  {
    var (e, ts1) :- ParseAt(0, ts);
    var (_, ts2) :- Expect(ts1, RParen);
    Parsed(e, ts2)
  }

  function ParenthesizedType<N(==)>(ts: seq<Token<N>>): (r: Parse<string, N>)
    ensures r.Parsed? ==> |r.rest| < |ts|
  {
    var (_, ts1) :- Expect(ts, LParen);
    var (t, ts2) :- ParseTypeKeyword(ts1);
    var (_, ts3) :- Expect(ts2, RParen);
    Parsed(t, ts3)
  }

  // After the first dot of `.set.count(type)`.
  function ParseNamedCount<N(==)>(ts: seq<Token<N>>): (r: Parse<Expr<N>, N>)
    ensures r.Parsed? ==> |r.rest| < |ts|
  {
    var (setName, ts1) :- ParseIdent(ts);
    var (_, ts2) :- Expect(ts1, Dot);
    var (method_, ts3) :- ParseIdent(ts2);
    if method_ != "count" then Error
    else
      var (t, ts4) :- ParenthesizedType(ts3);
      Parsed(NamedSetCount(setName, t), ts4)
  }

  // After an identifier.
  function ParseCall<N(==)>(name: string, ts: seq<Token<N>>): (r: Parse<Expr<N>, N>)
    ensures r.Parsed? ==> |r.rest| < |ts|
    decreases |ts|, 4
  {
    if name == "t" then
      var (_, ts1) :- Expect(ts, LBracket);
      if ts1 == [] || !ts1[0].Text? then Error
      else
        var (_, ts2) :- Expect(ts1[1..], RBracket);
        Parsed(TagAccess(ts1[0].text), ts2)
    else if name == "count" then
      var (t, ts1) :- ParenthesizedType(ts);
      Parsed(SetCount(t), ts1)
    else if name in AGGREGATES then
      var (_, ts1) :- Expect(ts, LParen);
      var (e, ts2) :- ParseAt(0, ts1);
      var (_, ts3) :- Expect(ts2, RParen);
      Parsed(Aggregate(name, e), ts3)
    else if IsElementFunction(name) then
      var (_, ts1) :- Expect(ts, LParen);
      var (args, ts2) :- ParseArgs(ts1);
      var (_, ts3) :- Expect(ts2, RParen);
      if |args| != Arity(name) then Error else Parsed(ElementCall(name, args), ts3)
    else Error
  }

  // A whole program: one expression, then the end marker.
  function ParseProgram<N(==)>(ts: seq<Token<N>>): Parse<Expr<N>, N> {
    var (e, ts1) :- ParseAt(0, ts);
    if Starts(ts1, Eof) then Parsed(e, ts1) else Error
  }

  // ---- what is parsed is a tree of the language -----------------------------------------------

  lemma {:induction false} ParsedIsWellFormed<N>(rank: nat, ts: seq<Token<N>>)
    requires rank <= 8
    ensures ParseAt(rank, ts).Parsed? ==> WellFormed(ParseAt(rank, ts).value)
    decreases |ts|, 1, 8 - rank
  {
    if rank == 0 {
      TernaryIsWellFormed(ts);
    } else if rank <= 6 {
      ParsedIsWellFormed(rank + 1, ts);
      var left := ParseAt(rank + 1, ts);
      if left.Parsed? { LoopIsWellFormed(rank, left.value, left.rest); }
    } else if rank == 7 {
      if Starts(ts, Bang) || Starts(ts, Operator(Sub)) {
        ParsedIsWellFormed(7, ts[1..]);
      } else {
        ParsedIsWellFormed(8, ts);
      }
    } else {
      PrimaryIsWellFormed(ts);
    }
  }

  lemma {:induction false} TernaryIsWellFormed<N>(ts: seq<Token<N>>)
    ensures ParseAt(0, ts).Parsed? ==> WellFormed(ParseAt(0, ts).value)
    decreases |ts|, 1, 8, 0
  {
    ParsedIsWellFormed(1, ts);
    var cond := ParseAt(1, ts);
    if cond.Parsed? && Starts(cond.rest, Question) {
      ParsedIsWellFormed(0, cond.rest[1..]);
      var then_ := ParseAt(0, cond.rest[1..]);
      if then_.Parsed? && Starts(then_.rest, Colon) { ParsedIsWellFormed(0, then_.rest[1..]); }
    }
  }

  lemma {:induction false} LoopIsWellFormed<N>(rank: nat, left: Expr<N>, ts: seq<Token<N>>)
    requires 1 <= rank <= 6 && WellFormed(left)
    ensures ParseLoop(rank, left, ts).Parsed? ==> WellFormed(ParseLoop(rank, left, ts).value)
    decreases |ts|, 2
  {
    if StartsBinary(ts, rank) {
      ParsedIsWellFormed(rank + 1, ts[1..]);
      var right := ParseAt(rank + 1, ts[1..]);
      if right.Parsed? { LoopIsWellFormed(rank, Binary(ts[0].op, left, right.value), right.rest); }
    }
  }

  predicate AllWellFormed<N>(args: seq<Expr<N>>) { forall i :: 0 <= i < |args| ==> WellFormed(args[i]) }

  lemma {:induction false} MoreArgsAreWellFormed<N>(args: seq<Expr<N>>, ts: seq<Token<N>>)
    requires AllWellFormed(args)
    ensures ParseMoreArgs(args, ts).Parsed? ==> AllWellFormed(ParseMoreArgs(args, ts).value)
    decreases |ts|, 2
  {
    if Starts(ts, Comma) {
      ParsedIsWellFormed(0, ts[1..]);
      var e := ParseAt(0, ts[1..]);
      if e.Parsed? { MoreArgsAreWellFormed(args + [e.value], e.rest); }
    }
  }

  lemma {:induction false} ArgsAreWellFormed<N>(ts: seq<Token<N>>)
    ensures ParseArgs(ts).Parsed? ==> AllWellFormed(ParseArgs(ts).value)
    decreases |ts|, 3
  {
    if !Starts(ts, RParen) {
      ParsedIsWellFormed(0, ts);
      var e := ParseAt(0, ts);
      if e.Parsed? { MoreArgsAreWellFormed([e.value], e.rest); }
    }
  }

  lemma {:induction false} PrimaryIsWellFormed<N>(ts: seq<Token<N>>)
    ensures ParsePrimary(ts).Parsed? ==> WellFormed(ParsePrimary(ts).value)
    decreases |ts|, 0
  {
    if ts != [] {
      match ts[0]
      case LParen => ParsedIsWellFormed(0, ts[1..]);
      case Dot => NamedCountIsWellFormed(ts[1..]);
      case Ident(name) => CallIsWellFormed(name, ts[1..]);
      case _ =>
    }
  }

  lemma TypeIsKeyword<N>(ts: seq<Token<N>>)
    ensures ParenthesizedType(ts).Parsed? ==> ParenthesizedType(ts).value in TYPE_KEYWORDS
  {
  }

  lemma NamedCountIsWellFormed<N>(ts: seq<Token<N>>)
    ensures ParseNamedCount(ts).Parsed? ==> WellFormed(ParseNamedCount(ts).value)
  {
    var setName := ParseIdent(ts);
    if setName.Parsed? && Starts(setName.rest, Dot) {
      var method_ := ParseIdent(setName.rest[1..]);
      if method_.Parsed? { TypeIsKeyword(method_.rest); }
    }
  }

  lemma {:induction false} CallIsWellFormed<N>(name: string, ts: seq<Token<N>>)
    ensures ParseCall(name, ts).Parsed? ==> WellFormed(ParseCall(name, ts).value)
    decreases |ts|, 4
  {
    if name == "t" {
    } else if name == "count" {
      TypeIsKeyword(ts);
    } else if name in AGGREGATES {
      if Starts(ts, LParen) { ParsedIsWellFormed(0, ts[1..]); }
    } else if IsElementFunction(name) {
      if Starts(ts, LParen) { ArgsAreWellFormed(ts[1..]); }
    }
  }

  // Main result: whatever the parser accepts is a tree the compiler and the evaluators take.
  lemma AcceptedIsWellFormed<N>(ts: seq<Token<N>>)
    ensures ParseProgram(ts).Parsed? ==> WellFormed(ParseProgram(ts).value)
  {
    ParsedIsWellFormed(0, ts);
  }
}
