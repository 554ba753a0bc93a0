/** The parser object (src/osmpq/ql/evaluator.py, class Parser).

    It holds a token list and a position that only advances, and loops rebuild the left operand.
    Each method is proved to compute the grammar functions of Parser on the tokens from the
    current position on, so what is proved about those functions (they undo the printer, and end
    on every token list) holds of the object. An error leaves the position anywhere; the program
    gives up then. The six methods of the binary levels differ in the operators they look for
    only, and are one method here with the level as a parameter. */
module TokenParser {
  import opened Options
  import opened Expressions
  import opened Parser
  import opened Tokenizer

  // The forms of an operand, by its first token.
  lemma PrimaryForms<N>(ts: seq<Token<N>>)
    requires ts != []
    ensures ParsePrimary(ts) == match ts[0]
      case Number(v) => Parsed(Num(v), ts[1..])
      case Text(s) => Parsed(Str(s), ts[1..])
      case LParen => ParseParenthesized(ts[1..])
      case Dot => ParseNamedCount(ts[1..])
      case Ident(name) => ParseCall(name, ts[1..])
      case _ => Error
  {
  }

  class ExpressionParser<N(==)> {
    const tokens: seq<Token<N>>
    var pos: nat

    ghost predicate Valid()
      reads this
    {
      pos < |tokens| && tokens[|tokens| - 1] == Eof
    }

    ghost function Left(): seq<Token<N>>
      reads this
      requires Valid()
    {
      tokens[pos..]
    }

    // None stands for the ParseError; the position after an error is not used.
    ghost predicate Did<T>(r: Option<T>, p: Parse<T, N>)
      reads this
      requires Valid()
    {
      match p
      case Error => r.None?
      case Parsed(v, rest) => r == Some(v) && Left() == rest
    }

    // The tokenizer always ends the list with the end marker.
    constructor (toks: seq<Token<N>>)
      requires toks != [] && toks[|toks| - 1] == Eof
      ensures Valid() && tokens == toks && pos == 0
    {
      tokens, pos := toks, 0;
    }

    method Advance() returns (tok: Token<N>)
      requires Valid()
      modifies this`pos
      ensures Valid() && tok == old(Left())[0]
      ensures tok != Eof ==> Left() == old(Left())[1..] && pos == old(pos) + 1
    {
      tok := tokens[pos];
      if pos < |tokens| - 1 { pos := pos + 1; }
    }

    method ExpectToken(tok: Token<N>) returns (r: Option<()>)
      requires Valid() && tok != Eof
      modifies this`pos
      ensures Valid() && Did(r, Expect(old(Left()), tok)) && pos >= old(pos)
    {
      if tokens[pos] != tok { return None; }
      var _ := Advance();
      return Some(());
    }

    method ExpectIdent() returns (r: Option<string>)
      requires Valid()
      modifies this`pos
      ensures Valid() && Did(r, ParseIdent(old(Left()))) && pos >= old(pos)
    {
      if !tokens[pos].Ident? { return None; }
      var tok := Advance();
      return Some(tok.name);
    }

    method ExpectTypeKeyword() returns (r: Option<string>)
      requires Valid()
      modifies this`pos
      ensures Valid() && Did(r, ParseTypeKeyword(old(Left()))) && pos >= old(pos)
    {
      if !tokens[pos].Ident? || tokens[pos].name !in TYPE_KEYWORDS { return None; }
      var tok := Advance();
      return Some(tok.name);
    }

    method ParseTernary() returns (r: Option<Expr<N>>)
      requires Valid()
      modifies this`pos
      ensures Valid() && Did(r, ParseAt(0, old(Left())))
      decreases |tokens| - pos, 10
    {
      var cond := ParseBinary(1);
      if cond.None? || tokens[pos] != Question { return cond; }
      var _ := Advance();
      var then_ := ParseTernary();
      if then_.None? { return None; }
      var colon := ExpectToken(Colon);
      if colon.None? { return None; }
      var otherwise := ParseTernary();
      if otherwise.None? { return None; }
      return Some(Ternary(cond.value, then_.value, otherwise.value));
    }

    // parse_or, parse_and, parse_equality, parse_relational, parse_additive and
    // parse_multiplicative are this method at ranks 1 to 6.
    method ParseBinary(rank: nat) returns (r: Option<Expr<N>>)
      requires Valid() && 1 <= rank <= 7
      modifies this`pos
      ensures Valid() && Did(r, ParseAt(rank, old(Left())))
      decreases |tokens| - pos, 9 - rank
    {
      if rank == 7 {
        r := ParseUnary();
        return;
      }
      var left := ParseBinary(rank + 1);
      if left.None? { return None; }
      var tree := left.value;
      while tokens[pos].Operator? && OpRank(tokens[pos].op) == rank
        invariant Valid() && pos > old(pos)
        invariant ParseLoop(rank, tree, Left()) == ParseAt(rank, old(Left()))
        decreases |tokens| - pos
      {
        var tok := Advance();
        var right := ParseBinary(rank + 1);
        if right.None? { return None; }
        tree := Binary(tok.op, tree, right.value);
      }
      return Some(tree);
    }

    method ParseUnary() returns (r: Option<Expr<N>>)
      requires Valid()
      modifies this`pos
      ensures Valid() && Did(r, ParseAt(7, old(Left())))
      decreases |tokens| - pos, 1
    {
      if tokens[pos] == Bang || tokens[pos] == Operator(Sub) {
        var tok := Advance();
        var e := ParseUnary();
        if e.None? { return None; }
        return Some(Unary(if tok == Bang then Not else Neg, e.value));
      }
      assert ParseAt(7, Left()) == ParseAt(8, Left()) == ParsePrimary(Left());
      r := ParseOperand();
    }

    method ParseOperand() returns (r: Option<Expr<N>>)
      requires Valid()
      modifies this`pos
      ensures Valid() && Did(r, ParsePrimary(old(Left())))
      decreases |tokens| - pos, 0
    {
      if tokens[pos] == Eof { return None; }
      ghost var ts := Left();
      var tok := Advance();
      PrimaryForms(ts);
      match tok {
        case Number(v) => return Some(Num(v));
        case Text(s) => return Some(Str(s));
        case LParen => r := ParseInParens();
        case Dot => r := ParseNamedSetCount();
        case Ident(name) => r := ParseAfterName(name);
        case _ => return None;
      }
    }

    method ParseInParens() returns (r: Option<Expr<N>>)
      requires Valid()
      modifies this`pos
      ensures Valid() && Did(r, ParseParenthesized(old(Left())))
      decreases |tokens| - pos, 12
    {
      var e := ParseTernary();
      if e.None? { return None; }
      var close := ExpectToken(RParen);
      return if close.None? then None else e;
    }

    method ParseNamedSetCount() returns (r: Option<Expr<N>>)
      requires Valid()
      modifies this`pos
      ensures Valid() && Did(r, ParseNamedCount(old(Left())))
    {
      var setName := ExpectIdent();
      if setName.None? { return None; }
      var dot := ExpectToken(Dot);
      if dot.None? { return None; }
      var method_ := ExpectIdent();
      if method_ != Some("count") { return None; }
      var typeName := ParseParenthesizedType();
      if typeName.None? { return None; }
      return Some(NamedSetCount(setName.value, typeName.value));
    }

    method ParseParenthesizedType() returns (r: Option<string>)
      requires Valid()
      modifies this`pos
      ensures Valid() && pos >= old(pos)
      ensures Did(r, ParenthesizedType(old(Left())))
    {
      var open := ExpectToken(LParen);
      if open.None? { return None; }
      var typeName := ExpectTypeKeyword();
      if typeName.None? { return None; }
      var close := ExpectToken(RParen);
      if close.None? { return None; }
      return typeName;
    }

    method ParseAfterName(name: string) returns (r: Option<Expr<N>>)
      requires Valid()
      modifies this`pos
      ensures Valid() && Did(r, ParseCall(name, old(Left())))
      decreases |tokens| - pos, 12
    {
      if name == "t" {
        r := ParseTagKey();
      } else if name == "count" {
        var typeName := ParseParenthesizedType();
        return if typeName.None? then None else Some(SetCount(typeName.value));
      } else if name in AGGREGATES {
        var open := ExpectToken(LParen);
        if open.None? { return None; }
        var inner := ParseTernary();
        if inner.None? { return None; }
        var close := ExpectToken(RParen);
        return if close.None? then None else Some(Aggregate(name, inner.value));
      } else if IsElementFunction(name) {
        var open := ExpectToken(LParen);
        if open.None? { return None; }
        var args := ParseArguments();
        if args.None? { return None; }
        var close := ExpectToken(RParen);
        if close.None? || |args.value| != Arity(name) { return None; }
        return Some(ElementCall(name, args.value));
      } else {
        return None;
      }
    }

    method ParseTagKey() returns (r: Option<Expr<N>>)
      requires Valid()
      modifies this`pos
      ensures Valid() && Did(r, ParseCall("t", old(Left())))
    {
      var open := ExpectToken(LBracket);
      if open.None? || !tokens[pos].Text? { return None; }
      var key := Advance();
      var close := ExpectToken(RBracket);
      return if close.None? then None else Some(TagAccess(key.text));
    }

    method ParseArguments() returns (r: Option<seq<Expr<N>>>)
      requires Valid()
      modifies this`pos
      ensures Valid() && Did(r, ParseArgs(old(Left())))
      decreases |tokens| - pos, 11
    {
      if tokens[pos] == RParen { return Some([]); }
      var first := ParseTernary();
      if first.None? { return None; }
      var args := [first.value];
      while tokens[pos] == Comma
        invariant Valid() && pos > old(pos)
        invariant ParseMoreArgs(args, Left()) == ParseArgs(old(Left()))
        decreases |tokens| - pos
      {
        var _ := Advance();
        var next := ParseTernary();
        if next.None? { return None; }
        args := args + [next.value];
      }
      return Some(args);
    }

    method ParseWhole() returns (r: Option<Expr<N>>)
      requires Valid() && pos == 0
      modifies this`pos
      ensures Valid()
      ensures r == match ParseProgram(tokens) case Error => None case Parsed(e, _) => Some(e)
    {
      assert tokens[0..] == tokens;
      r := ParseTernary();
      if r.Some? && tokens[pos] != Eof { r := None; }
    }
  }

  // parse(text), from text to tree.
  method ParseExpression(text: string) returns (r: Option<Expr<string>>)
    ensures r == match ParseText(text) case Error => None case Parsed(e, _) => Some(e)
  {
    var tokens := Tokenize(text);
    if tokens.None? { return None; }
    var parser := new ExpressionParser(tokens.value);
    r := parser.ParseWhole();
  }
}
