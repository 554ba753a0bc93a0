/** Which names can be called, and with how many arguments (src/osmpq/ql/evaluator.py:290-312, 419-480). */
module CallForms {
  import opened Expressions
  import opened Parser
  import opened Printer

  predicate TakesNothing(name: string) {
    || name == "id" || name == "type" || name == "version" || name == "timestamp" || name == "changeset"
    || name == "uid" || name == "user" || name == "count_tags" || name == "count_members"
    || name == "count_distinct_members" || name == "is_closed" || name == "length" || name == "lat" || name == "lon"
  }

  predicate TakesOne(name: string) {
    name == "is_tag" || name == "count_by_role" || name == "number" || name == "is_number"
  }

  predicate Combines(name: string) { name == "u" || name == "min" || name == "max" || name == "sum" || name == "set" }

  predicate IsType(name: string) {
    name == "nodes" || name == "ways" || name == "relations" || name == "areas" || name == "nwr"
  }

  lemma NamesAre(name: string)
    ensures name in NULLARY <==> TakesNothing(name)
    ensures name in UNARY <==> TakesOne(name)
    ensures name in AGGREGATES <==> Combines(name)
    ensures name in TYPE_KEYWORDS <==> IsType(name)
  {
  }

  lemma NamesDiffer(name: string)
    ensures TakesNothing(name) ==> !TakesOne(name) && !Combines(name) && name != "t" && name != "count"
    ensures TakesOne(name) ==> !Combines(name) && name != "t" && name != "count"
    ensures Combines(name) ==> name != "t" && name != "count"
    ensures IsType(name) ==> !TakesNothing(name) && !TakesOne(name) && !Combines(name) && name != "t" && name != "count"
  {
  }

  // ---- arguments --------------------------------------------------------------------------------

  lemma {:induction false} MoreArgsParse<N>(done: seq<Expr<N>>, args: seq<Expr<N>>, rest: seq<Token<N>>)
    requires args != [] && AllWellFormed(args)
    ensures ParseMoreArgs(done, [Comma] + PrintArgs(args, [RParen] + rest)) == Parsed(done + args, [RParen] + rest)
    decreases |args|
  {
    var ts := [Comma] + PrintArgs(args, [RParen] + rest);
    assert ts[1..] == PrintArgs(args, [RParen] + rest);
    if |args| == 1 {
      ParseUndoesPrint(args[0], 0, [RParen] + rest);
      assert args == [args[0]];
      assert ParseMoreArgs(done + [args[0]], [RParen] + rest) == Parsed(done + [args[0]], [RParen] + rest);
    } else {
      var more := [Comma] + PrintArgs(args[1..], [RParen] + rest);
      ParseUndoesPrint(args[0], 0, more);
      MoreArgsParse(done + [args[0]], args[1..], rest);
      assert done + args == (done + [args[0]]) + args[1..];
    }
  }

  lemma ArgsParse<N>(args: seq<Expr<N>>, rest: seq<Token<N>>)
    requires AllWellFormed(args)
    ensures ParseArgs(PrintArgs(args, [RParen] + rest)) == Parsed(args, [RParen] + rest)
  {
    if args != [] {
      var more := if |args| == 1 then [RParen] + rest else [Comma] + PrintArgs(args[1..], [RParen] + rest);
      ParseUndoesPrint(args[0], 0, more);
      NotAParen(args[0], more);
      if |args| == 1 {
        assert args == [args[0]];
      } else {
        MoreArgsParse([args[0]], args[1..], rest);
        assert args == [args[0]] + args[1..];
      }
    }
  }

  // A printed tree starts with no type keyword, and with no bracket.
  lemma {:induction false} StartsOtherwise<N>(e: Expr<N>, min: nat, rest: seq<Token<N>>)
    requires WellFormed(e)
    ensures PrintAt(e, min, rest) != [] && PrintAt(e, min, rest)[0] != RParen
    ensures PrintAt(e, min, rest)[0].Ident? ==> !IsType(PrintAt(e, min, rest)[0].name)
    decreases e
  {
    match e
    case Binary(op, l, r) =>
      StartsOtherwise(l, OpRank(op), [Operator(op)] + PrintAt(r, OpRank(op) + 1, rest));
      StartsOtherwise(l, OpRank(op), [Operator(op)] + PrintAt(r, OpRank(op) + 1, [RParen] + rest));
    case Ternary(c, t, o) =>
      StartsOtherwise(c, 1, [Question] + PrintAt(t, 0, [Colon] + PrintAt(o, 0, rest)));
      StartsOtherwise(c, 1, [Question] + PrintAt(t, 0, [Colon] + PrintAt(o, 0, [RParen] + rest)));
    case ElementCall(name, _) => NamesAre(name); NamesDiffer(name);
    case Aggregate(name, _) => NamesAre(name); NamesDiffer(name);
    case TagAccess(_) => NamesDiffer("nodes"); NamesDiffer("ways"); NamesDiffer("relations"); NamesDiffer("areas"); NamesDiffer("nwr");
    case SetCount(_) => NamesDiffer("nodes"); NamesDiffer("ways"); NamesDiffer("relations"); NamesDiffer("areas"); NamesDiffer("nwr");
    case _ =>
  }

  // ---- the calls --------------------------------------------------------------------------------

  // What a call of a name with some arguments gives.
  function Called<N>(name: string, args: seq<Expr<N>>): Parse<Expr<N>, N> {
    if (TakesNothing(name) && |args| == 0) || (TakesOne(name) && |args| == 1) then Parsed(ElementCall(name, args), [Eof])
    else if Combines(name) && |args| == 1 then Parsed(Aggregate(name, args[0]), [Eof])
    else Error
  }

  lemma ElementCallParses<N>(name: string, args: seq<Expr<N>>)
    requires AllWellFormed(args) && (TakesNothing(name) || TakesOne(name))
    ensures ParseProgram([Ident(name), LParen] + PrintArgs(args, [RParen, Eof])) == Called(name, args)
  {
    var inner := PrintArgs(args, [RParen, Eof]);
    var ts := [Ident(name), LParen] + inner;
    NamesAre(name);
    NamesDiffer(name);
    var close: seq<Token<N>> := [RParen, Eof];
    assert close == [RParen] + [Eof] && close[1..] == [Eof];
    ArgsParse(args, [Eof]);
    assert ts[1..] == [LParen] + inner && ts[1..][1..] == inner;
    CallToProgram(name, ts);
  }

  lemma AggregateOfNothing<N>(name: string)
    requires Combines(name)
    ensures ParseCall<N>(name, [LParen, RParen, Eof]) == Error
  {
    NamesAre(name);
    NamesDiffer(name);
    var ts: seq<Token<N>> := [LParen, RParen, Eof];
    assert ts[1..] == [RParen, Eof];
    NothingParses(ts[1..]);
  }

  // One argument ends at the parenthesis; a comma after it is an error.
  lemma AggregateOfSome<N>(name: string, arg: Expr<N>, more: seq<Token<N>>)
    requires Combines(name) && WellFormed(arg) && (Starts(more, RParen) || Starts(more, Comma))
    ensures ParseCall(name, [LParen] + PrintAt(arg, 0, more))
      == if Starts(more, RParen) then Parsed(Aggregate(name, arg), more[1..]) else Error
  {
    NamesAre(name);
    NamesDiffer(name);
    ParseUndoesPrint(arg, 0, more);
    assert ([LParen] + PrintAt(arg, 0, more))[1..] == PrintAt(arg, 0, more);
  }

  lemma AggregateParsesExactly<N>(name: string, args: seq<Expr<N>>)
    requires AllWellFormed(args) && Combines(name)
    ensures ParseProgram([Ident(name), LParen] + PrintArgs(args, [RParen, Eof])) == Called(name, args)
  {
    var inner := PrintArgs(args, [RParen, Eof]);
    var ts := [Ident(name), LParen] + inner;
    NamesDiffer(name);
    assert ts[1..] == [LParen] + inner;
    if args == [] {
      AggregateOfNothing<N>(name);
      assert [LParen] + inner == [LParen, RParen, Eof];
    } else {
      AggregateOfSome(name, args[0], if |args| == 1 then [RParen, Eof] else [Comma] + PrintArgs(args[1..], [RParen, Eof]));
    }
    CallToProgram(name, ts);
  }

  lemma NothingParses<N>(ts: seq<Token<N>>)
    requires Starts(ts, RParen)
    ensures ParseAt(0, ts) == Error
  {
    assert ParseAt(7, ts) == ParseAt(8, ts) == Error;
    assert ParseAt(5, ts) == ParseAt(6, ts) == Error;
    assert ParseAt(3, ts) == ParseAt(4, ts) == Error;
    assert ParseAt(1, ts) == ParseAt(2, ts) == Error;
  }

  // A call that ends the tokens, or fails, is the whole program.
  lemma CallToProgram<N>(name: string, ts: seq<Token<N>>)
    requires Starts(ts, Ident(name))
    requires ParseCall(name, ts[1..]).Parsed? ==> Starts(ParseCall(name, ts[1..]).rest, Eof) || Starts(ParseCall(name, ts[1..]).rest, Comma)
    ensures ParseProgram(ts)
      == var p := ParseCall(name, ts[1..]);
         if p.Parsed? && Starts(p.rest, Eof) then p else Error
  {
    var p := ParseCall(name, ts[1..]);
    assert ParseAt(8, ts) == p;
    if p.Parsed? {
      ParsedAtWeakerLevel(ts, p.value, p.rest, 0, 8);
    } else {
      assert ParseAt(7, ts) == Error;
      assert ParseAt(5, ts) == ParseAt(6, ts) == Error;
      assert ParseAt(3, ts) == ParseAt(4, ts) == Error;
      assert ParseAt(1, ts) == ParseAt(2, ts) == Error;
    }
  }

  // Main result: a name called with any arguments is accepted exactly when it is one of the names
  // above, with as many arguments as it takes.
  lemma CallsParseExactly<N>(name: string, args: seq<Expr<N>>)
    requires AllWellFormed(args)
    ensures ParseProgram([Ident(name), LParen] + PrintArgs(args, [RParen, Eof])) == Called(name, args)
  {
    if TakesNothing(name) || TakesOne(name) {
      ElementCallParses(name, args);
    } else if Combines(name) {
      AggregateParsesExactly(name, args);
    } else {
      var inner := PrintArgs(args, [RParen, Eof]);
      var ts := [Ident(name), LParen] + inner;
      NamesAre(name);
      assert ts[1..] == [LParen] + inner && ts[1..][1..] == inner;
      if args != [] {
        StartsOtherwise(args[0], 0, if |args| == 1 then [RParen, Eof] else [Comma] + PrintArgs(args[1..], [RParen, Eof]));
        if inner[0].Ident? { NamesAre(inner[0].name); }
      }
      assert ParseCall(name, ts[1..]) == Error;
      CallToProgram(name, ts);
    }
  }

  // Counts take a type; a tag access takes a text.
  lemma CountsParseExactly<N>(typeName: string, setName: string)
    ensures ParseProgram<N>([Ident("count"), LParen, Ident(typeName), RParen, Eof])
      == if IsType(typeName) then Parsed(SetCount(typeName), [Eof]) else Error
    ensures IsType(typeName) ==>
      ParseProgram<N>([Dot, Ident(setName), Dot, Ident("count"), LParen, Ident(typeName), RParen, Eof])
        == Parsed(NamedSetCount(setName, typeName), [Eof])
  {
    NamesAre(typeName);
    var ts: seq<Token<N>> := [Ident("count"), LParen, Ident(typeName), RParen, Eof];
    assert ts[1..] == [LParen, Ident(typeName), RParen, Eof] && ts[1..][1..] == [Ident(typeName), RParen, Eof];
    assert ts[1..][1..][1..] == [RParen, Eof] && ts[1..][1..][1..][1..] == [Eof];
    assert "count" != "t";
    CallToProgram("count", ts);
    if IsType(typeName) {
      ParseProgramUndoesPrint<N>(NamedSetCount(setName, typeName));
      var front: seq<Token<N>> := [Dot, Ident(setName), Dot, Ident("count"), LParen, Ident(typeName), RParen];
      assert front + [Eof] == [Dot, Ident(setName), Dot, Ident("count"), LParen, Ident(typeName), RParen, Eof];
    }
  }

  lemma TagsParse<N>(key: string)
    ensures ParseProgram<N>([Ident("t"), LBracket, Text(key), RBracket, Eof]) == Parsed(TagAccess(key), [Eof])
  {
    ParseProgramUndoesPrint<N>(TagAccess(key));
    var front: seq<Token<N>> := [Ident("t"), LBracket, Text(key), RBracket];
    assert front + [Eof] == [Ident("t"), LBracket, Text(key), RBracket, Eof];
  }
}
