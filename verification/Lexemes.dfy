/** The characters of each kind of token, spelled out (src/osmpq/ql/evaluator.py:82-215). */
module Lexemes {
  import opened Options
  import opened Expressions
  import opened Tokenizer

  predicate Numeral(s: string) { s != "" && forall i :: 0 <= i < |s| ==> '0' <= s[i] <= '9' }

  predicate LetterOrUnderscore(c: char) { 'a' <= c <= 'z' || 'A' <= c <= 'Z' || c == '_' }

  predicate DigitFirst(s: string) { s != "" && '0' <= s[0] <= '9' }

  lemma RunOf(s: string, rest: string)
    requires Numeral(s) && !DigitFirst(rest)
    ensures DigitRun(s + rest) == |s|
  {
    assert forall i :: 0 <= i < |s| ==> (s + rest)[i] == s[i];
    DigitRunIs(s + rest, |s|);
  }

  // An integer ends before anything that is neither a digit nor a dot before a digit.
  lemma IntegersRead(a: string, rest: string)
    requires Numeral(a) && !DigitFirst(rest) && !(|rest| > 1 && rest[0] == '.' && DigitFirst(rest[1..]))
    ensures NextToken(a + rest) == Take(Number(a), |a|)
  {
    var text := a + rest;
    RunOf(a, rest);
    assert text[0] == a[0] && text[..|a|] == a;
    if rest != "" { assert text[|a|] == rest[0]; }
    if |rest| > 1 { assert text[|a| + 1] == rest[1]; }
    StartsAsNumber(text, |a|);
  }

  // One dot between digits makes a fraction; a second dot is not part of it.
  lemma FractionsRead(a: string, b: string, rest: string)
    requires Numeral(a) && Numeral(b) && !DigitFirst(rest)
    ensures NextToken(a + ("." + (b + rest))) == Take(Number(a + "." + b), |a| + 1 + |b|)
  {
    var tail := "." + (b + rest);
    var text := a + tail;
    RunOf(b, rest);
    RunOf(a, tail);
    assert text[0] == a[0] && text[|a|] == '.' && text[|a| + 1] == b[0];
    assert text[|a| + 1..] == b + rest && text[..|a| + 1 + |b|] == a + "." + b;
    StartsAsNumber(text, |a| + 1 + |b|);
  }

  lemma StartsAsNumber(text: string, n: nat)
    requires DigitFirst(text) && NumberRun(text) == n
    ensures NextToken(text) == Take(Number(text[..n]), n)
  {
    assert Single(text[0]) == None && Double(text) == None;
  }

  lemma NamesRead(s: string, rest: string)
    requires s != "" && LetterOrUnderscore(s[0])
    requires forall i :: 0 <= i < |s| ==> LetterOrUnderscore(s[i]) || '0' <= s[i] <= '9'
    requires rest == "" || !(LetterOrUnderscore(rest[0]) || DigitFirst(rest))
    ensures NextToken(s + rest) == Take(Ident(s), |s|)
  {
    assert forall i :: 0 <= i < |s| ==> (s + rest)[i] == s[i];
    if rest != "" { assert (s + rest)[|s|] == rest[0]; }
    NameRunIs(s + rest, |s|);
    assert (s + rest)[..|s|] == s;
  }

  lemma SpacesAreSkipped(c: char, rest: string)
    ensures NextToken([c] + rest) == Skip <==> c == ' ' || c == '\t' || c == '\r' || c == '\n'
    ensures c == ' ' || c == '\t' || c == '\r' || c == '\n' ==> Tokens([c] + rest) == Tokens(rest)
  {
    assert ([c] + rest)[1..] == rest;
  }

  // ---- literals ---------------------------------------------------------------------------------

  // A character as it is, or after a backslash.
  datatype Piece = Plain(c: char) | Escaped(c: char)

  function Spelled(ps: seq<Piece>): string {
    if ps == [] then ""
    else (match ps[0] case Plain(c) => [c] case Escaped(c) => ['\\', c]) + Spelled(ps[1..])
  }

  function Meant(ps: seq<Piece>): string {
    if ps == [] then ""
    else
      (match ps[0]
       case Plain(c) => [c]
       case Escaped('n') => "\n"
       case Escaped('t') => "\t"
       case Escaped('r') => "\r"
       case Escaped(c) => [c]) + Meant(ps[1..])
  }

  predicate NoQuote(quote: char, ps: seq<Piece>) {
    forall i :: 0 <= i < |ps| && ps[i].Plain? ==> ps[i].c != quote && ps[i].c != '\\'
  }

  // A literal in either quote ends at the next unescaped quote; without one it is an error.
  lemma {:induction false} PiecesRead(quote: char, ps: seq<Piece>, rest: string)
    requires quote != '\\' && NoQuote(quote, ps)
    ensures ReadString(quote, Spelled(ps) + ([quote] + rest)) == Some((Meant(ps), |Spelled(ps)| + 1))
    ensures ReadString(quote, Spelled(ps)) == None
  {
    var text := Spelled(ps) + ([quote] + rest);
    if ps == [] {
      assert text == [quote] + rest;
    } else {
      PiecesRead(quote, ps[1..], rest);
      var head := match ps[0] case Plain(c) => [c] case Escaped(c) => ['\\', c];
      assert text == head + (Spelled(ps[1..]) + ([quote] + rest));
      assert text[|head|..] == Spelled(ps[1..]) + ([quote] + rest);
      assert Spelled(ps)[|head|..] == Spelled(ps[1..]);
      assert Spelled(ps)[0] == text[0] == head[0];
      if ps[0].Escaped? { assert Spelled(ps)[1] == text[1] == head[1]; }
    }
  }

  lemma LiteralsRead(quote: char, ps: seq<Piece>, rest: string)
    requires quote == '"' || quote == '\''
    requires NoQuote(quote, ps)
    ensures NextToken([quote] + (Spelled(ps) + ([quote] + rest))) == Take(Text(Meant(ps)), |Spelled(ps)| + 2)
    ensures NextToken([quote] + Spelled(ps)) == Fail
  {
    PiecesRead(quote, ps, rest);
    assert ([quote] + (Spelled(ps) + ([quote] + rest)))[1..] == Spelled(ps) + ([quote] + rest);
    assert ([quote] + Spelled(ps))[1..] == Spelled(ps);
  }

  // ---- operators and punctuation ----------------------------------------------------------------

  lemma TwoCharacters(rest: string)
    ensures NextToken("&&" + rest) == Take(Operator(And), 2) && NextToken("||" + rest) == Take(Operator(Or), 2)
    ensures NextToken("<=" + rest) == Take(Operator(Le), 2) && NextToken(">=" + rest) == Take(Operator(Ge), 2)
    ensures NextToken("==" + rest) == Take(Operator(Eq), 2) && NextToken("!=" + rest) == Take(Operator(Ne), 2)
  {
  }

  lemma OneCharacter(c: char, tok: Tok, rest: string)
    requires Single(c) == Some(tok) && !((c == '<' || c == '>' || c == '!') && rest != "" && rest[0] == '=')
    ensures NextToken([c] + rest) == Take(tok, 1)
  {
    var text := [c] + rest;
    if rest != "" { assert text[1] == rest[0]; }
  }

  // One character; the first three only where they do not start a longer operator.
  lemma OperatorCharacters(rest: string)
    ensures !(rest != "" && rest[0] == '=') ==> NextToken("<" + rest) == Take(Operator(Lt), 1)
    ensures !(rest != "" && rest[0] == '=') ==> NextToken(">" + rest) == Take(Operator(Gt), 1)
    ensures !(rest != "" && rest[0] == '=') ==> NextToken("!" + rest) == Take(Bang, 1)
    ensures NextToken("+" + rest) == Take(Operator(Add), 1) && NextToken("-" + rest) == Take(Operator(Sub), 1)
    ensures NextToken("*" + rest) == Take(Operator(Mul), 1) && NextToken("/" + rest) == Take(Operator(Div), 1)
  {
    if !(rest != "" && rest[0] == '=') {
      OneCharacter('<', Operator(Lt), rest);
      OneCharacter('>', Operator(Gt), rest);
      OneCharacter('!', Bang, rest);
    }
    OneCharacter('+', Operator(Add), rest);
    OneCharacter('-', Operator(Sub), rest);
    OneCharacter('*', Operator(Mul), rest);
    OneCharacter('/', Operator(Div), rest);
  }

  lemma PunctuationCharacters(rest: string)
    ensures NextToken("?" + rest) == Take(Question, 1) && NextToken(":" + rest) == Take(Colon, 1)
    ensures NextToken("(" + rest) == Take(LParen, 1) && NextToken(")" + rest) == Take(RParen, 1)
    ensures NextToken("[" + rest) == Take(LBracket, 1) && NextToken("]" + rest) == Take(RBracket, 1)
    ensures NextToken("." + rest) == Take(Dot, 1) && NextToken("," + rest) == Take(Comma, 1)
  {
    OneCharacter('?', Question, rest);
    OneCharacter(':', Colon, rest);
    OneCharacter(',', Comma, rest);
    OneCharacter('(', LParen, rest);
    OneCharacter(')', RParen, rest);
    OneCharacter('[', LBracket, rest);
    OneCharacter(']', RBracket, rest);
    OneCharacter('.', Dot, rest);
  }

  // A single & or | or = is an error, and so is any other character outside names, numbers, literals
  // and spaces.
  lemma OthersFail(c: char, rest: string)
    requires c !in "<>+-*/!?:,()[].\"' \t\r\n" && !LetterOrUnderscore(c) && !('0' <= c <= '9')
    requires (c == '&' || c == '|' || c == '=') ==> !(rest != "" && rest[0] == c)
    ensures NextToken([c] + rest) == Fail
  {
    var text := [c] + rest;
    if rest != "" { assert text[1] == rest[0]; }
  }
}
