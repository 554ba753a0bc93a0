/** The tokenizer of the evaluator language (src/osmpq/ql/evaluator.py:99-215).

    A text is read from the left: spaces are skipped, and each token is taken by the first branch
    that applies, in the order of the program. Letters and digits are the ASCII ones. A number
    token carries its text. The character rules are functions on the text still to be read; the
    program's loops over positions are proved to compute them. Written out with escapes and a
    space after each token, tokens are read back as themselves, so every tree that can be written
    has a text that tokenizer and parser turn back into it. */
module Tokenizer {
  import opened Options
  import opened Expressions
  import opened Parser
  import opened Printer

  type Tok = Token<string>

  // ---- characters and runs --------------------------------------------------------------------

  predicate IsDigit(c: char) { '0' <= c <= '9' }
  predicate IsAlpha(c: char) { 'a' <= c <= 'z' || 'A' <= c <= 'Z' }
  predicate StartsName(c: char) { IsAlpha(c) || c == '_' }
  predicate InName(c: char) { StartsName(c) || IsDigit(c) }
  predicate IsSpace(c: char) { c == ' ' || c == '\t' || c == '\r' || c == '\n' }

  function DigitRun(text: string): (n: nat)
    ensures n <= |text|
    ensures n < |text| ==> !IsDigit(text[n])
    ensures forall i :: 0 <= i < n ==> IsDigit(text[i])
  {
    if text != "" && IsDigit(text[0]) then 1 + DigitRun(text[1..]) else 0
  }

  function NameRun(text: string): (n: nat)
    ensures n <= |text|
    ensures n < |text| ==> !InName(text[n])
    ensures forall i :: 0 <= i < n ==> InName(text[i])
  {
    if text != "" && InName(text[0]) then 1 + NameRun(text[1..]) else 0
  }

  lemma {:induction false} DigitRunIs(text: string, n: nat)
    requires n <= |text| && (forall i :: 0 <= i < n ==> IsDigit(text[i]))
    requires n < |text| ==> !IsDigit(text[n])
    ensures DigitRun(text) == n
  {
    var m := DigitRun(text);
  }

  lemma {:induction false} NameRunIs(text: string, n: nat)
    requires n <= |text| && (forall i :: 0 <= i < n ==> InName(text[i]))
    requires n < |text| ==> !InName(text[n])
    ensures NameRun(text) == n
  {
    var m := NameRun(text);
  }

  // Digits, then a dot and more digits if a digit follows the dot.
  function NumberRun(text: string): (n: nat)
    ensures n <= |text|
  {
    var a := DigitRun(text);
    if a + 1 < |text| && text[a] == '.' && IsDigit(text[a + 1]) then a + 1 + DigitRun(text[a + 1..]) else a
  }

  // ---- string literals ------------------------------------------------------------------------

  function Unescape(c: char): char {
    if c == 'n' then '\n' else if c == 't' then '\t' else if c == 'r' then '\r' else c
  }

  // A literal read after some characters already read.
  function Prefixed(out: string, width: nat, r: Option<(string, nat)>): Option<(string, nat)> {
    match r case None => None case Some((s, n)) => Some((out + s, width + n))
  }

  // The value of a literal after its opening quote and the characters read, None if unterminated.
  function ReadString(quote: char, text: string): (r: Option<(string, nat)>)
    ensures r.Some? ==> 0 < r.value.1 <= |text|
  {
    if text == "" then None
    else if text[0] == quote then Some(("", 1))
    else
      var width := if text[0] == '\\' && |text| > 1 then 2 else 1;
      var c := if width == 2 then Unescape(text[1]) else text[0];
      Prefixed([c], width, ReadString(quote, text[width..]))
  }

  // ---- one token ------------------------------------------------------------------------------

  datatype Step = Skip | Take(tok: Tok, width: nat) | Fail

  predicate Pair(text: string, a: char, b: char) { |text| > 1 && text[0] == a && text[1] == b }

  function Single(c: char): Option<Tok> {
    match c
    case '(' => Some(LParen)
    case ')' => Some(RParen)
    case '[' => Some(LBracket)
    case ']' => Some(RBracket)
    case ',' => Some(Comma)
    case '.' => Some(Dot)
    case '+' => Some(Operator(Add))
    case '*' => Some(Operator(Mul))
    case '/' => Some(Operator(Div))
    case '<' => Some(Operator(Lt))
    case '>' => Some(Operator(Gt))
    case '!' => Some(Bang)
    case '-' => Some(Operator(Sub))
    case '?' => Some(Question)
    case ':' => Some(Colon)
    case _ => None
  }

  function Double(text: string): Option<Tok> {
    if Pair(text, '&', '&') then Some(Operator(And))
    else if Pair(text, '|', '|') then Some(Operator(Or))
    else if Pair(text, '<', '=') then Some(Operator(Le))
    else if Pair(text, '>', '=') then Some(Operator(Ge))
    else if Pair(text, '=', '=') then Some(Operator(Eq))
    else if Pair(text, '!', '=') then Some(Operator(Ne))
    else None
  }

  // A digit, or a dot before a digit.
  predicate StartsNumber(text: string) {
    text != "" && (IsDigit(text[0]) || (text[0] == '.' && |text| > 1 && IsDigit(text[1])))
  }

  // The branches in the order they are tried: a dot is punctuation before it can start a number.
  function NextToken(text: string): (r: Step)
    requires text != ""
    ensures r.Take? ==> 0 < r.width <= |text|
  {
    var c := text[0];
    if IsSpace(c) then Skip
    else if c == '"' || c == '\'' then
      match ReadString(c, text[1..])
      case None => Fail
      case Some((s, n)) => Take(Text(s), 1 + n)
    else if Double(text).Some? then Take(Double(text).value, 2)
    else if Single(c).Some? then Take(Single(c).value, 1)
    else if StartsNumber(text) then Take(Number(text[..NumberRun(text)]), NumberRun(text))
    else if StartsName(c) then Take(Ident(text[..NameRun(text)]), NameRun(text))
    else Fail
  }

  // All tokens of a text, None for a ParseError.
  function Tokens(text: string): (r: Option<seq<Tok>>)
    ensures r.Some? ==> r.value != [] && r.value[|r.value| - 1] == Eof
  {
    if text == "" then Some([Eof])
    else
      match NextToken(text)
      case Fail => None
      case Skip => Tokens(text[1..])
      case Take(tok, n) => After([tok], Tokens(text[n..]))
  }

  function After(front: seq<Tok>, rest: Option<seq<Tok>>): Option<seq<Tok>> {
    if rest.Some? then Some(front + rest.value) else None
  }

  // ---- the program ----------------------------------------------------------------------------

  lemma PrefixedOnce(out: string, width: nat, c: char, w: nat, r: Option<(string, nat)>)
    ensures Prefixed(out, width, Prefixed([c], w, r)) == Prefixed(out + [c], width + w, r)
    ensures Prefixed("", 0, r) == r
  {
    if r.Some? {
      assert out + ([c] + r.value.0) == (out + [c]) + r.value.0;
      assert "" + r.value.0 == r.value.0;
    }
  }

  method ReadStringAt(text: string, i: nat) returns (r: Option<(string, nat)>)
    requires i < |text|
    ensures r == Prefixed("", i + 1, ReadString(text[i], text[i + 1..]))
  {
    var quote, j := text[i], i + 1;
    var out := "";
    while true
      invariant i < j <= |text|
      invariant Prefixed("", i + 1, ReadString(quote, text[i + 1..])) == Prefixed(out, j, ReadString(quote, text[j..]))
      decreases |text| - j
    {
      if j >= |text| { return None; }
      var c := text[j];
      if c == quote {
        assert out + "" == out;
        return Some((out, j + 1));
      }
      if c == '\\' && j + 1 < |text| {
        assert text[j..][2..] == text[j + 2..];
        PrefixedOnce(out, j, Unescape(text[j + 1]), 2, ReadString(quote, text[j + 2..]));
        out := out + [Unescape(text[j + 1])];
        j := j + 2;
      } else {
        assert text[j..][1..] == text[j + 1..];
        PrefixedOnce(out, j, c, 1, ReadString(quote, text[j + 1..]));
        out := out + [c];
        j := j + 1;
      }
    }
  }

  method NumberEnd(text: string, i: nat) returns (j: nat)
    requires i < |text|
    ensures j == i + NumberRun(text[i..])
  {
    j := DigitsEnd(text, i);
    if j < |text| && text[j] == '.' && j + 1 < |text| && IsDigit(text[j + 1]) {
      assert text[i..][j + 1 - i..] == text[j + 1..];
      j := DigitsEnd(text, j + 1);
    }
  }

  method DigitsEnd(text: string, i: nat) returns (j: nat)
    requires i <= |text|
    ensures j == i + DigitRun(text[i..]) && j <= |text|
  {
    j := i;
    while j < |text| && IsDigit(text[j])
      invariant i <= j <= |text|
      invariant forall k :: i <= k < j ==> IsDigit(text[k])
    {
      j := j + 1;
    }
    DigitRunIs(text[i..], j - i);
  }

  method NameEnd(text: string, i: nat) returns (j: nat)
    requires i < |text| && StartsName(text[i])
    ensures j == i + NameRun(text[i..])
  {
    j := i + 1;
    while j < |text| && InName(text[j])
      invariant i < j <= |text|
      invariant forall k :: i <= k < j ==> InName(text[k])
    {
      j := j + 1;
    }
    NameRunIs(text[i..], j - i);
  }

  // The token at i, which is not a space, and where it ends.
  method TokenAt(text: string, i: nat) returns (r: Option<(Tok, nat)>)
    requires i < |text| && !IsSpace(text[i])
    ensures r == match NextToken(text[i..]) case Take(tok, n) => Some((tok, i + n)) case _ => None
  {
    var c := text[i];
    assert text[i..][0] == c && text[i..][1..] == text[i + 1..];
    if c == '"' || c == '\'' {
      var s := ReadStringAt(text, i);
      PrefixedOnce("", 0, c, 0, ReadString(c, text[i + 1..]));
      return if s.None? then None else Some((Text(s.value.0), s.value.1));
    }
    var two := Double(text[i..]);
    if two.Some? { return Some((two.value, i + 2)); }
    if Single(c).Some? { return Some((Single(c).value, i + 1)); }
    r := WordAt(text, i);
  }

  // The number or name at i.
  method WordAt(text: string, i: nat) returns (r: Option<(Tok, nat)>)
    requires i < |text|
    ensures r == if StartsNumber(text[i..]) then
        Some((Number(text[i..][..NumberRun(text[i..])]), i + NumberRun(text[i..])))
      else if StartsName(text[i]) then Some((Ident(text[i..][..NameRun(text[i..])]), i + NameRun(text[i..])))
      else None
  {
    if StartsNumber(text[i..]) {
      var j := NumberEnd(text, i);
      assert text[i..][..j - i] == text[i..j];
      return Some((Number(text[i..j]), j));
    }
    if StartsName(text[i]) {
      var j := NameEnd(text, i);
      assert text[i..][..j - i] == text[i..j];
      return Some((Ident(text[i..j]), j));
    }
    return None;
  }

  method Tokenize(text: string) returns (r: Option<seq<Tok>>)
    ensures r == Tokens(text)
  {
    var tokens: seq<Tok> := [];
    var i := 0;
    assert text[0..] == text;
    AfterNothing(Tokens(text));
    while i < |text|
      invariant i <= |text|
      invariant Tokens(text) == After(tokens, Tokens(text[i..]))
      decreases |text| - i
    {
      if IsSpace(text[i]) {
        assert text[i..][1..] == text[i + 1..];
        i := i + 1;
        continue;
      }
      var t := TokenAt(text, i);
      if t.None? { return None; }
      var j := t.value.1;
      assert text[i..][j - i..] == text[j..];
      AfterAppend(tokens, t.value.0, Tokens(text[j..]));
      tokens := tokens + [t.value.0];
      i := j;
    }
    return Some(tokens + [Eof]);
  }

  lemma AfterNothing(rest: Option<seq<Tok>>)
    ensures After([], rest) == rest
  {
    if rest.Some? { assert [] + rest.value == rest.value; }
  }

  lemma AfterAppend(front: seq<Tok>, tok: Tok, rest: Option<seq<Tok>>)
    ensures After(front, After([tok], rest)) == After(front + [tok], rest)
  {
    if rest.Some? { assert front + ([tok] + rest.value) == (front + [tok]) + rest.value; }
  }

  // Of the two ways a number could start, a digit or a dot before a digit, only the first makes
  // one: the dot is punctuation before the number branch is tried.
  lemma NumbersStartWithDigits(text: string)
    requires StartsNumber(text)
    ensures NextToken(text).Take? && (NextToken(text).tok.Number? <==> IsDigit(text[0]))
    ensures !IsDigit(text[0]) ==> NextToken(text) == Take(Dot, 1)
  {
    if IsDigit(text[0]) { assert Single(text[0]) == None && Double(text) == None; }
  }

  // ---- writing tokens -------------------------------------------------------------------------

  function Escape(s: string): string {
    if s == "" then ""
    else (if s[0] == '"' || s[0] == '\\' then ['\\', s[0]] else [s[0]]) + Escape(s[1..])
  }

  function OpText(op: Op): string {
    match op
    case Or => "||" case And => "&&" case Eq => "==" case Ne => "!="
    case Lt => "<" case Le => "<=" case Gt => ">" case Ge => ">="
    case Add => "+" case Sub => "-" case Mul => "*" case Div => "/"
  }

  function TokenText(tok: Tok): string {
    match tok
    case Number(s) => s
    case Text(s) => "\"" + Escape(s) + "\""
    case Ident(name) => name
    case Operator(op) => OpText(op)
    case Bang => "!" case Question => "?" case Colon => ":" case Comma => "," case Dot => "."
    case LParen => "(" case RParen => ")" case LBracket => "[" case RBracket => "]"
    case Eof => ""
  }

  // Each token followed by a space.
  function Render(ts: seq<Tok>): string {
    if ts == [] || ts[0] == Eof then "" else TokenText(ts[0]) + (" " + Render(ts[1..]))
  }

  predicate IsNumeral(s: string) { s != "" && IsDigit(s[0]) && NumberRun(s) == |s| }

  predicate IsName(s: string) { s != "" && StartsName(s[0]) && forall i :: 0 <= i < |s| ==> InName(s[i]) }

  predicate Lexable(tok: Tok) {
    match tok
    case Number(s) => IsNumeral(s)
    case Ident(name) => IsName(name)
    case Eof => false
    case _ => true
  }

  predicate Renderable(ts: seq<Tok>) {
    ts != [] && (ts == [Eof] || (Lexable(ts[0]) && Renderable(ts[1..])))
  }

  lemma {:induction false} EscapeRoundTrips(s: string, rest: string)
    ensures ReadString('"', Escape(s) + ("\"" + rest)) == Some((s, |Escape(s)| + 1))
  {
    var text := Escape(s) + ("\"" + rest);
    if s == "" {
      assert text[0] == '"';
    } else {
      EscapeRoundTrips(s[1..], rest);
      var head := if s[0] == '"' || s[0] == '\\' then ['\\', s[0]] else [s[0]];
      assert text == head + (Escape(s[1..]) + ("\"" + rest));
      assert text[|head|..] == Escape(s[1..]) + ("\"" + rest);
      assert [s[0]] + s[1..] == s;
    }
  }

  lemma NumeralStops(s: string, rest: string)
    requires IsNumeral(s)
    ensures NumberRun(s + (" " + rest)) == |s|
  {
    var text := s + (" " + rest);
    var a := DigitRun(s);
    assert text[|s|] == ' ';
    assert forall i :: 0 <= i < |s| ==> text[i] == s[i];
    DigitRunIs(text, a);
    if a < |s| {
      assert text[a + 1..] == s[a + 1..] + (" " + rest);
      DigitRunIs(text[a + 1..], DigitRun(s[a + 1..]));
    }
  }

  lemma StringToken(s: string, rest: string)
    ensures NextToken(TokenText(Text(s)) + (" " + rest)) == Take(Text(s), |TokenText(Text(s))|)
  {
    var text := TokenText(Text(s)) + (" " + rest);
    assert text[0] == '"';
    assert text[1..] == Escape(s) + ("\"" + (" " + rest));
    EscapeRoundTrips(s, " " + rest);
  }

  lemma OperatorToken(op: Op, rest: string)
    ensures NextToken(OpText(op) + (" " + rest)) == Take(Operator(op), |OpText(op)|)
  {
    var text := OpText(op) + (" " + rest);
    if |OpText(op)| == 1 {
      assert text[0] == OpText(op)[0] && text[1] == ' ';
    } else {
      assert text[0] == OpText(op)[0] && text[1] == OpText(op)[1];
    }
  }

  lemma WordToken(tok: Tok, rest: string)
    requires (tok.Number? || tok.Ident?) && Lexable(tok)
    ensures NextToken(TokenText(tok) + (" " + rest)) == Take(tok, |TokenText(tok)|)
  {
    var s := TokenText(tok);
    var text := s + (" " + rest);
    assert text[0] == s[0] && text[|s|] == ' ' && text[..|s|] == s;
    if tok.Number? {
      NumeralStops(s, rest);
    } else {
      assert forall i :: 0 <= i < |s| ==> text[i] == s[i];
      NameRunIs(text, |s|);
    }
  }

  // A token followed by a space is read back as itself.
  lemma TokenRoundTrips(tok: Tok, rest: string)
    requires Lexable(tok)
    ensures TokenText(tok) != "" && NextToken(TokenText(tok) + (" " + rest)) == Take(tok, |TokenText(tok)|)
  {
    match tok
    case Number(_) => WordToken(tok, rest);
    case Ident(_) => WordToken(tok, rest);
    case Text(s) => StringToken(s, rest);
    case Operator(op) => OperatorToken(op, rest);
    case _ => SymbolToken(tok, rest);
  }

  lemma SymbolToken(tok: Tok, rest: string)
    requires !tok.Number? && !tok.Ident? && !tok.Text? && !tok.Operator? && tok != Eof
    ensures NextToken(TokenText(tok) + (" " + rest)) == Take(tok, 1) && |TokenText(tok)| == 1
  {
    var text := TokenText(tok) + (" " + rest);
    assert text[0] == TokenText(tok)[0] && text[1] == ' ';
  }

  // Main result for token lists: the rendered text gives the tokens back.
  lemma {:induction false} TokensUndoRender(ts: seq<Tok>)
    requires Renderable(ts)
    ensures Tokens(Render(ts)) == Some(ts)
  {
    if ts != [Eof] {
      var rest := Render(ts[1..]);
      var text := TokenText(ts[0]) + (" " + rest);
      TokenRoundTrips(ts[0], rest);
      var n := |TokenText(ts[0])|;
      assert text[n..] == " " + rest;
      assert (" " + rest)[1..] == rest;
      TokensUndoRender(ts[1..]);
      assert Tokens(" " + rest) == Tokens(rest);
      assert ts == [ts[0]] + ts[1..];
    }
  }

  // ---- whole expressions ----------------------------------------------------------------------

  // Trees whose numbers and set names can be written.
  predicate Writable(e: Expr<string>) {
    match e
    case Num(s) => IsNumeral(s)
    case NamedSetCount(s, _) => IsName(s)
    case ElementCall(_, args) => forall i :: 0 <= i < |args| ==> Writable(args[i])
    case Aggregate(_, arg) => Writable(arg)
    case Unary(_, operand) => Writable(operand)
    case Binary(_, l, r) => Writable(l) && Writable(r)
    case Ternary(c, t, o) => Writable(c) && Writable(t) && Writable(o)
    case _ => true
  }

  lemma KeywordsAreNames(name: string)
    requires name in TYPE_KEYWORDS || name in AGGREGATES || name == "t" || name == "count"
    ensures IsName(name)
  {
  }

  lemma NullaryAreNames(name: string)
    requires name in NULLARY
    ensures IsName(name)
  {
  }

  lemma UnaryAreNames(name: string)
    requires name in UNARY
    ensures IsName(name)
  {
  }

  lemma OneMoreToken(tok: Tok, rest: seq<Tok>)
    requires Lexable(tok) && Renderable(rest)
    ensures Renderable([tok] + rest)
  {
    assert ([tok] + rest)[1..] == rest;
  }

  lemma {:induction false} PrintIsRenderable(e: Expr<string>, min: nat, rest: seq<Tok>)
    requires WellFormed(e) && Writable(e) && Renderable(rest)
    ensures Renderable(PrintAt(e, min, rest))
    decreases e, 1
  {
    if Rank(e) < min {
      OneMoreToken(RParen, rest);
      BodyIsRenderable(e, [RParen] + rest);
      OneMoreToken(LParen, PrintBody(e, [RParen] + rest));
    } else {
      BodyIsRenderable(e, rest);
    }
  }

  lemma {:induction false} BodyIsRenderable(e: Expr<string>, rest: seq<Tok>)
    requires WellFormed(e) && Writable(e) && Renderable(rest)
    ensures Renderable(PrintBody(e, rest))
    decreases e, 0
  {
    match e
    case Num(v) => OneMoreToken(Number(v), rest);
    case Str(s) => OneMoreToken(Text(s), rest);
    case TagAccess(key) => TagIsRenderable(key, rest);
    case SetCount(t) => CountIsRenderable(t, rest);
    case NamedSetCount(s, t) => NamedCountIsRenderable(s, t, rest);
    case Unary(p, operand) =>
      PrintIsRenderable(operand, 7, rest);
      OneMoreToken(if p == Not then Bang else Operator(Sub), PrintAt(operand, 7, rest));
    case Binary(op, l, r) =>
      PrintIsRenderable(r, OpRank(op) + 1, rest);
      OneMoreToken(Operator(op), PrintAt(r, OpRank(op) + 1, rest));
      PrintIsRenderable(l, OpRank(op), [Operator(op)] + PrintAt(r, OpRank(op) + 1, rest));
    case Ternary(c, t, o) =>
      PrintIsRenderable(o, 0, rest);
      OneMoreToken(Colon, PrintAt(o, 0, rest));
      PrintIsRenderable(t, 0, [Colon] + PrintAt(o, 0, rest));
      OneMoreToken(Question, PrintAt(t, 0, [Colon] + PrintAt(o, 0, rest)));
      PrintIsRenderable(c, 1, [Question] + PrintAt(t, 0, [Colon] + PrintAt(o, 0, rest)));
    case Aggregate(f, arg) =>
      OneMoreToken(RParen, rest);
      PrintIsRenderable(arg, 0, [RParen] + rest);
      KeywordsAreNames(f);
      CallIsRenderable(f, PrintAt(arg, 0, [RParen] + rest));
    case ElementCall(name, args) =>
      OneMoreToken(RParen, rest);
      if name in NULLARY { NullaryAreNames(name); } else { UnaryAreNames(name); PrintIsRenderable(args[0], 0, [RParen] + rest); }
      CallIsRenderable(name, PrintArgs(args, [RParen] + rest));
  }

  lemma CallIsRenderable(name: string, rest: seq<Tok>)
    requires IsName(name) && Renderable(rest)
    ensures Renderable([Ident(name), LParen] + rest)
  {
    OneMoreToken(LParen, rest);
    OneMoreToken(Ident(name), [LParen] + rest);
    assert [Ident(name), LParen] + rest == [Ident(name)] + ([LParen] + rest);
  }

  lemma FourTokens(a: Tok, b: Tok, c: Tok, d: Tok, rest: seq<Tok>)
    requires Lexable(a) && Lexable(b) && Lexable(c) && Lexable(d) && Renderable(rest)
    ensures Renderable([a, b, c, d] + rest)
  {
    var two, three := [c] + ([d] + rest), [b] + ([c] + ([d] + rest));
    OneMoreToken(d, rest);
    OneMoreToken(c, [d] + rest);
    OneMoreToken(b, two);
    OneMoreToken(a, three);
    assert [a, b, c, d] + rest == [a] + three;
  }

  lemma TagIsRenderable(key: string, rest: seq<Tok>)
    requires Renderable(rest)
    ensures Renderable([Ident("t"), LBracket, Text(key), RBracket] + rest)
  {
    KeywordsAreNames("t");
    FourTokens(Ident("t"), LBracket, Text(key), RBracket, rest);
  }

  lemma CountIsRenderable(t: string, rest: seq<Tok>)
    requires t in TYPE_KEYWORDS && Renderable(rest)
    ensures Renderable([Ident("count"), LParen, Ident(t), RParen] + rest)
  {
    KeywordsAreNames("count");
    KeywordsAreNames(t);
    FourTokens(Ident("count"), LParen, Ident(t), RParen, rest);
  }

  lemma NamedCountIsRenderable(s: string, t: string, rest: seq<Tok>)
    requires IsName(s) && t in TYPE_KEYWORDS && Renderable(rest)
    ensures Renderable([Dot, Ident(s), Dot, Ident("count"), LParen, Ident(t), RParen] + rest)
  {
    var call := [Ident("count"), LParen, Ident(t), RParen] + rest;
    CountIsRenderable(t, rest);
    OneMoreToken(Dot, call);
    OneMoreToken(Ident(s), [Dot] + call);
    OneMoreToken(Dot, [Ident(s)] + ([Dot] + call));
    assert [Dot, Ident(s), Dot, Ident("count"), LParen, Ident(t), RParen] + rest
      == [Dot] + ([Ident(s)] + ([Dot] + call));
  }

  // parse(text): tokenize, then parse the whole token list.
  function ParseText(text: string): Parse<Expr<string>, string> {
    match Tokens(text) case None => Error case Some(ts) => ParseProgram(ts)
  }

  // Main result: every writable tree has a text that the tokenizer and the parser turn back into it.
  lemma ParseTextUndoesRender(e: Expr<string>)
    requires WellFormed(e) && Writable(e)
    ensures ParseText(Render(PrintAt(e, 0, [Eof]))) == Parsed(e, [Eof])
  {
    PrintIsRenderable(e, 0, [Eof]);
    TokensUndoRender(PrintAt(e, 0, [Eof]));
    ParseProgramUndoesPrint(e);
  }
}
