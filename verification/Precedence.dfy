/** How operators bind (src/osmpq/ql/evaluator.py:358-417), told apart from the grammar: in a chain of
    operands the last operator of the weakest level is the root, and each side is read alone. */
module Precedence {
  import opened Expressions
  import opened Parser
  import opened Printer

  // A number after any prefix operators.
  datatype Operand<N> = Operand(prefixes: seq<Prefix>, value: N)

  function OperandTokens<N>(o: Operand<N>, after: seq<Token<N>>): seq<Token<N>>
    decreases |o.prefixes|
  {
    if o.prefixes == [] then [Number(o.value)] + after
    else [if o.prefixes[0] == Not then Bang else Operator(Sub)] + OperandTokens(Operand(o.prefixes[1..], o.value), after)
  }

  function OperandTree<N>(o: Operand<N>): Expr<N>
    decreases |o.prefixes|
  {
    if o.prefixes == [] then Num(o.value) else Unary(o.prefixes[0], OperandTree(Operand(o.prefixes[1..], o.value)))
  }

  // ||, then &&, then == !=, then < <= > >=, then + -, then * /.
  predicate Tighter(strong: Op, weak: Op) {
    match weak
    case Or => strong != Or
    case And => strong != Or && strong != And
    case Eq => IsOrdering(strong) || IsSum(strong) || IsProduct(strong)
    case Ne => IsOrdering(strong) || IsSum(strong) || IsProduct(strong)
    case Add => IsProduct(strong)
    case Sub => IsProduct(strong)
    case Mul => false
    case Div => false
    case _ => IsSum(strong) || IsProduct(strong)
  }

  predicate IsOrdering(op: Op) { op == Lt || op == Le || op == Gt || op == Ge }
  predicate IsSum(op: Op) { op == Add || op == Sub }
  predicate IsProduct(op: Op) { op == Mul || op == Div }

  lemma TighterIsStronger(a: Op, b: Op)
    ensures Tighter(a, b) <==> OpRank(a) > OpRank(b)
  {
  }

  // Operands with operators between them, without parentheses.
  datatype Link<N> = Link(op: Op, operand: Operand<N>)
  datatype Chain<N> = Chain(first: Operand<N>, links: seq<Link<N>>)

  function ChainTokens<N>(c: Chain<N>, after: seq<Token<N>>): seq<Token<N>>
    decreases |c.links|
  {
    if c.links == [] then OperandTokens(c.first, after)
    else
      OperandTokens(c.first, [Operator(c.links[0].op)] + ChainTokens(Chain(c.links[0].operand, c.links[1..]), after))
  }

  // The last of the weakest operators.
  function Root<N>(links: seq<Link<N>>): (k: nat)
    requires links != []
    ensures k < |links|
    ensures forall i :: 0 <= i < k ==> !Tighter(links[k].op, links[i].op)
    ensures forall i :: k < i < |links| ==> Tighter(links[i].op, links[k].op)
  {
    var n := |links| - 1;
    if n == 0 then 0
    else
      var k := Root(links[..n]);
      assert forall i :: 0 <= i < n ==> links[i] == links[..n][i];
      RootMoves(links, k);
      if Tighter(links[n].op, links[k].op) then k else n
  }

  lemma RootMoves<N>(links: seq<Link<N>>, k: nat)
    requires k < |links| - 1
    requires forall i :: 0 <= i < k ==> !Tighter(links[k].op, links[i].op)
    requires forall i :: k < i < |links| - 1 ==> Tighter(links[i].op, links[k].op)
    ensures !Tighter(links[|links| - 1].op, links[k].op) ==>
      forall i :: 0 <= i < |links| - 1 ==> !Tighter(links[|links| - 1].op, links[i].op)
  {
    TighterIsStronger(links[|links| - 1].op, links[k].op);
    forall i | 0 <= i < |links| - 1 && !Tighter(links[|links| - 1].op, links[k].op)
      ensures !Tighter(links[|links| - 1].op, links[i].op)
    {
      TighterIsStronger(links[k].op, links[i].op);
      TighterIsStronger(links[i].op, links[k].op);
      TighterIsStronger(links[|links| - 1].op, links[i].op);
    }
  }

  // The tree by precedence: split at the root.
  function ChainTree<N>(c: Chain<N>): Expr<N>
    decreases |c.links|
  {
    if c.links == [] then OperandTree(c.first)
    else
      var k := Root(c.links);
      Binary(c.links[k].op, ChainTree(Chain(c.first, c.links[..k])), ChainTree(Chain(c.links[k].operand, c.links[k + 1..])))
  }

  lemma {:induction false} OperandIsPrinted<N>(o: Operand<N>, after: seq<Token<N>>)
    ensures WellFormed(OperandTree(o)) && Rank(OperandTree(o)) >= 7
    ensures PrintAt(OperandTree(o), 7, after) == OperandTokens(o, after)
    decreases |o.prefixes|
  {
    if o.prefixes != [] { OperandIsPrinted(Operand(o.prefixes[1..], o.value), after); }
  }

  lemma {:induction false} TokensSplit<N>(c: Chain<N>, k: nat, after: seq<Token<N>>)
    requires k < |c.links|
    ensures ChainTokens(c, after) == ChainTokens(Chain(c.first, c.links[..k]),
      [Operator(c.links[k].op)] + ChainTokens(Chain(c.links[k].operand, c.links[k + 1..]), after))
    decreases |c.links|
  {
    if k > 0 {
      var tail := Chain(c.links[0].operand, c.links[1..]);
      TokensSplit(tail, k - 1, after);
      assert tail.links[..k - 1] == c.links[..k][1..] && tail.links[k..] == c.links[k + 1..];
    }
  }

  ghost predicate AllAtLeast<N>(links: seq<Link<N>>, rank: nat) { forall i :: 0 <= i < |links| ==> OpRank(links[i].op) >= rank }

  lemma SidesOfRoot<N>(links: seq<Link<N>>, k: nat)
    requires links != [] && k == Root(links)
    ensures AllAtLeast(links[..k], OpRank(links[k].op)) && AllAtLeast(links[k + 1..], OpRank(links[k].op) + 1)
  {
    forall i | 0 <= i < |links| ensures
      (i < k ==> OpRank(links[i].op) >= OpRank(links[k].op)) && (i > k ==> OpRank(links[i].op) > OpRank(links[k].op))
    {
      TighterIsStronger(links[k].op, links[i].op);
      TighterIsStronger(links[i].op, links[k].op);
    }
  }

  // The tree of a chain is printed without parentheses.
  lemma {:induction false} ChainIsPrinted<N>(c: Chain<N>, rank: nat, after: seq<Token<N>>)
    requires rank <= 7 && AllAtLeast(c.links, rank)
    ensures WellFormed(ChainTree(c)) && Rank(ChainTree(c)) >= rank
    ensures PrintAt(ChainTree(c), rank, after) == ChainTokens(c, after)
    decreases |c.links|
  {
    if c.links == [] {
      OperandIsPrinted(c.first, after);
    } else {
      var k := Root(c.links);
      var r := OpRank(c.links[k].op);
      var left, right := Chain(c.first, c.links[..k]), Chain(c.links[k].operand, c.links[k + 1..]);
      SidesOfRoot(c.links, k);
      ChainIsPrinted(right, r + 1, after);
      ChainIsPrinted(left, r, [Operator(c.links[k].op)] + ChainTokens(right, after));
      TokensSplit(c, k, after);
    }
  }

  // Chains with question marks and colons around them, without parentheses.
  datatype Choice<N> = Just(chain: Chain<N>) | If(cond: Chain<N>, then_: Choice<N>, otherwise: Choice<N>)

  function ChoiceTokens<N>(c: Choice<N>, after: seq<Token<N>>): seq<Token<N>> {
    match c
    case Just(chain) => ChainTokens(chain, after)
    case If(cond, t, o) => ChainTokens(cond, [Question] + ChoiceTokens(t, [Colon] + ChoiceTokens(o, after)))
  }

  // A ternary takes whole chains, and the rest of the text belongs to its last branch.
  function ChoiceTree<N>(c: Choice<N>): Expr<N> {
    match c
    case Just(chain) => ChainTree(chain)
    case If(cond, t, o) => Ternary(ChainTree(cond), ChoiceTree(t), ChoiceTree(o))
  }

  lemma {:induction false} ChoiceIsPrinted<N>(c: Choice<N>, after: seq<Token<N>>)
    ensures WellFormed(ChoiceTree(c)) && PrintAt(ChoiceTree(c), 0, after) == ChoiceTokens(c, after)
  {
    match c
    case Just(chain) => ChainIsPrinted(chain, 0, after);
    case If(cond, t, o) =>
      ChoiceIsPrinted(o, after);
      ChoiceIsPrinted(t, [Colon] + ChoiceTokens(o, after));
      ChainIsPrinted(cond, 1, [Question] + ChoiceTokens(t, [Colon] + ChoiceTokens(o, after)));
  }

  // Main result: every expression written without parentheses is parsed by precedence.
  lemma ParsesByPrecedence<N>(c: Choice<N>)
    ensures ParseProgram(ChoiceTokens(c, [Eof])) == Parsed(ChoiceTree(c), [Eof])
  {
    ChoiceIsPrinted(c, [Eof]);
    ParseProgramUndoesPrint(ChoiceTree(c));
  }

  lemma TwoLinks<N>(a: Operand<N>, op1: Op, b: Operand<N>, op2: Op, c: Operand<N>, after: seq<Token<N>>)
    ensures ChainTokens(Chain(a, [Link(op1, b), Link(op2, c)]), after)
      == OperandTokens(a, [Operator(op1)] + OperandTokens(b, [Operator(op2)] + OperandTokens(c, after)))
  {
    var links := [Link(op1, b), Link(op2, c)];
    assert links[1..] == [Link(op2, c)] && [Link(op2, c)][1..] == [];
    assert ChainTokens(Chain(b, links[1..]), after) == OperandTokens(b, [Operator(op2)] + OperandTokens(c, after));
  }

  lemma TwoLinksTree<N>(a: Operand<N>, op1: Op, b: Operand<N>, op2: Op, c: Operand<N>)
    ensures ChainTree(Chain(a, [Link(op1, b), Link(op2, c)]))
      == var (x, y, z) := (OperandTree(a), OperandTree(b), OperandTree(c));
         if Tighter(op2, op1) then Binary(op1, x, Binary(op2, y, z)) else Binary(op2, Binary(op1, x, y), z)
  {
    var links := [Link(op1, b), Link(op2, c)];
    assert links[1..] == [Link(op2, c)] && links[2..] == [] && links[..1] == [Link(op1, b)] && links[..0] == [];
    OneLink(b, op2, c);
    OneLink(a, op1, b);
    var k := Root(links);
    assert k == if Tighter(op2, op1) then 0 else 1;
  }

  lemma OneLink<N>(a: Operand<N>, op: Op, b: Operand<N>)
    ensures ChainTree(Chain(a, [Link(op, b)])) == Binary(op, OperandTree(a), OperandTree(b))
  {
    var links := [Link(op, b)];
    assert Root(links) == 0 && links[..0] == [] && links[1..] == [];
  }

  // Two operators: the tighter one is the inner one, and of one level the first; a prefix operator
  // binds before either.
  lemma TwoOperators<N>(a: Operand<N>, op1: Op, b: Operand<N>, op2: Op, c: Operand<N>)
    ensures
      var (x, y, z) := (OperandTree(a), OperandTree(b), OperandTree(c));
      ParseProgram(OperandTokens(a, [Operator(op1)] + OperandTokens(b, [Operator(op2)] + OperandTokens(c, [Eof]))))
      == Parsed(if Tighter(op2, op1) then Binary(op1, x, Binary(op2, y, z)) else Binary(op2, Binary(op1, x, y), z), [Eof])
  {
    TwoLinks(a, op1, b, op2, c, [Eof]);
    TwoLinksTree(a, op1, b, op2, c);
    ParsesByPrecedence(Just(Chain(a, [Link(op1, b), Link(op2, c)])));
  }
}
