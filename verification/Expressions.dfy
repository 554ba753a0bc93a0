/** Tokens and syntax trees of the evaluator language (src/osmpq/ql/evaluator.py).

    A tree is what the parser builds and both evaluators read: literals, tag access, functions of
    one element, counts and aggregates over a set, prefix and binary operators, and the ternary.
    Number values are of an abstract type N: the tokenizer instantiates it with the text of the
    number, the evaluators with doubles. WellFormed describes the trees that the language can
    write: known functions with the right number of arguments, and known element types. The ranks
    of operators and trees are the grammar levels of the parser. */
module Expressions {
  datatype Op = Or | And | Eq | Ne | Lt | Le | Gt | Ge | Add | Sub | Mul | Div
  datatype Prefix = Not | Neg

  datatype Token<N> =
    | Number(value: N) | Text(text: string) | Ident(name: string)
    | Operator(op: Op)                     // a minus sign is Operator(Sub) in either role
    | Bang | Question | Colon | Comma | Dot
    | LParen | RParen | LBracket | RBracket | Eof

  datatype Expr<N> =
    | Num(value: N)
    | Str(text: string)
    | TagAccess(key: string)
    | ElementCall(name: string, args: seq<Expr<N>>)
    | SetCount(typeName: string)
    | NamedSetCount(setName: string, typeName: string)
    | Aggregate(func: string, arg: Expr<N>)
    | Unary(prefix: Prefix, operand: Expr<N>)
    | Binary(op: Op, left: Expr<N>, right: Expr<N>)
    | Ternary(cond: Expr<N>, then_: Expr<N>, otherwise: Expr<N>)

  const TYPE_KEYWORDS := {"nodes", "ways", "relations", "areas", "nwr"}
  const AGGREGATES := {"u", "min", "max", "sum", "set"}
  const NULLARY := {"id", "type", "version", "timestamp", "changeset", "uid", "user", "count_tags",
                    "count_members", "count_distinct_members", "is_closed", "length", "lat", "lon"}
  const UNARY := {"is_tag", "count_by_role", "number", "is_number"}

  predicate IsElementFunction(name: string) { name in NULLARY || name in UNARY }

  function Arity(name: string): nat
    requires IsElementFunction(name)
  {
    if name in NULLARY then 0 else 1
  }

  // Trees the language can write.
  predicate WellFormed<N>(e: Expr<N>) {
    match e
    case Num(_) => true
    case Str(_) => true
    case TagAccess(_) => true
    case ElementCall(name, args) =>
      && IsElementFunction(name) && name != "t" && name != "count" && name !in AGGREGATES
      && |args| == Arity(name) && forall i :: 0 <= i < |args| ==> WellFormed(args[i])
    case SetCount(t) => t in TYPE_KEYWORDS
    case NamedSetCount(_, t) => t in TYPE_KEYWORDS
    case Aggregate(f, arg) => f in AGGREGATES && WellFormed(arg)
    case Unary(_, operand) => WellFormed(operand)
    case Binary(_, left, right) => WellFormed(left) && WellFormed(right)
    case Ternary(c, t, o) => WellFormed(c) && WellFormed(t) && WellFormed(o)
  }

  // Binding strength of the operators: 1 for || up to 6 for * and /.
  function OpRank(op: Op): (r: nat)
    ensures 1 <= r <= 6
  {
    match op
    case Or => 1
    case And => 2
    case Eq => 3 case Ne => 3
    case Lt => 4 case Le => 4 case Gt => 4 case Ge => 4
    case Add => 5 case Sub => 5
    case Mul => 6 case Div => 6
  }

  // Grammar level a tree is produced by: 0 ternary, 1-6 binary, 7 prefix, 8 primary.
  function Rank<N>(e: Expr<N>): (r: nat)
    ensures r <= 8
  {
    match e
    case Ternary(_, _, _) => 0
    case Binary(op, _, _) => OpRank(op)
    case Unary(_, _) => 7
    case _ => 8
  }
}
