/** Compiling an element-scoped expression to SQL (src/osmpq/engine/evalsql.py:49-234).

    The compiler follows the tree. Every value is text: numbers are formatted without a decimal
    point when they are integers, booleans are "1" and "0", a missing tag is the empty text. An
    expression that counts or aggregates a set, or whose is_tag key is not a literal, is not
    supported on a row; a literal too large for a double fails when it is formatted. What compiles
    is stated exactly; that the compiled SQL is text on every row, never NULL, and means what the
    expression means, is proved in ElementMeaning. */
module ElementSql {
  import opened Expressions
  import opened Doubles
  import opened Sql

  // A value, an UnsupportedError, or the OverflowError of formatting an infinity.
  datatype Result<+T> = Ok(value: T) | Unsupported | Overflow {
    predicate IsFailure() { !Ok? }
    function PropagateFailure<U>(): Result<U> requires !Ok? { if Unsupported? then Unsupported else Overflow }
    function Extract(): T requires Ok? { value }
  }

  // The evaluator's own number formatting, used for literals.
  function FormatLiteral(p: Platform, v: Dbl): Result<string> {
    match v
    case NaN => Ok("nan")
    case Fin(x) => Ok(if IsSmallInteger(v) then Decimal(x.Floor) else p.show(v))
    case _ => Overflow
  }

  // ---- shared fragments -----------------------------------------------------------------------

  function IsNotNull(v: Sql): Sql { Negation(IsNull(v)) }

  function FormatNumber(d: Sql): Sql {
    Case(IsNull(d), StrLit("nan"),
      Case(AndAlso(Cmp(Eq, d, Floor(d)), Cmp(Lt, Abs(d), DoubleLit(BIG))),
        ToText(ToBigint(d)), ToText(d)))
  }

  function IsTrue(v: Sql): Sql {
    AndAlso(AndAlso(IsNotNull(v), Cmp(Ne, v, StrLit(""))), Cmp(Ne, v, StrLit("0")))
  }

  function FromBool(b: Sql): Sql { Case(b, StrLit("1"), StrLit("0")) }

  function IsKind(kind: string): Sql { Cmp(Eq, Col(TypeCol), StrLit(kind)) }

  function CountOrZero(list: Sql): Sql { Coalesce(CountOf(list), IntLit(0)) }

  // ---- the compiler ---------------------------------------------------------------------------

  function Compile(p: Platform, e: Expr<Dbl>): Result<Sql>
    requires WellFormed(e)
    decreases e, 1
  {
    match e
    case Num(v) => var text :- FormatLiteral(p, v); Ok(StrLit(text))
    case Str(s) => Ok(StrLit(s))
    case TagAccess(k) => Ok(Coalesce(TagOf(k), StrLit("")))
    case SetCount(_) => Unsupported
    case NamedSetCount(_, _) => Unsupported
    case Aggregate(_, _) => Unsupported
    case ElementCall(_, _) => CompileCall(p, e)
    case Unary(prefix, operand) =>
      var inner :- Compile(p, operand);
      if prefix == Not then Ok(FromBool(Negation(IsTrue(inner)))) else Ok(FormatNumber(Negate(TryDouble(inner))))
    case Binary(op, left, right) =>
      var a :- Compile(p, left);
      var b :- Compile(p, right);
      Ok(CompileBinary(op, a, b))
    case Ternary(cond, then_, otherwise) =>
      var c :- Compile(p, cond);
      var t :- Compile(p, then_);
      var f :- Compile(p, otherwise);
      Ok(Case(IsTrue(c), t, f))
  }

  function CompileBinary(op: Op, a: Sql, b: Sql): Sql {
    if op == Div then
      FormatNumber(Case(Cmp(Eq, TryDouble(b), DoubleLit(0.0)), NullDouble, Arith(Div, TryDouble(a), TryDouble(b))))
    else if IsArithmetic(op) then FormatNumber(Arith(op, TryDouble(a), TryDouble(b)))
    else if IsComparison(op) then
      FromBool(Case(AndAlso(IsNotNull(TryDouble(a)), IsNotNull(TryDouble(b))),
        Cmp(op, TryDouble(a), TryDouble(b)), Cmp(op, a, b)))
    else if op == And then FromBool(AndAlso(IsTrue(a), IsTrue(b)))
    else FromBool(OrElse(IsTrue(a), IsTrue(b)))
  }

  function Coordinate(col: Column): Sql {
    FormatNumber(Case(IsKind("node"), Arith(Div, Col(col), DoubleLit(10000000.0)), NullDouble))
  }

  function CompileCall(p: Platform, e: Expr<Dbl>): Result<Sql>
    requires e.ElementCall? && WellFormed(e)
    decreases e, 0
  {
    if e.name in NULLARY then Ok(CompileAttribute(e.name))
    else if e.name == "is_tag" then
      var key := e.args[0];
      if key.Str? then Ok(FromBool(IsNotNull(TagOf(key.text)))) else Unsupported
    else
      var arg :- Compile(p, e.args[0]);
      Ok(CompileUnary(e.name, arg))
  }

  function CompileUnary(name: string, arg: Sql): Sql {
    if name == "count_by_role" then
      ToText(Case(IsKind("relation"), CountOrZero(WithRole(Col(MembersCol), arg)), IntLit(0)))
    else if name == "number" then FormatNumber(TryDouble(arg))
    else FromBool(IsNotNull(TryDouble(arg)))
  }

  // The attributes that are one column.
  predicate IsColumn(name: string) {
    name == "id" || name == "type" || name == "version" || name == "timestamp" || name == "changeset"
    || name == "uid" || name == "user"
  }

  function CompileAttribute(name: string): Sql { if IsColumn(name) then CompileColumn(name) else CompileDerived(name) }

  function CompileColumn(name: string): Sql {
    match name
    case "id" => ToText(Col(IdCol))
    case "type" => Coalesce(Col(TypeCol), StrLit(""))
    case "version" => Coalesce(ToText(Col(VersionCol)), StrLit(""))
    case "timestamp" => Coalesce(FormatTime(Col(TimestampCol)), StrLit(""))
    case "changeset" => Coalesce(ToText(Col(ChangesetCol)), StrLit(""))
    case "uid" => Coalesce(ToText(Col(UidCol)), StrLit(""))
    case _ => Coalesce(Col(UserCol), StrLit(""))
  }

  function CompileDerived(name: string): Sql {
    match name
    case "count_tags" => ToText(CountOrZero(Col(TagsCol)))
    case "count_members" => CountMembers()
    case "count_distinct_members" => CountDistinctMembers()
    case "is_closed" =>
      FromBool(AndAlso(AndAlso(IsKind("way"), Cmp(Ge, CountOf(Col(RefsCol)), IntLit(2))),
        Cmp(Eq, ListFirst(Col(RefsCol)), ListLast(Col(RefsCol)))))
    case "length" => FormatNumber(Coalesce(Case(IsKind("way"), Col(LengthCol), NullDouble), DoubleLit(0.0)))
    case "lat" => Coordinate(LatCol)
    case _ => Coordinate(LonCol)
  }

  function CountMembers(): Sql {
    ToText(Case(IsKind("way"), CountOrZero(Col(RefsCol)),
      Case(IsKind("relation"), CountOrZero(Col(MembersCol)), IntLit(0))))
  }

  function CountDistinctMembers(): Sql {
    ToText(Case(IsKind("way"), CountOrZero(ListDistinct(Col(RefsCol))),
      Case(IsKind("relation"), CountOrZero(ListDistinct(MemberKeys(Col(MembersCol)))), IntLit(0))))
  }

  // A row filter: the truth of the compiled value.
  function CompilePredicate(p: Platform, e: Expr<Dbl>): Result<Sql>
    requires WellFormed(e)
  {
    var v :- Compile(p, e);
    Ok(IsTrue(v))
  }

  // ---- what compiles --------------------------------------------------------------------------

  // Evaluable on one row: nothing counts or aggregates a set, is_tag names its key literally, and
  // no literal is too large for a double.
  predicate ElementScoped(e: Expr<Dbl>) {
    match e
    case Num(v) => v.Fin? || v.NaN?
    case Str(_) => true
    case TagAccess(_) => true
    case ElementCall(name, args) =>
      (name == "is_tag" ==> forall i :: 0 <= i < |args| ==> args[i].Str?)
      && forall i :: 0 <= i < |args| ==> ElementScoped(args[i])
    case SetCount(_) => false
    case NamedSetCount(_, _) => false
    case Aggregate(_, _) => false
    case Unary(_, operand) => ElementScoped(operand)
    case Binary(_, left, right) => ElementScoped(left) && ElementScoped(right)
    case Ternary(c, t, f) => ElementScoped(c) && ElementScoped(t) && ElementScoped(f)
  }

  // Exactly the element-scoped expressions compile; the rest raise.
  lemma {:induction false} CompilesExactly(p: Platform, e: Expr<Dbl>)
    requires WellFormed(e)
    ensures Compile(p, e).Ok? <==> ElementScoped(e)
    decreases e, 1
  {
    match e
    case ElementCall(name, args) => CallCompilesExactly(p, e);
    case Unary(_, operand) => CompilesExactly(p, operand);
    case Binary(_, left, right) => CompilesExactly(p, left); CompilesExactly(p, right);
    case Ternary(c, t, f) => CompilesExactly(p, c); CompilesExactly(p, t); CompilesExactly(p, f);
    case _ =>
  }

  lemma {:induction false} CallCompilesExactly(p: Platform, e: Expr<Dbl>)
    requires e.ElementCall? && WellFormed(e)
    ensures Compile(p, e).Ok? <==> ElementScoped(e)
    decreases e, 0
  {
    if e.name in NULLARY {
      assert CompileCall(p, e).Ok?;
    } else {
      CompilesExactly(p, e.args[0]);
    }
  }

  // Which error it is: with finite literals the expression is not supported, with nothing else wrong a
  // literal is too large.
  predicate FiniteLiterals(e: Expr<Dbl>) {
    match e
    case Num(v) => v.Fin? || v.NaN?
    case ElementCall(_, args) => forall i :: 0 <= i < |args| ==> FiniteLiterals(args[i])
    case Unary(_, operand) => FiniteLiterals(operand)
    case Binary(_, left, right) => FiniteLiterals(left) && FiniteLiterals(right)
    case Ternary(c, t, f) => FiniteLiterals(c) && FiniteLiterals(t) && FiniteLiterals(f)
    case _ => true
  }

  predicate OfOneRow(e: Expr<Dbl>) {
    match e
    case ElementCall(name, args) => forall i :: 0 <= i < |args| ==> (name == "is_tag" ==> args[i].Str?) && OfOneRow(args[i])
    case SetCount(_) => false
    case NamedSetCount(_, _) => false
    case Aggregate(_, _) => false
    case Unary(_, operand) => OfOneRow(operand)
    case Binary(_, left, right) => OfOneRow(left) && OfOneRow(right)
    case Ternary(c, t, f) => OfOneRow(c) && OfOneRow(t) && OfOneRow(f)
    case _ => true
  }

  lemma {:induction false} ErrorsAre(p: Platform, e: Expr<Dbl>)
    requires WellFormed(e)
    ensures ElementScoped(e) <==> FiniteLiterals(e) && OfOneRow(e)
    ensures FiniteLiterals(e) && !OfOneRow(e) ==> Compile(p, e) == Unsupported
    ensures OfOneRow(e) && !FiniteLiterals(e) ==> Compile(p, e) == Overflow
    decreases e
  {
    CompilesExactly(p, e);
    match e
    case ElementCall(name, args) =>
      if args != [] {
        ErrorsAre(p, args[0]);
        CompilesExactly(p, args[0]);
        assert Compile(p, e) == CompileCall(p, e);
      }
    case Unary(_, operand) => ErrorsAre(p, operand); CompilesExactly(p, operand);
    case Binary(_, left, right) =>
      ErrorsAre(p, left);
      ErrorsAre(p, right);
      CompilesExactly(p, left);
      CompilesExactly(p, right);
    case Ternary(c, t, f) =>
      ErrorsAre(p, c);
      ErrorsAre(p, t);
      ErrorsAre(p, f);
      CompilesExactly(p, c);
      CompilesExactly(p, t);
      CompilesExactly(p, f);
    case _ =>
  }
}
