/** Evaluating a whole condition once against a named set (src/osmpq/engine/evalsql.py:246-404),
    and its agreement with the compiled form. */
module SetEvaluation {
  import opened Options
  import opened Expressions
  import opened Doubles
  import opened Sql
  import opened ElementSql
  import opened ElementMeaning

  // A value or the error raised: RuntimeQueryError, UnsupportedError, OverflowError.
  datatype Outcome = Value(s: string) | RuntimeError | NotSupported | TooLarge

  function Raised<T>(r: Result<T>): Outcome
    requires !r.Ok?
  {
    if r.Unsupported? then NotSupported else TooLarge
  }

  function Format(p: Platform, v: Dbl): Outcome {
    var r := FormatLiteral(p, v);
    if r.Ok? then Value(r.value) else Raised(r)
  }

  function Number(p: Platform, s: string): Dbl {
    match p.parse(s) case Some(d) => d case None => NaN
  }

  // The operators of the evaluator, on two values; comparisons follow IEEE 754.
  function Combine(p: Platform, op: Op, a: string, b: string): Outcome {
    if IsArithmetic(op) then
      var x, y := Number(p, a), Number(p, b);
      if op == Div && y == Fin(0.0) then Format(p, NaN) else Format(p, Operate(p.round, op, x, y))
    else if IsComparison(op) then
      if p.parse(a).Some? && p.parse(b).Some? then Value(Flag(Compare(NanIsUnordered, op, Number(p, a), Number(p, b))))
      else Value(Flag(Holds(op, TextLess(a, b), a == b)))
    else if op == And then Value(Flag(Truthy(a) && Truthy(b)))
    else Value(Flag(Truthy(a) || Truthy(b)))
  }

  // ---- sets and aggregates --------------------------------------------------------------------

  predicate InType(typeName: string, row: Row) {
    match typeName
    case "nodes" => row.kind == Some("node")
    case "ways" => row.kind == Some("way")
    case "relations" => row.kind == Some("relation")
    case "areas" => row.kind == Some("area")
    case _ => row.kind == Some("node") || row.kind == Some("way") || row.kind == Some("relation")
  }

  function CountRows(typeName: string, rows: seq<Row>): nat {
    if rows == [] then 0
    else CountRows(typeName, rows[1..]) + if InType(typeName, rows[0]) then 1 else 0
  }

  // The non-NULL texts an expression takes on the rows.
  function Column(p: Platform, sql: Sql, rows: seq<Row>): seq<string> {
    if rows == [] then []
    else
      var v := Eval(p, sql, rows[0]);
      (if v.Varchar? then [v.s] else []) + Column(p, sql, rows[1..])
  }

  function MaxText(ss: seq<string>): Option<string> {
    if ss == [] then None
    else
      match MaxText(ss[1..])
      case None => Some(ss[0])
      case Some(m) => Some(if TextLess(m, ss[0]) then ss[0] else m)
  }

  function Numbers(p: Platform, ss: seq<string>): seq<Dbl> {
    if ss == [] then []
    else (match p.parse(ss[0]) case None => [] case Some(d) => [d]) + Numbers(p, ss[1..])
  }

  // The least number, or the greatest.
  function Extreme(greatest: bool, ds: seq<Dbl>): Option<Dbl> {
    if ds == [] then None
    else
      match Extreme(greatest, ds[1..])
      case None => Some(ds[0])
      case Some(m) => Some(if (if greatest then Less(m, ds[0]) else Less(ds[0], m)) then ds[0] else m)
  }

  function Total(p: Platform, ds: seq<Dbl>): Dbl {
    if ds == [] then Fin(0.0) else Plus(p.round, Total(p, ds[..|ds| - 1]), ds[|ds| - 1])
  }

  // Insertion into a strictly ascending list.
  function Include(s: string, ss: seq<string>): seq<string> {
    if ss == [] || TextLess(s, ss[0]) then [s] + ss
    else if s == ss[0] then ss
    else [ss[0]] + Include(s, ss[1..])
  }

  function Ascending(ss: seq<string>): seq<string> {
    if ss == [] then [] else Include(ss[0], Ascending(ss[1..]))
  }

  function Join(ss: seq<string>): string {
    if |ss| == 0 then "" else if |ss| == 1 then ss[0] else ss[0] + ", " + Join(ss[1..])
  }

  function FormatOrEmpty(p: Platform, d: Option<Dbl>): Outcome { if d.Some? then Format(p, d.value) else Value("") }

  function AggregateOf(p: Platform, func: string, ss: seq<string>): Outcome {
    match func
    case "u" => Value(if |set s | s in ss| <= 1 then OrEmpty(MaxText(ss)) else "")
    case "min" => FormatOrEmpty(p, Extreme(false, Numbers(p, ss)))
    case "max" => FormatOrEmpty(p, Extreme(true, Numbers(p, ss)))
    case "sum" => Format(p, Total(p, Numbers(p, ss)))
    case "set" => Value(Join(Ascending(ss)))
    case _ => NotSupported
  }

  // ---- the evaluator --------------------------------------------------------------------------

  type Tables = map<string, seq<Row>>

  function Evaluate(p: Platform, tables: Tables, current: string, e: Expr<Dbl>): Outcome
    requires WellFormed(e)
  {
    match e
    case Num(v) => Format(p, v)
    case Str(s) => Value(s)
    case TagAccess(_) => RuntimeError
    case ElementCall(_, _) => RuntimeError
    case SetCount(t) => if current in tables then Value(Decimal(CountRows(t, tables[current]))) else RuntimeError
    case NamedSetCount(name, t) => if name in tables then Value(Decimal(CountRows(t, tables[name]))) else RuntimeError
    case Aggregate(func, arg) =>
      if current !in tables then RuntimeError
      else
        var sql := Compile(p, arg);
        if sql.Ok? then AggregateOf(p, func, Column(p, sql.value, tables[current])) else Raised(sql)
    case Unary(prefix, operand) =>
      var v := Evaluate(p, tables, current, operand);
      if !v.Value? then v
      else if prefix == Not then Value(Flag(!Truthy(v.s)))
      else Format(p, Minus(Number(p, v.s)))
    case Binary(op, left, right) =>
      var a := Evaluate(p, tables, current, left);
      if !a.Value? then a
      else
        var b := Evaluate(p, tables, current, right);
        if !b.Value? then b else Combine(p, op, a.s, b.s)
    case Ternary(c, t, f) =>
      var v := Evaluate(p, tables, current, c);
      if !v.Value? then v
      else Evaluate(p, tables, current, if Truthy(v.s) then t else f)
  }

  // ---- agreement on literals and operators ----------------------------------------------------

  predicate Shared(e: Expr<Dbl>) {
    match e
    case Num(v) => v.Fin? || v.NaN?
    case Str(_) => true
    case Unary(_, operand) => Shared(operand)
    case Binary(_, left, right) => Shared(left) && Shared(right)
    case Ternary(c, t, f) => Shared(c) && Shared(t) && Shared(f)
    case _ => false
  }

  lemma FormatIsShown(p: Platform, v: Dbl)
    requires p.Valid()
    ensures Format(p, v).Value? <==> v.Fin? || v.NaN?
    ensures Format(p, v) == TooLarge || Format(p, v) == Value(Shown(p, Some(v)))
  {
  }

  // ---- infinities -----------------------------------------------------------------------------

  predicate IsInfinite(d: Dbl) { d == PosInf || d == NegInf }

  // An operation on numbers, not guarded against division by zero, whose result is infinite.
  predicate OperationOverflows(p: Platform, op: Op, a: string, b: string) {
    && IsArithmetic(op) && p.parse(a).Some? && p.parse(b).Some?
    && !(op == Div && p.parse(b).value == Fin(0.0))
    && IsInfinite(Operate(p.round, op, p.parse(a).value, p.parse(b).value))
  }

  // Some operation the evaluation reaches has an infinite result.
  predicate Overflows(p: Platform, e: Expr<Dbl>, row: Row)
    requires WellFormed(e) && ElementScoped(e)
  {
    match e
    case Unary(prefix, operand) =>
      || Overflows(p, operand, row)
      || (prefix == Neg && IsInfinite(Number(p, Meaning(p, NanIsUnordered, operand, row))))
    case Binary(op, left, right) =>
      || Overflows(p, left, row) || Overflows(p, right, row)
      || OperationOverflows(p, op, Meaning(p, NanIsUnordered, left, row), Meaning(p, NanIsUnordered, right, row))
    case Ternary(c, t, f) =>
      || Overflows(p, c, row)
      || Overflows(p, if Truthy(Meaning(p, NanIsUnordered, c, row)) then t else f, row)
    case _ => false
  }

  lemma CombineIsApply(p: Platform, op: Op, a: string, b: string)
    requires p.Valid()
    ensures Combine(p, op, a, b)
      == if OperationOverflows(p, op, a, b) then TooLarge else Value(Apply(p, NanIsUnordered, op, a, b))
  {
    if IsArithmetic(op) {
      var x, y := Number(p, a), Number(p, b);
      if p.parse(a).None? || p.parse(b).None? { NanIsContagious(p.round, op, x, y); }
      FormatIsShown(p, Operate(p.round, op, x, y));
      FormatIsShown(p, NaN);
    }
  }

  lemma {:induction false} SharedIsElementScoped(e: Expr<Dbl>)
    requires Shared(e)
    ensures ElementScoped(e)
  {
    match e
    case Unary(_, operand) => SharedIsElementScoped(operand);
    case Binary(_, left, right) => SharedIsElementScoped(left); SharedIsElementScoped(right);
    case Ternary(c, t, f) => SharedIsElementScoped(c); SharedIsElementScoped(t); SharedIsElementScoped(f);
    case _ =>
  }

  // On literals and operators the evaluator gives the language's meaning with IEEE 754 comparisons,
  // whatever the row, and fails exactly when an operation it reaches has an infinite result.
  lemma {:induction false} EvaluateIsMeaning(p: Platform, tables: Tables, current: string, e: Expr<Dbl>, row: Row)
    requires p.Valid() && WellFormed(e) && Shared(e)
    ensures ElementScoped(e)
    ensures Evaluate(p, tables, current, e)
      == if Overflows(p, e, row) then TooLarge else Value(Meaning(p, NanIsUnordered, e, row))
  {
    SharedIsElementScoped(e);
    match e
    case Unary(prefix, operand) =>
      EvaluateIsMeaning(p, tables, current, operand, row);
      FormatIsShown(p, Minus(Number(p, Meaning(p, NanIsUnordered, operand, row))));
    case Binary(op, left, right) =>
      EvaluateIsMeaning(p, tables, current, left, row);
      EvaluateIsMeaning(p, tables, current, right, row);
      CombineIsApply(p, op, Meaning(p, NanIsUnordered, left, row), Meaning(p, NanIsUnordered, right, row));
    case Ternary(c, t, f) =>
      EvaluateIsMeaning(p, tables, current, c, row);
      EvaluateIsMeaning(p, tables, current, if Truthy(Meaning(p, NanIsUnordered, c, row)) then t else f, row);
    case Num(v) => FormatIsShown(p, v);
    case _ =>
  }

  // A product too large for a double: the set evaluator fails, the compiled SQL prints it.
  lemma OverflowsDiffer(p: Platform, tables: Tables, current: string, row: Row, h: real)
    requires p.Valid() && p.parse("1e300") == Some(Fin(h)) && p.round(h * h) == PosInf
    ensures var huge := Str("1e300"); var e := Binary(Mul, huge, huge);
      && Evaluate(p, tables, current, e) == TooLarge
      && Compile(p, e).Ok? && Eval(p, Compile(p, e).value, row) == Varchar(p.show(PosInf))
  {
    var huge := Str("1e300");
    var e := Binary(Mul, huge, huge);
    assert Meaning(p, NanIsUnordered, huge, row) == Meaning(p, NanIsGreatest, huge, row) == "1e300";
    assert Operate(p.round, Mul, Fin(h), Fin(h)) == PosInf;
    EvaluateIsMeaning(p, tables, current, e, row);
    CompiledMeansMeaning(p, e, row);
  }

  // ---- NaN ------------------------------------------------------------------------------------

  // One operation on the same operands: the two forms differ exactly on these.
  predicate OperandsDiffer(p: Platform, op: Op, a: string, b: string) {
    p.parse(a).Some? && p.parse(b).Some? && RulesDiffer(op, p.parse(a).value, p.parse(b).value)
  }

  lemma OperandsDifferExactly(p: Platform, op: Op, a: string, b: string)
    ensures Apply(p, NanIsGreatest, op, a, b) == Apply(p, NanIsUnordered, op, a, b) <==> !OperandsDiffer(p, op, a, b)
  {
    if IsComparison(op) && p.parse(a).Some? && p.parse(b).Some? {
      RulesDifferExactly(op, p.parse(a).value, p.parse(b).value);
    }
  }

  // No comparison the evaluation reaches has operands the two rules treat differently.
  predicate NoComparisonDiffers(p: Platform, e: Expr<Dbl>, row: Row)
    requires WellFormed(e) && ElementScoped(e)
  {
    match e
    case Unary(_, operand) => NoComparisonDiffers(p, operand, row)
    case Binary(op, left, right) =>
      && NoComparisonDiffers(p, left, row) && NoComparisonDiffers(p, right, row)
      && !OperandsDiffer(p, op, Meaning(p, NanIsUnordered, left, row), Meaning(p, NanIsUnordered, right, row))
    case Ternary(c, t, f) =>
      && NoComparisonDiffers(p, c, row)
      && NoComparisonDiffers(p, if Truthy(Meaning(p, NanIsUnordered, c, row)) then t else f, row)
    case ElementCall(name, args) => args == [] || name == "is_tag" || NoComparisonDiffers(p, args[0], row)
    case _ => true
  }

  lemma {:induction false} RulesAgree(p: Platform, e: Expr<Dbl>, row: Row)
    requires WellFormed(e) && ElementScoped(e) && NoComparisonDiffers(p, e, row)
    ensures Meaning(p, NanIsGreatest, e, row) == Meaning(p, NanIsUnordered, e, row)
  {
    match e
    case Unary(_, operand) => RulesAgree(p, operand, row);
    case Binary(op, left, right) =>
      RulesAgree(p, left, row);
      RulesAgree(p, right, row);
      OperandsDifferExactly(p, op, Meaning(p, NanIsUnordered, left, row), Meaning(p, NanIsUnordered, right, row));
    case Ternary(c, t, f) =>
      RulesAgree(p, c, row);
      RulesAgree(p, if Truthy(Meaning(p, NanIsUnordered, c, row)) then t else f, row);
    case ElementCall(name, args) =>
      if args != [] && name != "is_tag" { RulesAgree(p, args[0], row); }
    case _ =>
  }

  // The value of every part of an expression the evaluation reaches is text that is not NaN.
  predicate NeverNan(p: Platform, e: Expr<Dbl>, row: Row)
    requires WellFormed(e) && ElementScoped(e)
  {
    && p.parse(Meaning(p, NanIsUnordered, e, row)) != Some(NaN)
    && match e
       case Unary(_, operand) => NeverNan(p, operand, row)
       case Binary(_, left, right) => NeverNan(p, left, row) && NeverNan(p, right, row)
       case Ternary(c, t, f) =>
         NeverNan(p, c, row) && NeverNan(p, if Truthy(Meaning(p, NanIsUnordered, c, row)) then t else f, row)
       case ElementCall(name, args) => args == [] || name == "is_tag" || NeverNan(p, args[0], row)
       case _ => true
  }

  lemma {:induction false} WithoutNanNothingDiffers(p: Platform, e: Expr<Dbl>, row: Row)
    requires WellFormed(e) && ElementScoped(e) && NeverNan(p, e, row)
    ensures NoComparisonDiffers(p, e, row)
  {
    match e
    case Unary(_, operand) => WithoutNanNothingDiffers(p, operand, row);
    case Binary(_, left, right) => WithoutNanNothingDiffers(p, left, row); WithoutNanNothingDiffers(p, right, row);
    case Ternary(c, t, f) =>
      WithoutNanNothingDiffers(p, c, row);
      WithoutNanNothingDiffers(p, if Truthy(Meaning(p, NanIsUnordered, c, row)) then t else f, row);
    case ElementCall(name, args) =>
      if args != [] && name != "is_tag" { WithoutNanNothingDiffers(p, args[0], row); }
    case _ =>
  }

  // The set evaluator returns what the compiled SQL evaluates to on a row.
  predicate SameAnswer(p: Platform, tables: Tables, current: string, e: Expr<Dbl>, row: Row)
    requires WellFormed(e)
  {
    && Compile(p, e).Ok? && Evaluate(p, tables, current, e).Value?
    && Varchar(Evaluate(p, tables, current, e).s) == Eval(p, Compile(p, e).value, row)
  }

  // The final value: when no comparison reached orders a NaN, the two evaluators give the same string
  // exactly when no operation reached has an infinite result.
  lemma EvaluatorsAgree(p: Platform, tables: Tables, current: string, e: Expr<Dbl>, row: Row)
    requires p.Valid() && WellFormed(e) && Shared(e)
    requires ElementScoped(e) && NoComparisonDiffers(p, e, row)
    ensures SameAnswer(p, tables, current, e, row) <==> !Overflows(p, e, row)
  {
    EvaluateIsMeaning(p, tables, current, e, row);
    RulesAgree(p, e, row);
    CompiledMeansMeaning(p, e, row);
  }

  // The two evaluators agree at every part of the expression that the evaluation reaches.
  predicate SameAtEveryPart(p: Platform, tables: Tables, current: string, e: Expr<Dbl>, row: Row)
    requires WellFormed(e) && ElementScoped(e)
  {
    && SameAnswer(p, tables, current, e, row)
    && match e
       case Unary(_, operand) => SameAtEveryPart(p, tables, current, operand, row)
       case Binary(_, left, right) =>
         SameAtEveryPart(p, tables, current, left, row) && SameAtEveryPart(p, tables, current, right, row)
       case Ternary(c, t, f) =>
         && SameAtEveryPart(p, tables, current, c, row)
         && SameAtEveryPart(p, tables, current, if Truthy(Meaning(p, NanIsUnordered, c, row)) then t else f, row)
       case _ => true
  }

  // The two meanings agree at every part reached.
  predicate MeaningsAgree(p: Platform, e: Expr<Dbl>, row: Row)
    requires WellFormed(e) && ElementScoped(e)
  {
    && Meaning(p, NanIsGreatest, e, row) == Meaning(p, NanIsUnordered, e, row)
    && match e
       case Unary(_, operand) => MeaningsAgree(p, operand, row)
       case Binary(_, left, right) => MeaningsAgree(p, left, row) && MeaningsAgree(p, right, row)
       case Ternary(c, t, f) =>
         && MeaningsAgree(p, c, row)
         && MeaningsAgree(p, if Truthy(Meaning(p, NanIsUnordered, c, row)) then t else f, row)
       case ElementCall(name, args) => args == [] || name == "is_tag" || MeaningsAgree(p, args[0], row)
       case _ => true
  }

  // Exactly when the two NaN rules give one meaning at every part reached: no comparison reached has
  // operands on which they differ.
  lemma {:induction false} MeaningsAgreeExactly(p: Platform, e: Expr<Dbl>, row: Row)
    requires WellFormed(e) && ElementScoped(e)
    ensures MeaningsAgree(p, e, row) <==> NoComparisonDiffers(p, e, row)
  {
    if NoComparisonDiffers(p, e, row) { RulesAgree(p, e, row); }
    match e
    case Unary(_, operand) => MeaningsAgreeExactly(p, operand, row);
    case Binary(op, left, right) =>
      MeaningsAgreeExactly(p, left, row);
      MeaningsAgreeExactly(p, right, row);
      OperandsDifferExactly(p, op, Meaning(p, NanIsUnordered, left, row), Meaning(p, NanIsUnordered, right, row));
    case Ternary(c, t, f) =>
      MeaningsAgreeExactly(p, c, row);
      MeaningsAgreeExactly(p, if Truthy(Meaning(p, NanIsUnordered, c, row)) then t else f, row);
    case ElementCall(name, args) =>
      if args != [] && name != "is_tag" { MeaningsAgreeExactly(p, args[0], row); }
    case _ =>
  }

  // One expression: the evaluators agree on its value exactly when it does not overflow and the two
  // rules give it one meaning.
  lemma SameAnswerExactly(p: Platform, tables: Tables, current: string, e: Expr<Dbl>, row: Row)
    requires p.Valid() && WellFormed(e) && Shared(e) && ElementScoped(e)
    ensures SameAnswer(p, tables, current, e, row)
       <==> !Overflows(p, e, row) && Meaning(p, NanIsGreatest, e, row) == Meaning(p, NanIsUnordered, e, row)
  {
    EvaluateIsMeaning(p, tables, current, e, row);
    CompiledMeansMeaning(p, e, row);
  }

  lemma {:induction false} SameAtEveryPartIs(p: Platform, tables: Tables, current: string, e: Expr<Dbl>, row: Row)
    requires p.Valid() && WellFormed(e) && Shared(e) && ElementScoped(e)
    ensures SameAtEveryPart(p, tables, current, e, row) <==> MeaningsAgree(p, e, row) && !Overflows(p, e, row)
  {
    SameAnswerExactly(p, tables, current, e, row);
    match e
    case Unary(_, operand) => SameAtEveryPartIs(p, tables, current, operand, row);
    case Binary(_, left, right) =>
      SameAtEveryPartIs(p, tables, current, left, row);
      SameAtEveryPartIs(p, tables, current, right, row);
    case Ternary(c, t, f) =>
      SameAtEveryPartIs(p, tables, current, c, row);
      SameAtEveryPartIs(p, tables, current, if Truthy(Meaning(p, NanIsUnordered, c, row)) then t else f, row);
    case _ =>
  }

  // Main result: on literals and operators the two evaluators agree at every part reached exactly
  // when no comparison reached orders a NaN and no operation reached has an infinite result.
  lemma EvaluatorsAgreeExactly(p: Platform, tables: Tables, current: string, e: Expr<Dbl>, row: Row)
    requires p.Valid() && WellFormed(e) && Shared(e) && ElementScoped(e)
    ensures SameAtEveryPart(p, tables, current, e, row) <==> NoComparisonDiffers(p, e, row) && !Overflows(p, e, row)
  {
    SameAtEveryPartIs(p, tables, current, e, row);
    MeaningsAgreeExactly(p, e, row);
  }

  // In particular whenever no value reached is NaN.
  lemma EvaluatorsAgreeWithoutNan(p: Platform, tables: Tables, current: string, e: Expr<Dbl>, row: Row)
    requires p.Valid() && WellFormed(e) && Shared(e)
    requires ElementScoped(e) && NeverNan(p, e, row)
    ensures SameAnswer(p, tables, current, e, row) <==> !Overflows(p, e, row)
  {
    WithoutNanNothingDiffers(p, e, row);
    EvaluatorsAgree(p, tables, current, e, row);
  }

  // The NaN condition is needed: -"x" == -"x" is "1" in SQL and "0" in the set evaluator.
  lemma NanComparisonsDiffer(p: Platform, tables: Tables, current: string, row: Row)
    requires p.Valid() && p.parse("x") == None && p.parse("nan") == Some(NaN)
    ensures var minus := Unary(Neg, Str("x")); var e := Binary(Eq, minus, minus);
      && Evaluate(p, tables, current, e) == Value("0")
      && Compile(p, e).Ok? && Eval(p, Compile(p, e).value, row) == Varchar("1")
  {
    var minus := Unary(Neg, Str("x"));
    CompiledMeansMeaning(p, Binary(Eq, minus, minus), row);
    assert Meaning(p, NanIsGreatest, Str("x"), row) == "x";
    assert Meaning(p, NanIsGreatest, minus, row) == "nan";
    assert Evaluate(p, tables, current, Str("x")) == Value("x");
    assert Evaluate(p, tables, current, minus) == Value("nan");
  }

  // ---- what the aggregates mean ---------------------------------------------------------------

  lemma {:induction false} ColumnIsMeanings(p: Platform, e: Expr<Dbl>, rows: seq<Row>)
    requires p.Valid() && WellFormed(e) && ElementScoped(e)
    ensures Compile(p, e).Ok? && |Column(p, Compile(p, e).value, rows)| == |rows|
    ensures forall i :: 0 <= i < |rows| ==>
      Column(p, Compile(p, e).value, rows)[i] == Meaning(p, NanIsGreatest, e, rows[i])
  {
    CompilesExactly(p, e);
    if rows != [] {
      CompiledMeansMeaning(p, e, rows[0]);
      ColumnIsMeanings(p, e, rows[1..]);
    }
  }

  lemma {:induction false} MaxTextIsOne(ss: seq<string>)
    ensures MaxText(ss) == None <==> ss == []
    ensures ss != [] ==> MaxText(ss).value in ss
  {
    if ss != [] { MaxTextIsOne(ss[1..]); }
  }

  lemma UniqueOfTexts(p: Platform, ss: seq<string>, v: string)
    requires ss != [] && v != ""
    ensures AggregateOf(p, "u", ss) == Value(v) <==> forall s :: s in ss ==> s == v
  {
    MaxTextIsOne(ss);
    var distinct := set s | s in ss;
    if forall s :: s in ss ==> s == v {
      assert ss[0] in ss;
      assert distinct == {v};
    } else if |distinct| <= 1 {
      var s :| s in ss && s != v;
      OnlyOne(distinct, s, MaxText(ss).value);
    }
  }

  // u(e): the value all elements share; "" for an empty set or when two elements differ.
  lemma UniqueIsTheCommonValue(p: Platform, tables: Tables, current: string, e: Expr<Dbl>, v: string)
    requires p.Valid() && WellFormed(e) && ElementScoped(e) && current in tables && tables[current] != []
    requires v != ""
    ensures Evaluate(p, tables, current, Aggregate("u", e)) == Value(v)
       <==> forall i :: 0 <= i < |tables[current]| ==> Meaning(p, NanIsGreatest, e, tables[current][i]) == v
  {
    var rows := tables[current];
    ColumnIsMeanings(p, e, rows);
    var ss := Column(p, Compile(p, e).value, rows);
    UniqueOfTexts(p, ss, v);
    assert Evaluate(p, tables, current, Aggregate("u", e)) == AggregateOf(p, "u", ss);
    AllOfTexts(ss, v);
  }

  lemma AllOfTexts(ss: seq<string>, v: string)
    ensures (forall s :: s in ss ==> s == v) <==> forall i :: 0 <= i < |ss| ==> ss[i] == v
  {
    if forall s :: s in ss ==> s == v {
      forall i | 0 <= i < |ss| ensures ss[i] == v { assert ss[i] in ss; }
    }
  }

  lemma OnlyOne<T>(s: set<T>, x: T, y: T)
    requires |s| <= 1 && x in s && y in s
    ensures x == y
  {
    assert |s - {x}| == |s| - 1;
    assert s - {x} == {};
    assert y in s - {x} || y == x;
  }

  // min(e) and max(e): attained by a numeric value, and beyond every other numeric value.
  lemma {:induction false} ExtremeIsExtreme(greatest: bool, ds: seq<Dbl>)
    requires ds != []
    ensures Extreme(greatest, ds).Some? && Extreme(greatest, ds).value in ds
    ensures forall d :: d in ds ==>
      !(if greatest then Less(Extreme(greatest, ds).value, d) else Less(d, Extreme(greatest, ds).value))
  {
    if |ds| > 1 {
      ExtremeIsExtreme(greatest, ds[1..]);
      var m := Extreme(greatest, ds[1..]).value;
      forall d | d in ds
        ensures !(if greatest then Less(Extreme(greatest, ds).value, d) else Less(d, Extreme(greatest, ds).value))
      {
        LessIsTotal(d, m, ds[0]);
        LessIsTotal(m, ds[0], d);
        LessIsTotal(ds[0], d, m);
        LessIsTotal(ds[0], m, d);
        assert d == ds[0] || d in ds[1..];
      }
    }
  }

  predicate StrictlyAscending(ss: seq<string>) {
    forall i, j :: 0 <= i < j < |ss| ==> TextLess(ss[i], ss[j])
  }

  lemma {:induction false} TextOrder(a: string, b: string, c: string)
    ensures !TextLess(a, a)
    ensures TextLess(a, b) || a == b || TextLess(b, a)
    ensures TextLess(a, b) && TextLess(b, c) ==> TextLess(a, c)
    decreases |a| + |b| + |c|
  {
    if a != "" && b != "" && c != "" {
      TextOrder(a[1..], b[1..], c[1..]);
      assert a == [a[0]] + a[1..] && b == [b[0]] + b[1..];
    } else if a != "" && b != "" {
      TextOrder(a[1..], b[1..], c);
      assert a == [a[0]] + a[1..] && b == [b[0]] + b[1..];
    } else if a != "" {
      TextOrder(a[1..], b, c);
    }
  }

  lemma {:induction false} IncludeKeepsOrder(s: string, ss: seq<string>)
    requires StrictlyAscending(ss)
    ensures StrictlyAscending(Include(s, ss))
    ensures forall t :: t in Include(s, ss) <==> t == s || t in ss
  {
    if ss != [] {
      TextOrder(s, ss[0], ss[0]);
      if TextLess(s, ss[0]) {
        forall k | 0 <= k < |ss| ensures TextLess(s, ss[k]) { TextOrder(s, ss[0], ss[k]); }
      } else if s != ss[0] {
        IncludeKeepsOrder(s, ss[1..]);
        var r := Include(s, ss[1..]);
        forall k | 0 <= k < |r| ensures TextLess(ss[0], r[k]) { assert r[k] in r; }
        assert ss == [ss[0]] + ss[1..];
      }
    }
  }

  // set(e): the distinct values in ascending order.
  lemma {:induction false} AscendingIsTheSortedSet(ss: seq<string>)
    ensures StrictlyAscending(Ascending(ss))
    ensures forall t :: t in Ascending(ss) <==> t in ss
  {
    if ss != [] {
      AscendingIsTheSortedSet(ss[1..]);
      IncludeKeepsOrder(ss[0], Ascending(ss[1..]));
    }
  }

  // ---- the aggregates of the evaluator --------------------------------------------------------

  lemma {:induction false} NumbersAreParsed(p: Platform, ss: seq<string>)
    ensures forall d :: d in Numbers(p, ss) <==> exists i :: 0 <= i < |ss| && p.parse(ss[i]) == Some(d)
  {
    if ss != [] {
      NumbersAreParsed(p, ss[1..]);
      forall d ensures d in Numbers(p, ss) <==> exists i :: 0 <= i < |ss| && p.parse(ss[i]) == Some(d) {
        if i :| 0 <= i < |ss| && p.parse(ss[i]) == Some(d) {
          if i > 0 { assert ss[1..][i - 1] == ss[i]; }
        }
        if d in Numbers(p, ss[1..]) {
          var j :| 0 <= j < |ss| - 1 && p.parse(ss[1..][j]) == Some(d);
          assert ss[1..][j] == ss[j + 1];
        }
      }
    }
  }

  lemma {:induction false} NoNumbers(p: Platform, ss: seq<string>)
    requires Numbers(p, ss) == []
    ensures forall i :: 0 <= i < |ss| ==> p.parse(ss[i]) == None
  {
    if ss != [] {
      NoNumbers(p, ss[1..]);
      assert forall i :: 0 < i < |ss| ==> ss[i] == ss[1..][i - 1];
    }
  }

  // The number an element's value reads as.
  function NumberOf(p: Platform, e: Expr<Dbl>, row: Row): Option<Dbl>
    requires WellFormed(e) && ElementScoped(e)
  {
    p.parse(Meaning(p, NanIsGreatest, e, row))
  }

  // min(e) or max(e) of a set: "" when no element's value is a number, else the formatted number of
  // some element with no element's number beyond it.
  lemma ExtremeOfSet(p: Platform, tables: Tables, current: string, greatest: bool, e: Expr<Dbl>) returns (i: nat)
    requires p.Valid() && WellFormed(e) && ElementScoped(e) && current in tables
    ensures var rows := tables[current];
      var out := Evaluate(p, tables, current, Aggregate(if greatest then "max" else "min", e));
      if forall j :: 0 <= j < |rows| ==> NumberOf(p, e, rows[j]) == None then out == Value("")
      else
        && i < |rows| && NumberOf(p, e, rows[i]).Some? && out == Format(p, NumberOf(p, e, rows[i]).value)
        && forall j :: 0 <= j < |rows| && NumberOf(p, e, rows[j]).Some? ==>
             !(if greatest then Less(NumberOf(p, e, rows[i]).value, NumberOf(p, e, rows[j]).value)
               else Less(NumberOf(p, e, rows[j]).value, NumberOf(p, e, rows[i]).value))
  {
    var rows := tables[current];
    ColumnIsMeanings(p, e, rows);
    var ss := Column(p, Compile(p, e).value, rows);
    var ds := Numbers(p, ss);
    NumbersAreParsed(p, ss);
    assert Evaluate(p, tables, current, Aggregate(if greatest then "max" else "min", e))
      == FormatOrEmpty(p, Extreme(greatest, ds));
    i := 0;
    if ds != [] {
      ExtremeIsExtreme(greatest, ds);
      i :| 0 <= i < |ss| && p.parse(ss[i]) == Extreme(greatest, ds);
      forall j | 0 <= j < |rows| && NumberOf(p, e, rows[j]).Some?
        ensures NumberOf(p, e, rows[j]).value in ds
      {
        assert p.parse(ss[j]) == NumberOf(p, e, rows[j]);
      }
    } else {
      NoNumbers(p, ss);
      forall j | 0 <= j < |rows| ensures NumberOf(p, e, rows[j]) == None { assert p.parse(ss[j]) == None; }
    }
  }

  // set(e): the distinct values of the elements, in ascending order, joined.
  lemma SetOfValues(p: Platform, tables: Tables, current: string, e: Expr<Dbl>) returns (values: seq<string>)
    requires p.Valid() && WellFormed(e) && ElementScoped(e) && current in tables
    ensures Evaluate(p, tables, current, Aggregate("set", e)) == Value(Join(values)) && StrictlyAscending(values)
    ensures forall v :: v in values <==> exists i :: 0 <= i < |tables[current]| && Meaning(p, NanIsGreatest, e, tables[current][i]) == v
  {
    var rows := tables[current];
    ColumnIsMeanings(p, e, rows);
    var ss := Column(p, Compile(p, e).value, rows);
    values := Ascending(ss);
    AscendingIsTheSortedSet(ss);
    forall v ensures v in values <==> exists i :: 0 <= i < |rows| && Meaning(p, NanIsGreatest, e, rows[i]) == v {
      if v in ss {
        var i :| 0 <= i < |ss| && ss[i] == v;
        assert Meaning(p, NanIsGreatest, e, rows[i]) == v;
      }
      if i :| 0 <= i < |rows| && Meaning(p, NanIsGreatest, e, rows[i]) == v { assert ss[i] == v; }
    }
  }

  // ---- counts, sums and joined texts ----------------------------------------------------------

  function KindsOf(typeName: string): set<string> {
    match typeName
    case "nodes" => {"node"}
    case "ways" => {"way"}
    case "relations" => {"relation"}
    case "areas" => {"area"}
    case _ => {"node", "way", "relation"}
  }

  // The positions of the elements of a type.
  function OfType(typeName: string, rows: seq<Row>): set<int> {
    set i | 0 <= i < |rows| && rows[i].kind.Some? && rows[i].kind.value in KindsOf(typeName)
  }

  lemma {:induction false} CountFromTheBack(typeName: string, rows: seq<Row>)
    requires rows != []
    ensures CountRows(typeName, rows)
      == CountRows(typeName, rows[..|rows| - 1]) + if InType(typeName, rows[|rows| - 1]) then 1 else 0
  {
    if |rows| > 1 {
      CountFromTheBack(typeName, rows[1..]);
      assert rows[1..][..|rows| - 2] == rows[..|rows| - 1][1..];
    }
  }

  lemma {:induction false} CountIsCardinality(typeName: string, rows: seq<Row>)
    ensures CountRows(typeName, rows) == |OfType(typeName, rows)|
  {
    if rows == [] {
      assert OfType(typeName, rows) == {};
    } else {
      var n := |rows| - 1;
      var front := rows[..n];
      CountFromTheBack(typeName, rows);
      CountIsCardinality(typeName, front);
      if InType(typeName, rows[n]) {
        assert OfType(typeName, rows) == OfType(typeName, front) + {n};
      } else {
        assert OfType(typeName, rows) == OfType(typeName, front);
      }
    }
  }

  // count(type) counts the elements of the type in the current set, .name.count(type) in the named one.
  lemma CountsOfSets(p: Platform, tables: Tables, current: string, name: string, typeName: string)
    requires typeName in TYPE_KEYWORDS
    ensures Evaluate(p, tables, current, SetCount(typeName))
      == if current in tables then Value(Decimal(|OfType(typeName, tables[current])|)) else RuntimeError
    ensures Evaluate(p, tables, current, NamedSetCount(name, typeName))
      == if name in tables then Value(Decimal(|OfType(typeName, tables[name])|)) else RuntimeError
  {
    if current in tables { CountIsCardinality(typeName, tables[current]); }
    if name in tables { CountIsCardinality(typeName, tables[name]); }
  }

  // The sum of the elements' numbers, leaving out the others.
  function SumOf(p: Platform, e: Expr<Dbl>, rows: seq<Row>): real
    requires WellFormed(e) && ElementScoped(e)
  {
    if rows == [] then 0.0
    else
      (match NumberOf(p, e, rows[0]) case Some(Fin(x)) => x case _ => 0.0) + SumOf(p, e, rows[1..])
  }

  function RealSum(ds: seq<Dbl>): real {
    if ds == [] then 0.0 else (if ds[0].Fin? then ds[0].x else 0.0) + RealSum(ds[1..])
  }

  lemma {:induction false} RealSumFromTheBack(ds: seq<Dbl>)
    requires ds != []
    ensures RealSum(ds) == RealSum(ds[..|ds| - 1]) + if ds[|ds| - 1].Fin? then ds[|ds| - 1].x else 0.0
  {
    if |ds| > 1 {
      RealSumFromTheBack(ds[1..]);
      assert ds[1..][..|ds| - 2] == ds[..|ds| - 1][1..];
    }
  }

  lemma {:induction false} TotalIsRealSum(p: Platform, ds: seq<Dbl>)
    requires forall x :: p.round(x) == Fin(x)
    requires forall d :: d in ds ==> d.Fin?
    ensures Total(p, ds) == Fin(RealSum(ds))
  {
    if ds != [] {
      var front, last := ds[..|ds| - 1], ds[|ds| - 1];
      TotalIsRealSum(p, front);
      RealSumFromTheBack(ds);
      assert last in ds;
    }
  }

  lemma {:induction false} SumOfColumn(p: Platform, e: Expr<Dbl>, rows: seq<Row>)
    requires p.Valid() && WellFormed(e) && ElementScoped(e)
    ensures Compile(p, e).Ok? && RealSum(Numbers(p, Column(p, Compile(p, e).value, rows))) == SumOf(p, e, rows)
  {
    CompilesExactly(p, e);
    if rows != [] {
      CompiledMeansMeaning(p, e, rows[0]);
      SumOfColumn(p, e, rows[1..]);
      var ss := Column(p, Compile(p, e).value, rows);
      assert ss[1..] == Column(p, Compile(p, e).value, rows[1..]);
      var ds, more := Numbers(p, ss), Numbers(p, ss[1..]);
      assert NumberOf(p, e, rows[0]) == p.parse(ss[0]);
      if p.parse(ss[0]).Some? {
        assert ds == [p.parse(ss[0]).value] + more && ds[1..] == more;
      } else {
        assert ds == more;
      }
    }
  }

  // sum(e): where no rounding happens and no element's number is NaN or infinite, the sum of the
  // numbers; elements that have none do not count, and an empty set sums to 0.
  lemma SumOfSet(p: Platform, tables: Tables, current: string, e: Expr<Dbl>)
    requires p.Valid() && WellFormed(e) && ElementScoped(e) && current in tables
    requires forall x :: p.round(x) == Fin(x)
    requires forall i :: 0 <= i < |tables[current]| && NumberOf(p, e, tables[current][i]).Some? ==>
      NumberOf(p, e, tables[current][i]).value.Fin?
    ensures Evaluate(p, tables, current, Aggregate("sum", e)) == Format(p, Fin(SumOf(p, e, tables[current])))
  {
    var rows := tables[current];
    ColumnIsMeanings(p, e, rows);
    SumOfColumn(p, e, rows);
    var ss := Column(p, Compile(p, e).value, rows);
    NumbersAreParsed(p, ss);
    forall d | d in Numbers(p, ss) ensures d.Fin? {
      var i :| 0 <= i < |ss| && p.parse(ss[i]) == Some(d);
      assert NumberOf(p, e, rows[i]) == Some(d);
    }
    TotalIsRealSum(p, Numbers(p, ss));
    assert Evaluate(p, tables, current, Aggregate("sum", e)) == AggregateOf(p, "sum", ss);
  }

  // Joined texts are separated by a comma and a space.
  lemma {:induction false} JoinGrows(ss: seq<string>, s: string)
    ensures Join([]) == "" && Join(ss + [s]) == if ss == [] then s else Join(ss) + ", " + s
  {
    if ss == [] {
      assert ss + [s] == [s];
    } else {
      JoinGrows(ss[1..], s);
      assert (ss + [s])[1..] == ss[1..] + [s];
      if |ss| == 1 {
        assert ss[1..] == [];
      } else {
        assert ss[0] + ", " + (Join(ss[1..]) + ", " + s) == (ss[0] + ", " + Join(ss[1..])) + ", " + s;
      }
    }
  }

  // What cannot be evaluated on a set: tags and element functions outside an aggregate, a set that
  // does not exist, an aggregate of what is not a value of one element.
  lemma RaisedOnSets(p: Platform, tables: Tables, current: string, e: Expr<Dbl>, func: string)
    requires WellFormed(e) && func in AGGREGATES
    ensures e.TagAccess? || e.ElementCall? ==> Evaluate(p, tables, current, e) == RuntimeError
    ensures current !in tables ==> Evaluate(p, tables, current, Aggregate(func, e)) == RuntimeError
    ensures current in tables && !ElementScoped(e) ==> Evaluate(p, tables, current, Aggregate(func, e)) in {NotSupported, TooLarge}
  {
    CompilesExactly(p, e);
  }
}
