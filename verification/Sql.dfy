/** The part of SQL that element expressions compile to (src/osmpq/engine/evalsql.py).

    Expressions are trees over the canonical columns of one row. Every column but the id may be
    NULL. Evaluation follows three-valued logic: a comparison with NULL is NULL, AND and OR decide
    where one side is enough, CASE takes its ELSE branch on NULL, and COALESCE takes the first
    non-NULL side. Functions of one and of two arguments are grouped into two constructors; the
    helpers below write them the way the compiler reads. A value of the wrong kind reads as NULL,
    where the database would refuse the query. */
module Sql {
  import opened Options
  import opened Expressions
  import opened Doubles

  datatype Member = Member(kind: string, ref: int, role: Option<string>)

  // A row of a materialised set. length is the spheroidal length of the geometry.
  datatype Row = Row(
    id: int, kind: Option<string>, version: Option<int>, timestamp: Option<int>,
    changeset: Option<int>, uid: Option<int>, user: Option<string>,
    tags: Option<map<string, string>>, refs: Option<seq<int>>, members: Option<seq<Member>>,
    length: Option<Dbl>, latE7: Option<int>, lonE7: Option<int>)

  datatype Column =
    | IdCol | TypeCol | VersionCol | TimestampCol | ChangesetCol | UidCol | UserCol | TagsCol
    | RefsCol | MembersCol | LengthCol | LatCol | LonCol

  // Functions of one and of two arguments.
  datatype Function1 =
    | CastDouble | CastText | CastBigint | FloorOf | AbsOf | MinusOf | NotOf | NullTest | TimeText
    | CountItems | DistinctItems | FirstItem | LastItem
    | KeysOfMembers                        // type || ':' || ref of each member

  datatype Function2 =
    | Arithmetic(op: Op) | Comparison(op: Op) | Conjunction | Disjunction | FirstNonNull
    | RoleFilter                           // the members whose role equals a value

  datatype Sql =
    | Lit(v: Value) | Col(col: Column) | TagOf(key: string)
    | Call1(f1: Function1, e: Sql) | Call2(f2: Function2, a: Sql, b: Sql)
    | Case(cond: Sql, then_: Sql, else_: Sql)

  function StrLit(s: string): Sql { Lit(Varchar(s)) }
  function IntLit(n: int): Sql { Lit(Int(n)) }
  function DoubleLit(x: real): Sql { Lit(Double(Fin(x))) }
  const NullDouble := Lit(Null)
  function TryDouble(e: Sql): Sql { Call1(CastDouble, e) }
  function ToText(e: Sql): Sql { Call1(CastText, e) }
  function ToBigint(e: Sql): Sql { Call1(CastBigint, e) }
  function Floor(e: Sql): Sql { Call1(FloorOf, e) }
  function Abs(e: Sql): Sql { Call1(AbsOf, e) }
  function Negate(e: Sql): Sql { Call1(MinusOf, e) }
  function Negation(e: Sql): Sql { Call1(NotOf, e) }
  function IsNull(e: Sql): Sql { Call1(NullTest, e) }
  function FormatTime(e: Sql): Sql { Call1(TimeText, e) }
  function CountOf(e: Sql): Sql { Call1(CountItems, e) }
  function ListDistinct(e: Sql): Sql { Call1(DistinctItems, e) }
  function ListFirst(e: Sql): Sql { Call1(FirstItem, e) }
  function ListLast(e: Sql): Sql { Call1(LastItem, e) }
  function MemberKeys(e: Sql): Sql { Call1(KeysOfMembers, e) }
  function Arith(op: Op, a: Sql, b: Sql): Sql { Call2(Arithmetic(op), a, b) }
  function Cmp(op: Op, a: Sql, b: Sql): Sql { Call2(Comparison(op), a, b) }
  function AndAlso(a: Sql, b: Sql): Sql { Call2(Conjunction, a, b) }
  function OrElse(a: Sql, b: Sql): Sql { Call2(Disjunction, a, b) }
  function Coalesce(a: Sql, b: Sql): Sql { Call2(FirstNonNull, a, b) }
  function WithRole(e: Sql, role: Sql): Sql { Call2(RoleFilter, e, role) }

  // ---- values ---------------------------------------------------------------------------------

  datatype Value =
    | Null
    | Varchar(s: string) | Int(n: int) | Double(d: Dbl) | Bool(b: bool) | Time(t: int)
    | Tags(tags: map<string, string>) | Ints(ints: seq<int>) | Texts(texts: seq<string>)
    | Members(members: seq<Member>)

  function ColumnValue(c: Column, row: Row): Value {
    match c
    case IdCol => Int(row.id)
    case TypeCol => if row.kind.Some? then Varchar(row.kind.value) else Null
    case VersionCol => if row.version.Some? then Int(row.version.value) else Null
    case TimestampCol => if row.timestamp.Some? then Time(row.timestamp.value) else Null
    case ChangesetCol => if row.changeset.Some? then Int(row.changeset.value) else Null
    case UidCol => if row.uid.Some? then Int(row.uid.value) else Null
    case UserCol => if row.user.Some? then Varchar(row.user.value) else Null
    case TagsCol => if row.tags.Some? then Tags(row.tags.value) else Null
    case RefsCol => if row.refs.Some? then Ints(row.refs.value) else Null
    case MembersCol => if row.members.Some? then Members(row.members.value) else Null
    case LengthCol => if row.length.Some? then Double(row.length.value) else Null
    case LatCol => if row.latE7.Some? then Int(row.latE7.value) else Null
    case LonCol => if row.lonE7.Some? then Int(row.lonE7.value) else Null
  }

  // ---- the operators on values ----------------------------------------------------------------

  function DoCast(p: Platform, v: Value): Value {
    if !v.Varchar? then Null else
    match p.parse(v.s) case None => Null case Some(d) => Double(d)
  }

  function DoText(p: Platform, v: Value): Value {
    match v
    case Int(n) => Varchar(Decimal(n))
    case Double(d) => Varchar(p.show(d))
    case _ => Null
  }

  // A cast to an integer rounds; it is only reached for integral values.
  function DoBigint(v: Value): Value {
    if v.Double? && v.d.Fin? then Int((v.d.x + 0.5).Floor) else Null
  }

  function DoFloor(v: Value): Value {
    if !v.Double? then Null else if v.d.Fin? then Double(Fin(v.d.x.Floor as real)) else v
  }

  function DoAbs(v: Value): Value {
    if !v.Double? then Null else if Sign(v.d) < 0 then Double(Minus(v.d)) else v
  }

  function DoNegate(v: Value): Value {
    if v.Double? then Double(Minus(v.d)) else Null
  }

  function AsDouble(v: Value): Option<Dbl> {
    match v
    case Double(d) => Some(d)
    case Int(n) => Some(Fin(n as real))
    case _ => None
  }

  function DoArith(p: Platform, op: Op, a: Value, b: Value): Value {
    var x, y := AsDouble(a), AsDouble(b);
    if IsArithmetic(op) && x.Some? && y.Some? then Double(Operate(p.round, op, x.value, y.value)) else Null
  }

  function DoCompare(op: Op, a: Value, b: Value): Value {
    if !IsComparison(op) then Null else
    match (a, b)
    case (Varchar(s), Varchar(t)) => Bool(Holds(op, TextLess(s, t), s == t))
    case (Int(m), Int(n)) => Bool(Holds(op, m < n, m == n))
    case (Double(x), Double(y)) => Bool(Compare(NanIsGreatest, op, x, y))
    case _ => Null
  }

  function DoAnd(a: Value, b: Value): Value {
    if a == Bool(false) || b == Bool(false) then Bool(false)
    else if a == Bool(true) && b == Bool(true) then Bool(true)
    else Null
  }

  function DoOr(a: Value, b: Value): Value {
    if a == Bool(true) || b == Bool(true) then Bool(true)
    else if a == Bool(false) && b == Bool(false) then Bool(false)
    else Null
  }

  function DoCount(v: Value): Value {
    match v
    case Tags(m) => Int(|m|)
    case Ints(s) => Int(|s|)
    case Texts(s) => Int(|s|)
    case Members(s) => Int(|s|)
    case _ => Null
  }

  // The first occurrence of each item.
  function Dedup<T(==)>(s: seq<T>): seq<T> {
    if s == [] then []
    else
      var front, last := Dedup(s[..|s| - 1]), s[|s| - 1];
      if last in front then front else front + [last]
  }

  lemma {:induction false} DedupIsTheSet<T>(s: seq<T>)
    ensures (forall x :: x in Dedup(s) <==> x in s) && |Dedup(s)| == |set x | x in s|
  {
    if s != [] {
      var front, last := s[..|s| - 1], s[|s| - 1];
      DedupIsTheSet(front);
      assert s == front + [last];
      assert (set x | x in s) == (set x | x in front) + {last};
      if last in front { assert (set x | x in s) == (set x | x in front); }
    }
  }

  function MemberKey(m: Member): string { m.kind + ":" + Decimal(m.ref) }

  function Keys(ms: seq<Member>): seq<string> {
    if ms == [] then [] else Keys(ms[..|ms| - 1]) + [MemberKey(ms[|ms| - 1])]
  }

  function FilterRole(ms: seq<Member>, role: Value): (r: seq<Member>) {
    if ms == [] then []
    else
      var rest, last := FilterRole(ms[..|ms| - 1], role), ms[|ms| - 1];
      if role.Varchar? && last.role == Some(role.s) then rest + [last] else rest
  }

  function DoNot(v: Value): Value { if v.Bool? then Bool(!v.b) else Null }

  function DoDistinct(v: Value): Value {
    match v
    case Ints(s) => Ints(Dedup(s))
    case Texts(s) => Texts(Dedup(s))
    case _ => Null
  }

  function DoFirst(v: Value): Value { if v.Ints? && v.ints != [] then Int(v.ints[0]) else Null }

  function DoLast(v: Value): Value { if v.Ints? && v.ints != [] then Int(v.ints[|v.ints| - 1]) else Null }

  // ---- evaluation -----------------------------------------------------------------------------

  function Do1(p: Platform, f: Function1, v: Value): Value {
    match f
    case CastDouble => DoCast(p, v)
    case CastText => DoText(p, v)
    case CastBigint => DoBigint(v)
    case FloorOf => DoFloor(v)
    case AbsOf => DoAbs(v)
    case MinusOf => DoNegate(v)
    case NotOf => DoNot(v)
    case NullTest => Bool(v == Null)
    case TimeText => if v.Time? then Varchar(p.stamp(v.t)) else Null
    case CountItems => DoCount(v)
    case DistinctItems => DoDistinct(v)
    case FirstItem => DoFirst(v)
    case LastItem => DoLast(v)
    case KeysOfMembers => if v.Members? then Texts(Keys(v.members)) else Null
  }

  function Do2(p: Platform, f: Function2, v: Value, w: Value): Value {
    match f
    case Arithmetic(op) => DoArith(p, op, v, w)
    case Comparison(op) => DoCompare(op, v, w)
    case Conjunction => DoAnd(v, w)
    case Disjunction => DoOr(v, w)
    case FirstNonNull => if v != Null then v else w
    case RoleFilter => if v.Members? then Members(FilterRole(v.members, w)) else Null
  }

  function Eval(p: Platform, e: Sql, row: Row): Value {
    match e
    case Lit(v) => v
    case Col(c) => ColumnValue(c, row)
    case TagOf(k) => if row.tags.Some? && k in row.tags.value then Varchar(row.tags.value[k]) else Null
    case Call1(f, x) => Do1(p, f, Eval(p, x, row))
    case Call2(f, a, b) => Do2(p, f, Eval(p, a, row), Eval(p, b, row))
    case Case(c, t, f) => if Eval(p, c, row) == Bool(true) then Eval(p, t, row) else Eval(p, f, row)
  }
}
