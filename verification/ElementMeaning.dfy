/** The direct meaning of the evaluator language on one element, and the proof that the compiled
    SQL has it (src/osmpq/engine/evalsql.py, docs/m3-contracts.md section 5.2). */
module ElementMeaning {
  import opened Options
  import opened Expressions
  import opened Doubles
  import opened Sql
  import opened ElementSql

  // ---- the language's own semantics: every value is a string ----------------------------------

  // A number as text; what is not a number is "nan".
  function Shown(p: Platform, d: Option<Dbl>): string {
    match d
    case None => "nan"
    case Some(v) => if IsSmallInteger(v) then Decimal(v.x.Floor) else p.show(v)
  }

  predicate Truthy(s: string) { s != "" && s != "0" }

  function Flag(b: bool): string { if b then "1" else "0" }

  function Apply(p: Platform, rule: NanRule, op: Op, a: string, b: string): string {
    var x, y := p.parse(a), p.parse(b);
    if IsArithmetic(op) then
      if x.None? || y.None? || (op == Div && y.value == Fin(0.0)) then "nan"
      else Shown(p, Some(Operate(p.round, op, x.value, y.value)))
    else if IsComparison(op) then
      Flag(if x.Some? && y.Some? then Compare(rule, op, x.value, y.value) else Holds(op, TextLess(a, b), a == b))
    else if op == And then Flag(Truthy(a) && Truthy(b))
    else Flag(Truthy(a) || Truthy(b))
  }

  function Prefixed(p: Platform, prefix: Prefix, v: string): string {
    if prefix == Not then Flag(!Truthy(v))
    else Shown(p, match p.parse(v) case None => None case Some(d) => Some(Minus(d)))
  }

  function OrEmpty(s: Option<string>): string { if s.Some? then s.value else "" }

  function NumberOrEmpty(n: Option<int>): string { if n.Some? then Decimal(n.value) else "" }

  function Refs(row: Row): seq<int> {
    if row.kind == Some("way") && row.refs.Some? then row.refs.value else []
  }

  function MembersOf(row: Row): seq<Member> {
    if row.kind == Some("relation") && row.members.Some? then row.members.value else []
  }

  function Pairs(ms: seq<Member>): set<(string, int)> { set m | m in ms :: (m.kind, m.ref) }

  function InRole(ms: seq<Member>, role: string): set<int> {
    set i | 0 <= i < |ms| && ms[i].role == Some(role)
  }

  function DegreesOf(p: Platform, row: Row, e7: Option<int>): Option<Dbl> {
    if row.kind == Some("node") && e7.Some? then Some(p.round(e7.value as real / 10000000.0)) else None
  }

  predicate IsClosed(row: Row) {
    var refs := Refs(row);
    |refs| >= 2 && refs[0] == refs[|refs| - 1]
  }

  function Attribute(p: Platform, name: string, row: Row): string {
    if IsColumn(name) then Stored(p, name, row) else Derived(p, name, row)
  }

  function Stored(p: Platform, name: string, row: Row): string {
    match name
    case "id" => Decimal(row.id)
    case "type" => OrEmpty(row.kind)
    case "version" => NumberOrEmpty(row.version)
    case "timestamp" => if row.timestamp.Some? then p.stamp(row.timestamp.value) else ""
    case "changeset" => NumberOrEmpty(row.changeset)
    case "uid" => NumberOrEmpty(row.uid)
    case _ => OrEmpty(row.user)
  }

  function Derived(p: Platform, name: string, row: Row): string {
    match name
    case "count_tags" => Decimal(if row.tags.Some? then |row.tags.value| else 0)
    case "count_members" => Decimal(|Refs(row)| + |MembersOf(row)|)
    case "count_distinct_members" => Decimal(|set r | r in Refs(row)| + |Pairs(MembersOf(row))|)
    case "is_closed" => Flag(IsClosed(row))
    case "length" =>
      Shown(p, Some(if row.kind == Some("way") && row.length.Some? then row.length.value else Fin(0.0)))
    case "lat" => Shown(p, DegreesOf(p, row, row.latE7))
    case _ => Shown(p, DegreesOf(p, row, row.lonE7))
  }

  function UnaryMeaning(p: Platform, name: string, v: string, row: Row): string {
    match name
    case "count_by_role" => Decimal(|InRole(MembersOf(row), v)|)
    case "number" => Shown(p, p.parse(v))
    case _ => Flag(p.parse(v).Some?)
  }

  function Meaning(p: Platform, rule: NanRule, e: Expr<Dbl>, row: Row): string
    requires WellFormed(e) && ElementScoped(e)
  {
    match e
    case Num(v) => Shown(p, Some(v))
    case Str(s) => s
    case TagAccess(k) => if row.tags.Some? && k in row.tags.value then row.tags.value[k] else ""
    case ElementCall(name, args) =>
      if name == "is_tag" then Flag(row.tags.Some? && args[0].text in row.tags.value)
      else if args == [] then Attribute(p, name, row)
      else UnaryMeaning(p, name, Meaning(p, rule, args[0], row), row)
    case Unary(prefix, operand) => Prefixed(p, prefix, Meaning(p, rule, operand, row))
    case Binary(op, left, right) => Apply(p, rule, op, Meaning(p, rule, left, row), Meaning(p, rule, right, row))
    case Ternary(c, t, f) =>
      if Truthy(Meaning(p, rule, c, row)) then Meaning(p, rule, t, row) else Meaning(p, rule, f, row)
  }

  // ---- the compiled fragments -----------------------------------------------------------------

  function Nullable(d: Option<Dbl>): Value { if d.Some? then Double(d.value) else Null }

  lemma IntegerTestMeans(p: Platform, d: Sql, row: Row, v: Dbl)
    requires Eval(p, d, row) == Double(v)
    ensures Eval(p, AndAlso(Cmp(Eq, d, Floor(d)), Cmp(Lt, Abs(d), DoubleLit(BIG))), row) == Bool(IsSmallInteger(v))
  {
    assert Eval(p, Floor(d), row) == DoFloor(Double(v));
    assert Eval(p, Abs(d), row) == DoAbs(Double(v));
    assert Eval(p, Cmp(Eq, d, Floor(d)), row) == Bool(!v.Fin? || v.x == v.x.Floor as real);
    assert Eval(p, Cmp(Lt, Abs(d), DoubleLit(BIG)), row) == Bool(v.Fin? && -BIG < v.x < BIG);
  }

  lemma FormatMeans(p: Platform, d: Sql, row: Row, v: Option<Dbl>)
    requires p.Valid() && Eval(p, d, row) == Nullable(v)
    ensures Eval(p, FormatNumber(d), row) == Varchar(Shown(p, v))
  {
    assert Eval(p, IsNull(d), row) == Bool(v.None?);
    if v.Some? {
      IntegerTestMeans(p, d, row, v.value);
      assert Eval(p, ToText(d), row) == Varchar(p.show(v.value));
      if IsSmallInteger(v.value) {
        assert (v.value.x + 0.5).Floor == v.value.x.Floor;
        assert Eval(p, ToBigint(d), row) == Int(v.value.x.Floor);
        assert Eval(p, ToText(ToBigint(d)), row) == Varchar(Decimal(v.value.x.Floor));
      }
    }
  }

  lemma NotNullMeans(p: Platform, v: Sql, row: Row)
    ensures Eval(p, IsNotNull(v), row) == Bool(Eval(p, v, row) != Null)
  {
    assert Eval(p, IsNull(v), row) == Bool(Eval(p, v, row) == Null);
  }

  lemma TruthMeans(p: Platform, v: Sql, row: Row, s: string)
    requires Eval(p, v, row) == Varchar(s)
    ensures Eval(p, IsTrue(v), row) == Bool(Truthy(s))
  {
    NotNullMeans(p, v, row);
    assert Eval(p, Cmp(Ne, v, StrLit("")), row) == Bool(s != "");
    assert Eval(p, Cmp(Ne, v, StrLit("0")), row) == Bool(s != "0");
    assert Eval(p, AndAlso(IsNotNull(v), Cmp(Ne, v, StrLit(""))), row) == Bool(s != "");
  }

  lemma FlagMeans(p: Platform, b: Sql, row: Row)
    ensures Eval(p, FromBool(b), row) == Varchar(Flag(Eval(p, b, row) == Bool(true)))
  {
  }

  lemma CastMeans(p: Platform, v: Sql, row: Row, s: string)
    requires Eval(p, v, row) == Varchar(s)
    ensures Eval(p, TryDouble(v), row) == Nullable(p.parse(s))
  {
  }

  // ---- operators ------------------------------------------------------------------------------

  lemma ArithmeticMeans(p: Platform, op: Op, a: Sql, b: Sql, row: Row, s: string, t: string)
    requires p.Valid() && IsArithmetic(op)
    requires Eval(p, a, row) == Varchar(s) && Eval(p, b, row) == Varchar(t)
    ensures Eval(p, CompileBinary(op, a, b), row) == Varchar(Apply(p, NanIsGreatest, op, s, t))
  {
    CastMeans(p, a, row, s);
    CastMeans(p, b, row, t);
    var x, y := p.parse(s), p.parse(t);
    var plain := Arith(op, TryDouble(a), TryDouble(b));
    var v := if x.Some? && y.Some? then Some(Operate(p.round, op, x.value, y.value)) else None;
    assert Eval(p, plain, row) == Nullable(v);
    if op == Div {
      var zero := Cmp(Eq, TryDouble(b), DoubleLit(0.0));
      assert Eval(p, zero, row) == if y.Some? then Bool(y.value == Fin(0.0)) else Null;
      var guarded := Case(zero, NullDouble, plain);
      var w := if y == Some(Fin(0.0)) then None else v;
      assert Eval(p, guarded, row) == Nullable(w);
      FormatMeans(p, guarded, row, w);
    } else {
      FormatMeans(p, plain, row, v);
    }
  }

  lemma BothNumericMeans(p: Platform, a: Sql, b: Sql, row: Row, s: string, t: string)
    requires Eval(p, a, row) == Varchar(s) && Eval(p, b, row) == Varchar(t)
    ensures Eval(p, AndAlso(IsNotNull(TryDouble(a)), IsNotNull(TryDouble(b))), row)
      == Bool(p.parse(s).Some? && p.parse(t).Some?)
  {
    CastMeans(p, a, row, s);
    CastMeans(p, b, row, t);
    NotNullMeans(p, TryDouble(a), row);
    NotNullMeans(p, TryDouble(b), row);
  }

  lemma CompareMeans(p: Platform, op: Op, x: Sql, y: Sql, row: Row)
    ensures Eval(p, Cmp(op, x, y), row) == DoCompare(op, Eval(p, x, row), Eval(p, y, row))
  {
  }

  lemma ComparisonMeans(p: Platform, op: Op, a: Sql, b: Sql, row: Row, s: string, t: string)
    requires IsComparison(op) && Eval(p, a, row) == Varchar(s) && Eval(p, b, row) == Varchar(t)
    ensures Eval(p, CompileBinary(op, a, b), row) == Varchar(Apply(p, NanIsGreatest, op, s, t))
  {
    var x, y := TryDouble(a), TryDouble(b);
    BothNumericMeans(p, a, b, row, s, t);
    CastMeans(p, a, row, s);
    CastMeans(p, b, row, t);
    CompareMeans(p, op, x, y, row);
    CompareMeans(p, op, a, b, row);
    var choice := Case(AndAlso(IsNotNull(x), IsNotNull(y)), Cmp(op, x, y), Cmp(op, a, b));
    FlagMeans(p, choice, row);
  }

  lemma LogicMeans(p: Platform, op: Op, a: Sql, b: Sql, row: Row, s: string, t: string)
    requires op == And || op == Or
    requires Eval(p, a, row) == Varchar(s) && Eval(p, b, row) == Varchar(t)
    ensures Eval(p, CompileBinary(op, a, b), row) == Varchar(Apply(p, NanIsGreatest, op, s, t))
  {
    TruthMeans(p, a, row, s);
    TruthMeans(p, b, row, t);
    FlagMeans(p, if op == And then AndAlso(IsTrue(a), IsTrue(b)) else OrElse(IsTrue(a), IsTrue(b)), row);
  }

  lemma BinaryMeans(p: Platform, op: Op, a: Sql, b: Sql, row: Row, s: string, t: string)
    requires p.Valid() && Eval(p, a, row) == Varchar(s) && Eval(p, b, row) == Varchar(t)
    ensures Eval(p, CompileBinary(op, a, b), row) == Varchar(Apply(p, NanIsGreatest, op, s, t))
  {
    if IsArithmetic(op) {
      ArithmeticMeans(p, op, a, b, row, s, t);
    } else if IsComparison(op) {
      ComparisonMeans(p, op, a, b, row, s, t);
    } else {
      LogicMeans(p, op, a, b, row, s, t);
    }
  }

  lemma PrefixMeans(p: Platform, prefix: Prefix, inner: Sql, row: Row, s: string)
    requires p.Valid() && Eval(p, inner, row) == Varchar(s)
    ensures Eval(p, if prefix == Not then FromBool(Negation(IsTrue(inner))) else FormatNumber(Negate(TryDouble(inner))), row)
      == Varchar(Prefixed(p, prefix, s))
  {
    if prefix == Not {
      TruthMeans(p, inner, row, s);
      assert Eval(p, Negation(IsTrue(inner)), row) == Bool(!Truthy(s));
      FlagMeans(p, Negation(IsTrue(inner)), row);
    } else {
      CastMeans(p, inner, row, s);
      var v := match p.parse(s) case None => None case Some(d) => Some(Minus(d));
      assert Eval(p, Negate(TryDouble(inner)), row) == Nullable(v);
      FormatMeans(p, Negate(TryDouble(inner)), row, v);
    }
  }

  // ---- element functions ----------------------------------------------------------------------

  lemma KindMeans(p: Platform, kind: string, row: Row)
    ensures Eval(p, IsKind(kind), row) == if row.kind.Some? then Bool(row.kind.value == kind) else Null
  {
    assert Eval(p, Col(TypeCol), row) == if row.kind.Some? then Varchar(row.kind.value) else Null;
  }

  lemma CountMeans(p: Platform, list: Sql, row: Row, n: nat)
    requires DoCount(Eval(p, list, row)) == Int(n) || (Eval(p, list, row) == Null && n == 0)
    ensures Eval(p, CountOrZero(list), row) == Int(n)
  {
    assert Eval(p, CountOf(list), row) == DoCount(Eval(p, list, row));
  }

  // The shape of the three member counts.
  lemma KindCountMeans(p: Platform, kind: string, list: Sql, other: Sql, row: Row, n: nat, m: nat)
    requires row.kind == Some(kind) ==> Eval(p, CountOrZero(list), row) == Int(n)
    requires row.kind != Some(kind) ==> Eval(p, other, row) == Int(m)
    ensures Eval(p, Case(IsKind(kind), CountOrZero(list), other), row) == Int(if row.kind == Some(kind) then n else m)
  {
    KindMeans(p, kind, row);
  }

  lemma TextOfCount(p: Platform, e: Sql, row: Row, n: int)
    requires Eval(p, e, row) == Int(n)
    ensures Eval(p, ToText(e), row) == Varchar(Decimal(n))
  {
  }

  // The last colon separates the type from the reference.
  lemma SplitAtLastColon(a: string, d: string, b: string, e: string)
    requires a + ":" + d == b + ":" + e
    requires (forall i :: 0 <= i < |d| ==> d[i] != ':') && (forall i :: 0 <= i < |e| ==> e[i] != ':')
    ensures a == b && d == e
  {
    var s, t := a + ":" + d, b + ":" + e;
    assert s[|a|] == ':' && t[|b|] == ':';
    assert forall i :: |a| < i < |s| ==> s[i] == d[i - |a| - 1];
    assert forall i :: |b| < i < |t| ==> t[i] == e[i - |b| - 1];
    assert a == s[..|a|] && b == t[..|b|] && d == s[|a| + 1..] && e == t[|b| + 1..];
  }

  lemma KeyInjective(m: Member, n: Member)
    requires MemberKey(m) == MemberKey(n)
    ensures m.kind == n.kind && m.ref == n.ref
  {
    SplitAtLastColon(m.kind, Decimal(m.ref), n.kind, Decimal(n.ref));
    DecimalInjective(m.ref, n.ref);
  }

  function KeySet(ms: seq<Member>): set<string> { set m | m in ms :: MemberKey(m) }

  lemma SameKeySamePair(ms: seq<Member>, m: Member)
    ensures MemberKey(m) in KeySet(ms) <==> (m.kind, m.ref) in Pairs(ms)
  {
    if MemberKey(m) in KeySet(ms) {
      var n :| n in ms && MemberKey(n) == MemberKey(m);
      KeyInjective(n, m);
    }
  }

  lemma {:induction false} AsManyKeysAsPairs(ms: seq<Member>)
    ensures |KeySet(ms)| == |Pairs(ms)|
  {
    if ms != [] {
      var front, m := ms[..|ms| - 1], ms[|ms| - 1];
      AsManyKeysAsPairs(front);
      SameKeySamePair(front, m);
      assert ms == front + [m];
      PairsOfOneMore(front, m);
      KeysOfOneMore(front, m);
      GrowTogether(KeySet(front), MemberKey(m), Pairs(front), (m.kind, m.ref));
    }
  }

  lemma GrowTogether<S, T>(a: set<S>, x: S, b: set<T>, y: T)
    requires |a| == |b| && (x in a <==> y in b)
    ensures |a + {x}| == |b + {y}|
  {
    if x in a { assert a + {x} == a && b + {y} == b; }
  }

  lemma PairsOfOneMore(ms: seq<Member>, m: Member)
    ensures Pairs(ms + [m]) == Pairs(ms) + {(m.kind, m.ref)}
  {
    assert forall n :: n in ms + [m] <==> n in ms || n == m;
  }

  lemma KeysOfOneMore(ms: seq<Member>, m: Member)
    ensures KeySet(ms + [m]) == KeySet(ms) + {MemberKey(m)}
  {
    assert forall n :: n in ms + [m] <==> n in ms || n == m;
  }

  lemma {:induction false} KeysAreTheKeySet(ms: seq<Member>)
    ensures forall k :: k in Keys(ms) <==> k in KeySet(ms)
  {
    if ms != [] {
      var front, m := ms[..|ms| - 1], ms[|ms| - 1];
      KeysAreTheKeySet(front);
      assert ms == front + [m];
      KeysOfOneMore(front, m);
    }
  }

  lemma DistinctKeysArePairs(ms: seq<Member>)
    ensures |Dedup(Keys(ms))| == |Pairs(ms)|
  {
    AsManyKeysAsPairs(ms);
    DedupIsTheSet(Keys(ms));
    KeysAreTheKeySet(ms);
    assert (set x | x in Keys(ms)) == KeySet(ms);
  }

  lemma {:induction false} RoleCount(ms: seq<Member>, role: string)
    ensures |FilterRole(ms, Varchar(role))| == |InRole(ms, role)|
  {
    if ms == [] {
      assert InRole(ms, role) == {};
    } else {
      var n := |ms| - 1;
      var front := ms[..n];
      RoleCount(front, role);
      if ms[n].role == Some(role) {
        assert InRole(ms, role) == InRole(front, role) + {n};
      } else {
        assert InRole(ms, role) == InRole(front, role);
      }
    }
  }

  // ---- the compiled SQL has the language's meaning --------------------------------------------

  lemma MemberCountMeans(p: Platform, row: Row)
    ensures Eval(p, Case(IsKind("relation"), CountOrZero(Col(MembersCol)), IntLit(0)), row) == Int(|MembersOf(row)|)
  {
    if row.kind == Some("relation") { CountMeans(p, Col(MembersCol), row, |MembersOf(row)|); }
    KindCountMeans(p, "relation", Col(MembersCol), IntLit(0), row, |MembersOf(row)|, 0);
  }

  lemma CountMembersMeans(p: Platform, row: Row)
    ensures Eval(p, CountMembers(), row)
      == Varchar(Derived(p, "count_members", row))
  {
    var other := Case(IsKind("relation"), CountOrZero(Col(MembersCol)), IntLit(0));
    MemberCountMeans(p, row);
    if row.kind == Some("way") { CountMeans(p, Col(RefsCol), row, |Refs(row)|); }
    KindCountMeans(p, "way", Col(RefsCol), other, row, |Refs(row)|, |MembersOf(row)|);
    TextOfCount(p, Case(IsKind("way"), CountOrZero(Col(RefsCol)), other), row, |Refs(row)| + |MembersOf(row)|);
  }

  lemma DistinctRefsMean(p: Platform, row: Row)
    requires row.kind == Some("way")
    ensures Eval(p, CountOrZero(ListDistinct(Col(RefsCol))), row) == Int(|set r | r in Refs(row)|)
  {
    var list := ListDistinct(Col(RefsCol));
    assert Eval(p, Col(RefsCol), row) == ColumnValue(RefsCol, row);
    DedupIsTheSet(Refs(row));
    if row.refs.Some? {
      assert Eval(p, list, row) == Ints(Dedup(Refs(row)));
    } else {
      assert Eval(p, list, row) == Null;
      assert (set r | r in Refs(row)) == {};
    }
    CountMeans(p, list, row, |set r | r in Refs(row)|);
  }

  function KeysValue(row: Row): Value { if row.members.Some? then Texts(Keys(row.members.value)) else Null }

  lemma KeysEval(p: Platform, row: Row)
    ensures Eval(p, MemberKeys(Col(MembersCol)), row) == KeysValue(row)
  {
    assert Eval(p, Col(MembersCol), row) == ColumnValue(MembersCol, row);
  }

  lemma DistinctEval(p: Platform, e: Sql, row: Row)
    ensures Eval(p, ListDistinct(e), row) == DoDistinct(Eval(p, e, row))
  {
  }

  lemma DistinctPairsMean(p: Platform, row: Row)
    requires row.kind == Some("relation")
    ensures Eval(p, CountOrZero(ListDistinct(MemberKeys(Col(MembersCol)))), row) == Int(|Pairs(MembersOf(row))|)
  {
    KeysEval(p, row);
    DistinctEval(p, MemberKeys(Col(MembersCol)), row);
    DistinctKeysArePairs(MembersOf(row));
    if row.members.None? { assert Pairs(MembersOf(row)) == {}; }
    CountMeans(p, ListDistinct(MemberKeys(Col(MembersCol))), row, |Pairs(MembersOf(row))|);
  }

  lemma CountDistinctMeans(p: Platform, row: Row)
    ensures Eval(p, CountDistinctMembers(), row)
      == Varchar(Derived(p, "count_distinct_members", row))
  {
    var refs, keys := ListDistinct(Col(RefsCol)), ListDistinct(MemberKeys(Col(MembersCol)));
    var m, n := |set r | r in Refs(row)|, |Pairs(MembersOf(row))|;
    if row.kind == Some("relation") { DistinctPairsMean(p, row); } else { assert Pairs(MembersOf(row)) == {}; }
    if row.kind == Some("way") { DistinctRefsMean(p, row); } else { assert (set r | r in Refs(row)) == {}; }
    KindCountMeans(p, "relation", keys, IntLit(0), row, n, 0);
    var other := Case(IsKind("relation"), CountOrZero(keys), IntLit(0));
    KindCountMeans(p, "way", refs, other, row, m, n);
    TextOfCount(p, Case(IsKind("way"), CountOrZero(refs), other), row, m + n);
  }

  lemma CountByRoleMeans(p: Platform, role: Sql, row: Row, s: string)
    requires Eval(p, role, row) == Varchar(s)
    ensures Eval(p, ToText(Case(IsKind("relation"), CountOrZero(WithRole(Col(MembersCol), role)), IntLit(0))), row)
      == Varchar(Decimal(|InRole(MembersOf(row), s)|))
  {
    var list := WithRole(Col(MembersCol), role);
    var n := |InRole(MembersOf(row), s)|;
    assert Eval(p, Col(MembersCol), row) == ColumnValue(MembersCol, row);
    RoleCount(MembersOf(row), s);
    if row.kind == Some("relation") {
      assert Eval(p, list, row) == if row.members.Some? then Members(FilterRole(MembersOf(row), Varchar(s))) else Null;
      CountMeans(p, list, row, n);
    }
    KindCountMeans(p, "relation", list, IntLit(0), row, n, 0);
    TextOfCount(p, Case(IsKind("relation"), CountOrZero(list), IntLit(0)), row, n);
  }

  lemma ClosedMeans(p: Platform, row: Row)
    ensures Eval(p, FromBool(AndAlso(AndAlso(IsKind("way"), Cmp(Ge, CountOf(Col(RefsCol)), IntLit(2))),
        Cmp(Eq, ListFirst(Col(RefsCol)), ListLast(Col(RefsCol))))), row) == Varchar(Flag(IsClosed(row)))
  {
    KindMeans(p, "way", row);
    var long := Cmp(Ge, CountOf(Col(RefsCol)), IntLit(2));
    var same := Cmp(Eq, ListFirst(Col(RefsCol)), ListLast(Col(RefsCol)));
    LongMeans(p, row);
    EndsMean(p, row);
    AndOfThree(p, IsKind("way"), long, same, row);
    FlagMeans(p, AndAlso(AndAlso(IsKind("way"), long), same), row);
  }

  lemma AndOfThree(p: Platform, x: Sql, y: Sql, z: Sql, row: Row)
    ensures Eval(p, AndAlso(AndAlso(x, y), z), row) == DoAnd(DoAnd(Eval(p, x, row), Eval(p, y, row)), Eval(p, z, row))
  {
    AndOfTwo(p, x, y, row);
    AndOfTwo(p, AndAlso(x, y), z, row);
  }

  lemma AndOfTwo(p: Platform, x: Sql, y: Sql, row: Row)
    ensures Eval(p, AndAlso(x, y), row) == DoAnd(Eval(p, x, row), Eval(p, y, row))
  {
  }

  lemma LongMeans(p: Platform, row: Row)
    ensures Eval(p, Cmp(Ge, CountOf(Col(RefsCol)), IntLit(2)), row)
      == if row.refs.Some? then Bool(|row.refs.value| >= 2) else Null
  {
    assert Eval(p, Col(RefsCol), row) == ColumnValue(RefsCol, row);
    assert Eval(p, CountOf(Col(RefsCol)), row) == DoCount(ColumnValue(RefsCol, row));
  }

  lemma EndsMean(p: Platform, row: Row)
    ensures Eval(p, Cmp(Eq, ListFirst(Col(RefsCol)), ListLast(Col(RefsCol))), row)
      == if row.refs.Some? && row.refs.value != [] then Bool(row.refs.value[0] == row.refs.value[|row.refs.value| - 1])
         else Null
  {
    assert Eval(p, Col(RefsCol), row) == ColumnValue(RefsCol, row);
  }

  lemma LengthMeans(p: Platform, row: Row)
    requires p.Valid()
    ensures Eval(p, FormatNumber(Coalesce(Case(IsKind("way"), Col(LengthCol), NullDouble), DoubleLit(0.0))), row)
      == Varchar(Derived(p, "length", row))
  {
    KindMeans(p, "way", row);
    var d := Case(IsKind("way"), Col(LengthCol), NullDouble);
    assert Eval(p, d, row) == if row.kind == Some("way") then ColumnValue(LengthCol, row) else Null;
    var v := if row.kind == Some("way") && row.length.Some? then row.length.value else Fin(0.0);
    assert Eval(p, Coalesce(d, DoubleLit(0.0)), row) == Double(v);
    FormatMeans(p, Coalesce(d, DoubleLit(0.0)), row, Some(v));
  }

  lemma CoordinateMeans(p: Platform, col: Column, row: Row, e7: Option<int>)
    requires p.Valid()
    requires (col == LatCol && e7 == row.latE7) || (col == LonCol && e7 == row.lonE7)
    ensures Eval(p, Coordinate(col), row) == Varchar(Shown(p, DegreesOf(p, row, e7)))
  {
    KindMeans(p, "node", row);
    var d := Arith(Div, Col(col), DoubleLit(10000000.0));
    assert Eval(p, d, row) == if e7.Some? then Double(p.round(e7.value as real / 10000000.0)) else Null;
    FormatMeans(p, Case(IsKind("node"), d, NullDouble), row, DegreesOf(p, row, e7));
  }

  lemma DerivedMeans(p: Platform, name: string, row: Row)
    requires p.Valid()
    ensures Eval(p, CompileDerived(name), row) == Varchar(Derived(p, name, row))
  {
    match name
    case "count_tags" => CountTagsMeans(p, row);
    case "count_members" => CountMembersMeans(p, row);
    case "count_distinct_members" => CountDistinctMeans(p, row);
    case "is_closed" => ClosedMeans(p, row);
    case "length" => LengthMeans(p, row);
    case "lat" => CoordinateMeans(p, LatCol, row, row.latE7);
    case _ => CoordinateMeans(p, LonCol, row, row.lonE7);
  }

  lemma CountTagsMeans(p: Platform, row: Row)
    ensures Eval(p, ToText(CountOrZero(Col(TagsCol))), row) == Varchar(Derived(p, "count_tags", row))
  {
    var n := if row.tags.Some? then |row.tags.value| else 0;
    assert Eval(p, Col(TagsCol), row) == ColumnValue(TagsCol, row);
    CountMeans(p, Col(TagsCol), row, n);
    TextOfCount(p, CountOrZero(Col(TagsCol)), row, n);
  }

  lemma StoredMeans(p: Platform, name: string, row: Row)
    requires IsColumn(name)
    ensures Eval(p, CompileColumn(name), row) == Varchar(Stored(p, name, row))
  {
    match name
    case "version" => NumberColumnMeans(p, VersionCol, row, row.version);
    case "changeset" => NumberColumnMeans(p, ChangesetCol, row, row.changeset);
    case "uid" => NumberColumnMeans(p, UidCol, row, row.uid);
    case "timestamp" =>
      assert Eval(p, Col(TimestampCol), row) == ColumnValue(TimestampCol, row);
      assert Eval(p, FormatTime(Col(TimestampCol)), row)
        == if row.timestamp.Some? then Varchar(p.stamp(row.timestamp.value)) else Null;
    case _ =>
  }

  lemma AttributeMeans(p: Platform, name: string, row: Row)
    requires p.Valid()
    ensures Eval(p, CompileAttribute(name), row) == Varchar(Attribute(p, name, row))
  {
    if IsColumn(name) { StoredMeans(p, name, row); } else { DerivedMeans(p, name, row); }
  }

  lemma NumberColumnMeans(p: Platform, col: Column, row: Row, n: Option<int>)
    requires ColumnValue(col, row) == if n.Some? then Int(n.value) else Null
    ensures Eval(p, Coalesce(ToText(Col(col)), StrLit("")), row) == Varchar(NumberOrEmpty(n))
  {
    assert Eval(p, ToText(Col(col)), row) == DoText(p, ColumnValue(col, row));
  }

  // Main result: whatever is NULL in the row, the compiled SQL evaluates to the string the
  // language's own semantics gives, never to NULL.
  lemma {:induction false} CompiledMeansMeaning(p: Platform, e: Expr<Dbl>, row: Row)
    requires p.Valid() && WellFormed(e) && ElementScoped(e)
    ensures Compile(p, e).Ok?
    ensures Eval(p, Compile(p, e).value, row) == Varchar(Meaning(p, NanIsGreatest, e, row))
    decreases e, 1
  {
    CompilesExactly(p, e);
    match e
    case ElementCall(_, _) => CallMeansMeaning(p, e, row);
    case Unary(prefix, operand) =>
      CompiledMeansMeaning(p, operand, row);
      PrefixMeans(p, prefix, Compile(p, operand).value, row, Meaning(p, NanIsGreatest, operand, row));
    case Binary(op, left, right) =>
      CompiledMeansMeaning(p, left, row);
      CompiledMeansMeaning(p, right, row);
      BinaryMeans(p, op, Compile(p, left).value, Compile(p, right).value, row,
        Meaning(p, NanIsGreatest, left, row), Meaning(p, NanIsGreatest, right, row));
    case Ternary(c, t, f) =>
      CompiledMeansMeaning(p, c, row);
      CompiledMeansMeaning(p, t, row);
      CompiledMeansMeaning(p, f, row);
      TruthMeans(p, Compile(p, c).value, row, Meaning(p, NanIsGreatest, c, row));
    case TagAccess(k) => assert Eval(p, StrLit(""), row) == Varchar("");
    case _ =>
  }

  lemma {:induction false} CallMeansMeaning(p: Platform, e: Expr<Dbl>, row: Row)
    requires p.Valid() && e.ElementCall? && WellFormed(e) && ElementScoped(e) && CompileCall(p, e).Ok?
    ensures Eval(p, CompileCall(p, e).value, row) == Varchar(Meaning(p, NanIsGreatest, e, row))
    decreases e, 0
  {
    if e.name in NULLARY {
      AttributeMeans(p, e.name, row);
    } else if e.name == "is_tag" {
      var tag := TagOf(e.args[0].text);
      NotNullMeans(p, tag, row);
      FlagMeans(p, IsNotNull(tag), row);
    } else {
      CompiledMeansMeaning(p, e.args[0], row);
      UnaryMeans(p, e.name, row, Compile(p, e.args[0]).value, Meaning(p, NanIsGreatest, e.args[0], row));
    }
  }

  lemma UnaryMeans(p: Platform, name: string, row: Row, arg: Sql, s: string)
    requires p.Valid() && Eval(p, arg, row) == Varchar(s)
    ensures Eval(p, CompileUnary(name, arg), row) == Varchar(UnaryMeaning(p, name, s, row))
  {
    CastMeans(p, arg, row, s);
    if name == "count_by_role" {
      CountByRoleMeans(p, arg, row, s);
    } else if name == "number" {
      FormatMeans(p, TryDouble(arg), row, p.parse(s));
    } else {
      NotNullMeans(p, TryDouble(arg), row);
      FlagMeans(p, IsNotNull(TryDouble(arg)), row);
    }
  }

  // An (if:) filter keeps exactly the rows whose value is neither "" nor "0".
  lemma FilterKeepsTruthyRows(p: Platform, e: Expr<Dbl>, row: Row)
    requires p.Valid() && WellFormed(e) && ElementScoped(e)
    ensures CompilePredicate(p, e).Ok?
    ensures Eval(p, CompilePredicate(p, e).value, row) == Bool(Truthy(Meaning(p, NanIsGreatest, e, row)))
  {
    CompiledMeansMeaning(p, e, row);
    TruthMeans(p, Compile(p, e).value, row, Meaning(p, NanIsGreatest, e, row));
  }

  // ---- numbers as text ------------------------------------------------------------------------

  // Integers below 10^15 in size are shown without a decimal point; everything else as the platform
  // shows it.
  lemma IntegersAreShownPlain(p: Platform, n: int, v: Dbl)
    requires v.Fin? && v.x == n as real
    ensures Shown(p, Some(v)) == if -1000000000000000 < n < 1000000000000000 then Decimal(n) else p.show(v)
  {
    assert v.x.Floor == n;
  }

  lemma OthersAreShownAsTheyAre(p: Platform, v: Dbl)
    requires v.Fin? ==> v.x != v.x.Floor as real
    ensures Shown(p, Some(v)) == p.show(v) && Shown(p, None) == "nan"
  {
  }

  // ---- the element functions, one by one ------------------------------------------------------

  function Called(p: Platform, name: string, row: Row): string
    requires name in NULLARY
  {
    Meaning(p, NanIsGreatest, ElementCall(name, []), row)
  }

  // The stored attributes: the column as text, "" where it is NULL.
  lemma StoredAttributes(p: Platform, row: Row)
    ensures Called(p, "id", row) == Decimal(row.id)
    ensures Called(p, "type", row) == if row.kind.Some? then row.kind.value else ""
    ensures Called(p, "version", row) == if row.version.Some? then Decimal(row.version.value) else ""
    ensures Called(p, "timestamp", row) == if row.timestamp.Some? then p.stamp(row.timestamp.value) else ""
    ensures Called(p, "changeset", row) == if row.changeset.Some? then Decimal(row.changeset.value) else ""
    ensures Called(p, "uid", row) == if row.uid.Some? then Decimal(row.uid.value) else ""
    ensures Called(p, "user", row) == if row.user.Some? then row.user.value else ""
  {
  }

  // The derived ones, for each kind of element.
  lemma CountsOfElements(p: Platform, row: Row)
    ensures Called(p, "count_tags", row) == Decimal(if row.tags.Some? then |row.tags.value| else 0)
    ensures row.kind == Some("way") && row.refs.Some? ==>
      && Called(p, "count_members", row) == Decimal(|row.refs.value|)
      && Called(p, "count_distinct_members", row) == Decimal(|set r | r in row.refs.value|)
    ensures row.kind == Some("relation") && row.members.Some? ==>
      && Called(p, "count_members", row) == Decimal(|row.members.value|)
      && Called(p, "count_distinct_members", row) == Decimal(|set m | m in row.members.value :: (m.kind, m.ref)|)
    ensures row.kind != Some("way") && row.kind != Some("relation") ==>
      Called(p, "count_members", row) == Called(p, "count_distinct_members", row) == Decimal(0)
  {
    assert Pairs([]) == {};
    var none: seq<int> := [];
    assert (set r | r in none) == {};
  }

  lemma ShapeOfElements(p: Platform, row: Row)
    ensures Called(p, "is_closed", row) == if row.kind == Some("way") && row.refs.Some? && |row.refs.value| >= 2
      && row.refs.value[0] == row.refs.value[|row.refs.value| - 1] then "1" else "0"
    ensures Called(p, "length", row)
      == Shown(p, Some(if row.kind == Some("way") && row.length.Some? then row.length.value else Fin(0.0)))
    ensures row.kind == Some("node") && row.latE7.Some? ==>
      Called(p, "lat", row) == Shown(p, Some(p.round(row.latE7.value as real / 10000000.0)))
    ensures row.kind == Some("node") && row.lonE7.Some? ==>
      Called(p, "lon", row) == Shown(p, Some(p.round(row.lonE7.value as real / 10000000.0)))
    ensures row.kind != Some("node") ==> Called(p, "lat", row) == Called(p, "lon", row) == "nan"
  {
  }
}
