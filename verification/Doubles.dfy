/** Double-precision values (src/osmpq/engine/evalsql.py).

    A double is NaN, an infinity or a real number; rounding a result is a parameter, since where a
    result is rounded does not matter to what is proved. Comparisons come in two kinds, because
    the database and Python put NaN in different places. The text of an integer is written out
    here, as counting distinct members depends on it; the text of any other number is a parameter
    shared by both evaluators, and so is reading a number from text. The operators on doubles are
    those of IEEE 754, with one zero. */
module Doubles {
  import opened Options
  import opened Expressions

  datatype Dbl = NaN | NegInf | Fin(x: real) | PosInf

  // What the two evaluators take from their platforms and share: reading a number, rounding a
  // real result, and the text of a number that is not a small integer or of a point in time.
  datatype Platform = Platform(parse: string -> Option<Dbl>, round: real -> Dbl,
                               show: Dbl -> string, stamp: int -> string)
  {
    predicate Valid() { show(NaN) == "nan" }
  }

  // Where comparisons put a NaN: the database makes it equal to itself and greater than every
  // other number, IEEE 754 makes it unordered.
  datatype NanRule = NanIsGreatest | NanIsUnordered

  predicate Less(a: Dbl, b: Dbl) {
    match (a, b)
    case (NaN, _) => false
    case (_, NaN) => true
    case (Fin(x), Fin(y)) => x < y
    case (NegInf, _) => b != NegInf
    case (_, PosInf) => a != PosInf
    case (_, _) => false
  }

  predicate IsComparison(op: Op) { OpRank(op) == 3 || OpRank(op) == 4 }

  predicate IsArithmetic(op: Op) { OpRank(op) == 5 || OpRank(op) == 6 }

  predicate Holds(op: Op, less: bool, same: bool)
    requires IsComparison(op)
  {
    match op
    case Eq => same
    case Ne => !same
    case Lt => less
    case Le => less || same
    case Gt => !less && !same
    case Ge => !less
  }

  predicate Compare(rule: NanRule, op: Op, a: Dbl, b: Dbl)
    requires IsComparison(op)
  {
    if rule == NanIsUnordered && (a == NaN || b == NaN) then op == Ne
    else Holds(op, Less(a, b), a == b)
  }

  // The database's order is total, so the six comparisons are consistent with each other.
  lemma LessIsTotal(a: Dbl, b: Dbl, c: Dbl)
    ensures (if Less(a, b) then 1 else 0) + (if a == b then 1 else 0) + (if Less(b, a) then 1 else 0) == 1
    ensures Less(a, b) && Less(b, c) ==> Less(a, c)
  {
  }

  // Exactly when the two rules answer a comparison differently.
  predicate RulesDiffer(op: Op, a: Dbl, b: Dbl) {
    match op
    case Eq => a == NaN && b == NaN
    case Ne => a == NaN && b == NaN
    case Lt => a != NaN && b == NaN
    case Le => b == NaN
    case Gt => a == NaN && b != NaN
    case Ge => a == NaN
    case _ => false
  }

  lemma RulesDifferExactly(op: Op, a: Dbl, b: Dbl)
    requires IsComparison(op)
    ensures RulesDiffer(op, a, b) <==> Compare(NanIsGreatest, op, a, b) != Compare(NanIsUnordered, op, a, b)
  {
  }

  function Minus(a: Dbl): Dbl {
    match a
    case NaN => NaN
    case NegInf => PosInf
    case PosInf => NegInf
    case Fin(x) => Fin(-x)
  }

  function Plus(round: real -> Dbl, a: Dbl, b: Dbl): Dbl {
    match (a, b)
    case (Fin(x), Fin(y)) => round(x + y)
    case (Fin(_), _) => b
    case (_, Fin(_)) => a
    case (_, _) => if a == b then a else NaN
  }

  function Sign(a: Dbl): int {
    match a
    case NaN => 0
    case NegInf => -1
    case PosInf => 1
    case Fin(x) => if x < 0.0 then -1 else if x > 0.0 then 1 else 0
  }

  function Infinite(sign: int): Dbl {
    if sign < 0 then NegInf else if sign > 0 then PosInf else NaN
  }

  function Times(round: real -> Dbl, a: Dbl, b: Dbl): Dbl {
    if a == NaN || b == NaN then NaN
    else if a.Fin? && b.Fin? then round(a.x * b.x)
    else Infinite(Sign(a) * Sign(b))
  }

  // Only called with b != 0.
  function Over(round: real -> Dbl, a: Dbl, b: Dbl): Dbl {
    if a == NaN || b == NaN then NaN
    else if b.Fin? then
      if b.x == 0.0 then NaN else if a.Fin? then round(a.x / b.x) else Infinite(Sign(a) * Sign(b))
    else if a.Fin? then Fin(0.0) else NaN
  }

  function Operate(round: real -> Dbl, op: Op, a: Dbl, b: Dbl): Dbl
    requires IsArithmetic(op)
  {
    match op
    case Add => Plus(round, a, b)
    case Sub => Plus(round, a, Minus(b))
    case Mul => Times(round, a, b)
    case Div => Over(round, a, b)
  }

  lemma NanIsContagious(round: real -> Dbl, op: Op, a: Dbl, b: Dbl)
    requires IsArithmetic(op) && (a == NaN || b == NaN)
    ensures Operate(round, op, a, b) == NaN
  {
  }

  // Integers below 10^15 in size are written without a decimal point.
  const BIG := 1000000000000000.0

  predicate IsSmallInteger(a: Dbl) {
    a.Fin? && a.x == a.x.Floor as real && -BIG < a.x < BIG
  }

  // ---- text order -----------------------------------------------------------------------------

  predicate TextLess(a: string, b: string) {
    if b == "" then false
    else if a == "" then true
    else a[0] < b[0] || (a[0] == b[0] && TextLess(a[1..], b[1..]))
  }

  // ---- decimal text of an integer -------------------------------------------------------------

  function Digit(d: nat): (c: char)
    requires d < 10
    ensures '0' <= c <= '9'
  {
    '0' + d as char
  }

  function Digits(n: nat): (s: string)
    ensures |s| > 0 && forall i :: 0 <= i < |s| ==> '0' <= s[i] <= '9'
  {
    if n < 10 then [Digit(n)] else Digits(n / 10) + [Digit(n % 10)]
  }

  function Decimal(n: int): (s: string)
    ensures forall i :: 0 <= i < |s| ==> s[i] != ':'
    ensures |s| > 0 && (s[0] == '-' <==> n < 0)
  {
    if n < 0 then "-" + Digits(-n) else Digits(n)
  }

  lemma {:induction false} DigitsInjective(m: nat, n: nat)
    requires Digits(m) == Digits(n)
    ensures m == n
  {
    var s := Digits(m);
    assert s[|s| - 1] == Digit(m % 10) && s[|s| - 1] == Digit(n % 10);
    if m >= 10 && n >= 10 {
      assert Digits(m / 10) == s[..|s| - 1] && Digits(n / 10) == s[..|s| - 1];
      DigitsInjective(m / 10, n / 10);
    }
  }

  lemma DecimalInjective(m: int, n: int)
    requires Decimal(m) == Decimal(n)
    ensures m == n
  {
    var s := Decimal(m);
    if m < 0 && n < 0 {
      assert Digits(-m) == s[1..] && Digits(-n) == s[1..];
      DigitsInjective(-m, -n);
    } else if m >= 0 && n >= 0 {
      DigitsInjective(m, n);
    }
  }

  // ---- what the operations are ----------------------------------------------------------------

  // On finite numbers: the four operations, rounded, and the six comparisons under either rule.
  lemma FiniteOperations(round: real -> Dbl, rule: NanRule, a: Dbl, b: Dbl)
    requires a.Fin? && b.Fin?
    ensures Operate(round, Add, a, b) == round(a.x + b.x)
    ensures Operate(round, Sub, a, b) == round(a.x - b.x)
    ensures Operate(round, Mul, a, b) == round(a.x * b.x)
    ensures b.x != 0.0 ==> Operate(round, Div, a, b) == round(a.x / b.x)
    ensures Compare(rule, Eq, a, b) <==> a.x == b.x
    ensures Compare(rule, Ne, a, b) <==> a.x != b.x
    ensures Compare(rule, Lt, a, b) <==> a.x < b.x
    ensures Compare(rule, Le, a, b) <==> a.x <= b.x
    ensures Compare(rule, Gt, a, b) <==> a.x > b.x
    ensures Compare(rule, Ge, a, b) <==> a.x >= b.x
  {
    assert a.x + -b.x == a.x - b.x;
    FiniteProduct(round, a, b);
  }

  lemma FiniteProduct(round: real -> Dbl, a: Dbl, b: Dbl)
    requires a.Fin? && b.Fin?
    ensures Times(round, a, b) == round(a.x * b.x)
  {
  }

  // With infinities: the results of IEEE 754.
  lemma InfiniteOperations(round: real -> Dbl, x: real)
    ensures Operate(round, Add, PosInf, Fin(x)) == Operate(round, Add, Fin(x), PosInf) == PosInf
    ensures Operate(round, Sub, PosInf, Fin(x)) == PosInf && Operate(round, Sub, Fin(x), PosInf) == NegInf
    ensures Operate(round, Add, PosInf, PosInf) == PosInf && Operate(round, Add, NegInf, NegInf) == NegInf
    ensures Operate(round, Add, PosInf, NegInf) == NaN && Operate(round, Sub, PosInf, PosInf) == NaN
    ensures Operate(round, Mul, PosInf, Fin(x)) == if x > 0.0 then PosInf else if x < 0.0 then NegInf else NaN
    ensures Operate(round, Mul, NegInf, Fin(x)) == if x > 0.0 then NegInf else if x < 0.0 then PosInf else NaN
    ensures Operate(round, Mul, PosInf, NegInf) == NegInf && Operate(round, Mul, NegInf, NegInf) == PosInf
    ensures x != 0.0 ==> Operate(round, Div, PosInf, Fin(x)) == Operate(round, Mul, PosInf, Fin(x))
    ensures Operate(round, Div, Fin(x), PosInf) == Operate(round, Div, Fin(x), NegInf) == Fin(0.0)
    ensures Operate(round, Div, PosInf, PosInf) == Operate(round, Div, PosInf, NegInf) == NaN
    ensures Less(NegInf, Fin(x)) && Less(Fin(x), PosInf) && Less(PosInf, NaN)
    ensures Minus(Fin(x)) == Fin(-x) && Minus(PosInf) == NegInf && Minus(NegInf) == PosInf && Minus(NaN) == NaN
  {
  }

  // Text is ordered by the first character that differs; a proper prefix comes first.
  lemma {:induction false} TextOrderIsLexicographic(a: string, b: string)
    ensures TextLess(a, b) <==> exists k :: 0 <= k <= |a| && k < |b| && a[..k] == b[..k] && (k == |a| || a[k] < b[k])
  {
    if b != "" && a != "" {
      TextOrderIsLexicographic(a[1..], b[1..]);
      if k :| 0 <= k <= |a| && k < |b| && a[..k] == b[..k] && (k == |a| || a[k] < b[k]) {
        if k > 0 {
          assert a[0] == a[..k][0] == b[..k][0] == b[0];
          assert a[1..][..k - 1] == a[..k][1..] == b[..k][1..] == b[1..][..k - 1];
        }
      }
      if a[0] == b[0] && TextLess(a[1..], b[1..]) {
        var k :| 0 <= k <= |a| - 1 && k < |b| - 1 && a[1..][..k] == b[1..][..k] && (k == |a| - 1 || a[1..][k] < b[1..][k]);
        assert a[..k + 1] == [a[0]] + a[1..][..k] && b[..k + 1] == [b[0]] + b[1..][..k];
      }
      if a[0] < b[0] { assert a[..0] == b[..0]; }
    } else if b != "" {
      assert a[..0] == b[..0];
    }
  }

  // The number that decimal text spells.
  function Spells(s: string): int {
    if s == "" then 0
    else if s[0] == '-' then -Spells(s[1..])
    else 10 * Spells(s[..|s| - 1]) + (s[|s| - 1] as int - '0' as int)
  }

  lemma {:induction false} DigitsSpell(n: nat)
    ensures Spells(Digits(n)) == n && (n > 0 ==> Digits(n)[0] != '0')
  {
    var s := Digits(n);
    if n >= 10 {
      DigitsSpell(n / 10);
      assert s[..|s| - 1] == Digits(n / 10) && s[0] == Digits(n / 10)[0];
      assert s[|s| - 1] == Digit(n % 10);
    } else {
      assert s[..0] == "";
    }
  }

  // The text of an integer spells it, without leading zeros.
  lemma DecimalSpells(n: int)
    ensures Spells(Decimal(n)) == n && (n > 0 ==> Decimal(n)[0] != '0')
  {
    if n < 0 {
      DigitsSpell(-n);
      assert Decimal(n)[1..] == Digits(-n);
    } else {
      DigitsSpell(n);
    }
  }
}
