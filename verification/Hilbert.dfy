/** The Hilbert index used as sort key (src/osmpq/layout/hilbert.py, its mirrors in
    src/osmpq/engine/hilbert.py and rust/osmpq-raw/src/cells.rs). `Index` and `Point` are an
    independent description of the curve by quadrants; the loops of the program are proved to
    compute `Index`, and the properties of the curve (bijection, adjacency, one run per quadtree
    cell) are proved about `Index` and `Point`. */
module Hilbert {
  import opened Powers

  datatype GridPoint = GridPoint(x: nat, y: nat)

  // A point of a square of side 2s: the quadrant it lies in, in curve order, and where the
  // curve, turned for that quadrant, sees it inside the quadrant.
  datatype Turned = Turned(quadrant: nat, x: nat, y: nat)

  function Enter(s: nat, x: nat, y: nat): (t: Turned)
    requires x < 2 * s && y < 2 * s
    ensures t.quadrant < 4 && t.x < s && t.y < s
  {
    if y >= s then
      if x < s then Turned(1, x, y - s) else Turned(2, x - s, y - s)
    else
      if x < s then Turned(0, y, x) else Turned(3, s - 1 - y, s - 1 - (x - s))
  }

  function Leave(s: nat, t: Turned): (p: GridPoint)
    requires t.quadrant < 4 && t.x < s && t.y < s
    ensures p.x < 2 * s && p.y < 2 * s
  {
    if t.quadrant == 0 then GridPoint(t.y, t.x)
    else if t.quadrant == 1 then GridPoint(t.x, t.y + s)
    else if t.quadrant == 2 then GridPoint(t.x + s, t.y + s)
    else GridPoint(s + (s - 1 - t.y), s - 1 - t.x)
  }

  // q runs of the given length, for the four quadrants.
  function Skip(q: nat, run: nat): (d: nat)
    requires q < 4
  {
    if q == 0 then 0 else if q == 1 then run else if q == 2 then 2 * run else 3 * run
  }

  function QuadrantOf(d: nat, run: nat): (q: nat)
    requires d < 4 * run
    ensures q < 4 && Skip(q, run) <= d < Skip(q, run) + run
  {
    if d < run then 0 else if d < 2 * run then 1 else if d < 3 * run then 2 else 3
  }

  // Position of (x, y) along the order-k curve.
  function Index(k: nat, x: nat, y: nat): (d: nat)
    requires OnGrid(k, x, y)
    ensures d < Pow4(k)
  {
    if k == 0 then 0
    else
      var t := Enter(Pow2(k - 1), x, y);
      Skip(t.quadrant, Pow4(k - 1)) + Index(k - 1, t.x, t.y)
  }

  // The grid point at position d of the order-k curve.
  function Point(k: nat, d: nat): (p: GridPoint)
    requires d < Pow4(k)
    ensures OnGrid(k, p.x, p.y)
  {
    if k == 0 then GridPoint(0, 0)
    else
      var q := QuadrantOf(d, Pow4(k - 1));
      var p := Point(k - 1, d - Skip(q, Pow4(k - 1)));
      Leave(Pow2(k - 1), Turned(q, p.x, p.y))
  }

  // ---- the curve is a bijection --------------------------------------------------------

  lemma LeaveOfEnter(s: nat, x: nat, y: nat)
    requires x < 2 * s && y < 2 * s
    ensures Leave(s, Enter(s, x, y)) == GridPoint(x, y)
  {
  }

  lemma EnterOfLeave(s: nat, t: Turned)
    requires t.quadrant < 4 && t.x < s && t.y < s
    ensures var p := Leave(s, t); Enter(s, p.x, p.y) == t
  {
  }

  lemma {:induction false} PointOfIndex(k: nat, x: nat, y: nat)
    requires OnGrid(k, x, y)
    ensures Point(k, Index(k, x, y)) == GridPoint(x, y)
  {
    if k > 0 {
      var t := Enter(Pow2(k - 1), x, y);
      PointOfIndex(k - 1, t.x, t.y);
      LeaveOfEnter(Pow2(k - 1), x, y);
      var d := Index(k, x, y);
      assert QuadrantOf(d, Pow4(k - 1)) == t.quadrant;
    }
  }

  // Position d is the r-th of a quadrant's run, where the smaller curve has point p.
  lemma PointInQuadrant(k: nat, q: nat, r: nat, d: nat, p: GridPoint)
    requires k > 0 && q < 4 && r < Pow4(k - 1) && d == Skip(q, Pow4(k - 1)) + r && Point(k - 1, r) == p
    ensures d < Pow4(k) && Point(k, d) == Leave(Pow2(k - 1), Turned(q, p.x, p.y))
  {
    assert QuadrantOf(d, Pow4(k - 1)) == q;
  }

  // Going into a quadrant and back.
  lemma IndexOfLeave(k: nat, t: Turned)
    requires k > 0 && t.quadrant < 4 && OnGrid(k - 1, t.x, t.y)
    ensures var p := Leave(Pow2(k - 1), t);
      OnGrid(k, p.x, p.y) && Index(k, p.x, p.y) == Skip(t.quadrant, Pow4(k - 1)) + Index(k - 1, t.x, t.y)
  {
    EnterOfLeave(Pow2(k - 1), t);
  }

  lemma {:induction false} IndexOfPoint(k: nat, d: nat)
    requires d < Pow4(k)
    ensures var p := Point(k, d); Index(k, p.x, p.y) == d
  {
    if k > 0 {
      var q := QuadrantOf(d, Pow4(k - 1));
      var r := d - Skip(q, Pow4(k - 1));
      var p := Point(k - 1, r);
      IndexOfPoint(k - 1, r);
      PointInQuadrant(k, q, r, d, p);
      IndexOfLeave(k, Turned(q, p.x, p.y));
    }
  }

  lemma IndexInjective(k: nat, x: nat, y: nat, x': nat, y': nat)
    requires OnGrid(k, x, y) && OnGrid(k, x', y')
    ensures Index(k, x, y) == Index(k, x', y') <==> x == x' && y == y'
  {
    PointOfIndex(k, x, y);
    PointOfIndex(k, x', y');
  }

  // ---- consecutive positions are neighbours ---------------------------------------------

  predicate EdgeAdjacent(p: GridPoint, q: GridPoint) {
    || (p.x == q.x && (p.y == q.y + 1 || q.y == p.y + 1))
    || (p.y == q.y && (p.x == q.x + 1 || q.x == p.x + 1))
  }

  // The curve enters a square at one lower corner and leaves it at the other.
  lemma {:induction false} Endpoints(k: nat)
    ensures Point(k, 0) == GridPoint(0, 0)
    ensures Point(k, Pow4(k) - 1) == GridPoint(Pow2(k) - 1, 0)
  {
    if k > 0 {
      Endpoints(k - 1);
      assert QuadrantOf(Pow4(k) - 1, Pow4(k - 1)) == 3;
    }
  }

  lemma QuadrantsMeet(s: nat, q: nat)
    requires s > 0 && q < 3
    ensures EdgeAdjacent(Leave(s, Turned(q, s - 1, 0)), Leave(s, Turned(q + 1, 0, 0)))
  {
  }

  lemma {:induction false} ConsecutiveAreAdjacent(k: nat, d: nat)
    requires d + 1 < Pow4(k)
    ensures EdgeAdjacent(Point(k, d), Point(k, d + 1))
  {
    var run := Pow4(k - 1);
    var q := QuadrantOf(d, run);
    var r := d - Skip(q, run);
    if r + 1 < run {
      ConsecutiveAreAdjacent(k - 1, r);
      SameQuadrant(k, q, r, d, Point(k - 1, r), Point(k - 1, r + 1));
    } else {
      NextQuadrant(k, q, d);
    }
  }

  // A step inside a quadrant, from a to b on the smaller curve.
  lemma SameQuadrant(k: nat, q: nat, r: nat, d: nat, a: GridPoint, b: GridPoint)
    requires k > 0 && q < 4 && r + 1 < Pow4(k - 1) && d == Skip(q, Pow4(k - 1)) + r && d + 1 < Pow4(k)
    requires Point(k - 1, r) == a && Point(k - 1, r + 1) == b && EdgeAdjacent(a, b)
    ensures EdgeAdjacent(Point(k, d), Point(k, d + 1))
  {
    var p, p' := Point(k, d), Point(k, d + 1);
    assert p == Leave(Pow2(k - 1), Turned(q, a.x, a.y)) by { PointInQuadrant(k, q, r, d, a); }
    assert p' == Leave(Pow2(k - 1), Turned(q, b.x, b.y)) by { PointInQuadrant(k, q, r + 1, d + 1, b); }
    LeaveTogether(Pow2(k - 1), q, a, b, p, p');
  }

  lemma LeaveTogether(s: nat, q: nat, a: GridPoint, b: GridPoint, p: GridPoint, p': GridPoint)
    requires q < 4 && a.x < s && a.y < s && b.x < s && b.y < s && EdgeAdjacent(a, b)
    requires p == Leave(s, Turned(q, a.x, a.y)) && p' == Leave(s, Turned(q, b.x, b.y))
    ensures EdgeAdjacent(p, p')
  {
  }

  lemma LastOfQuadrant(k: nat, q: nat, d: nat)
    requires k > 0 && q < 4 && d + 1 == Skip(q, Pow4(k - 1)) + Pow4(k - 1)
    ensures d < Pow4(k) && Point(k, d) == Leave(Pow2(k - 1), Turned(q, Pow2(k - 1) - 1, 0))
  {
    Endpoints(k - 1);
    PointInQuadrant(k, q, Pow4(k - 1) - 1, d, GridPoint(Pow2(k - 1) - 1, 0));
  }

  lemma FirstOfQuadrant(k: nat, q: nat)
    requires k > 0 && q < 4
    ensures var d := Skip(q, Pow4(k - 1));
      d < Pow4(k) && Point(k, d) == Leave(Pow2(k - 1), Turned(q, 0, 0))
  {
    Endpoints(k - 1);
    PointInQuadrant(k, q, 0, Skip(q, Pow4(k - 1)), GridPoint(0, 0));
  }

  lemma SkipOneMore(q: nat, run: nat)
    requires q < 3
    ensures Skip(q + 1, run) == Skip(q, run) + run
  {
  }

  // From the last position of a quadrant to the first of the next.
  lemma NextQuadrant(k: nat, q: nat, d: nat)
    requires k > 0 && q < 3 && d + 1 == Skip(q + 1, Pow4(k - 1)) && d + 1 < Pow4(k)
    ensures EdgeAdjacent(Point(k, d), Point(k, d + 1))
  {
    SkipOneMore(q, Pow4(k - 1));
    LastOfQuadrant(k, q, d);
    FirstOfQuadrant(k, q + 1);
    QuadrantsMeet(Pow2(k - 1), q);
  }

  // ---- one quadtree cell is one run of positions ----------------------------------------

  lemma EnterThenHalve(s: nat, x: nat, y: nat)
    requires s > 0 && x < 4 * s && y < 4 * s
    ensures var t := Enter(2 * s, x, y);
      Enter(s, x / 2, y / 2) == Turned(t.quadrant, t.x / 2, t.y / 2)
  {
  }

  lemma SkipQuarter(q: nat, run: nat, r: nat)
    requires q < 4
    ensures (Skip(q, 4 * run) + r) / 4 == Skip(q, run) + r / 4
  {
  }

  lemma IndexInQuadrant(k: nat, x: nat, y: nat, t: Turned)
    requires k > 0 && OnGrid(k, x, y) && t == Enter(Pow2(k - 1), x, y)
    ensures OnGrid(k - 1, t.x, t.y) && Index(k, x, y) == Skip(t.quadrant, Pow4(k - 1)) + Index(k - 1, t.x, t.y)
  {
  }

  lemma HalvingOnce(x: nat, y: nat)
    requires OnGrid(1, x, y)
    ensures OnGrid(0, x / 2, y / 2) && Index(1, x, y) / 4 == Index(0, x / 2, y / 2)
  {
    assert Pow4(1) == 4 * Pow4(0) && Pow2(1) == 2 * Pow2(0);
    assert Index(1, x, y) < 4;
  }

  // What holds inside the quadrant holds of the whole.
  lemma HalvingAbove(k: nat, x: nat, y: nat, t: Turned)
    requires k > 1 && OnGrid(k, x, y) && t == Enter(Pow2(k - 1), x, y)
    requires OnGrid(k - 1, t.x, t.y) && OnGrid(k - 2, t.x / 2, t.y / 2)
    requires Index(k - 1, t.x, t.y) / 4 == Index(k - 2, t.x / 2, t.y / 2)
    ensures OnGrid(k - 1, x / 2, y / 2) && Index(k, x, y) / 4 == Index(k - 1, x / 2, y / 2)
  {
    HalvedInQuadrant(k, x, y);
    IndexInQuadrant(k, x, y, t);
    SkipQuarter(t.quadrant, Pow4(k - 2), Index(k - 1, t.x, t.y));
  }

  lemma {:induction false} HalvingDropsOneDigit(k: nat, x: nat, y: nat)
    requires k > 0 && OnGrid(k, x, y)
    ensures OnGrid(k - 1, x / 2, y / 2)
    ensures Index(k, x, y) / 4 == Index(k - 1, x / 2, y / 2)
  {
    if k == 1 {
      HalvingOnce(x, y);
    } else {
      var t := Enter(Pow2(k - 1), x, y);
      HalvingDropsOneDigit(k - 1, t.x, t.y);
      HalvingAbove(k, x, y, t);
    }
  }

  lemma HalvedInQuadrant(k: nat, x: nat, y: nat)
    requires k > 1 && OnGrid(k, x, y)
    ensures var t := Enter(Pow2(k - 1), x, y);
      && OnGrid(k - 1, x / 2, y / 2) && OnGrid(k - 2, t.x / 2, t.y / 2)
      && Index(k - 1, x / 2, y / 2) == Skip(t.quadrant, Pow4(k - 2)) + Index(k - 2, t.x / 2, t.y / 2)
  {
    var t := Enter(Pow2(k - 1), x, y);
    EnterThenHalve(Pow2(k - 2), x, y);
    IndexInQuadrant(k - 1, x / 2, y / 2, Turned(t.quadrant, t.x / 2, t.y / 2));
  }

  // Dropping m digits of a position gives the position of the cell m levels up.
  lemma {:induction false} HalvingDropsDigits(j: nat, m: nat, x: nat, y: nat)
    requires OnGrid(j + m, x, y)
    ensures OnGrid(j, ShiftRight(x, m), ShiftRight(y, m))
    ensures ShiftRight(Index(j + m, x, y), 2 * m) == Index(j, ShiftRight(x, m), ShiftRight(y, m))
    decreases m
  {
    if m > 0 {
      HalvingDropsOneDigit(j + m, x, y);
      HalvingDropsDigits(j, m - 1, x / 2, y / 2);
      TwoShifts(Index(j + m, x, y), m);
    }
  }

  lemma TwoShifts(d: nat, m: nat)
    requires m > 0
    ensures ShiftRight(d, 2 * m) == ShiftRight(d / 4, 2 * (m - 1))
  {
    assert ShiftRight(d, 2 * m) == ShiftRight(d / 2, 2 * m - 1);
    assert d / 2 / 2 == d / 4;
  }

  // Position d lies in the c-th run of some length.
  predicate InRun(c: int, run: int, d: int) { c * run <= d < c * run + run }

  lemma InRunIsQuotient(c: int, run: int, d: int)
    requires run > 0
    ensures InRun(c, run, d) <==> d / run == c
  {
    assert d == run * (d / run) + d % run && (d / run) * run == run * (d / run);
    if InRun(c, run, d) { QuotientUnique(d, run, c); }
  }

  lemma SameCellSameRun(j: nat, cx: nat, cy: nat, a: nat, b: nat, run: nat, d: nat)
    requires OnGrid(j, cx, cy) && OnGrid(j, a, b) && run > 0 && d / run == Index(j, a, b)
    ensures (a == cx && b == cy) <==> InRun(Index(j, cx, cy), run, d)
  {
    IndexInjective(j, cx, cy, a, b);
    InRunIsQuotient(Index(j, cx, cy), run, d);
  }

  // The order-(j+m) positions of the points of the depth-j cell (cx, cy) are exactly the
  // 4^m positions starting at 4^m times the cell's own order-j position.
  lemma CellIsOneRun(j: nat, m: nat, cx: nat, cy: nat, x: nat, y: nat)
    requires OnGrid(j, cx, cy) && OnGrid(j + m, x, y)
    ensures (x / Pow2(m) == cx && y / Pow2(m) == cy) <==> InRun(Index(j, cx, cy), Pow4(m), Index(j + m, x, y))
  {
    var d := Index(j + m, x, y);
    HalvingDropsDigits(j, m, x, y);
    ShiftIsQuotient(x, m);
    ShiftIsQuotient(y, m);
    ShiftIsQuotient(d, 2 * m);
    assert Pow2(2 * m) == Pow4(m) by { Pow2Sum(m, m); SquareIsPow4(m); }
    SameCellSameRun(j, cx, cy, ShiftRight(x, m), ShiftRight(y, m), Pow4(m), d);
  }

  // ---- the loops of the program ---------------------------------------------------------

  // `x & s` for a power of two s: the bit of weight s.
  predicate BitSet(x: nat, s: nat)
    requires s > 0
  {
    (x / s) % 2 == 1
  }

  // `(3 * rx) ^ ry` on two-bit values.
  function QuadrantDigit(rx: nat, ry: nat): (q: nat)
    requires rx <= 1 && ry <= 1
    ensures rx == 0 ==> q == ry
    ensures rx == 1 ==> q == 3 - ry
  {
    var b: bv2 := (if rx == 1 then 3 else 0) ^ (if ry == 1 then 1 else 0);
    if b == 0 then 0 else if b == 1 then 1 else if b == 2 then 2 else 3
  }

  // What one pass of the loop does to a point: a turn of the whole grid, not of a quadrant.
  function PassTurn(n: nat, s: nat, x: nat, y: nat): (p: GridPoint)
    requires s > 0 && x < n && y < n
    ensures p.x < n && p.y < n
  {
    if BitSet(y, s) then GridPoint(x, y)
    else if BitSet(x, s) then GridPoint(n - 1 - y, n - 1 - x)
    else GridPoint(y, x)
  }

  // The position, on the curve of the j lowest bits, of a point of the whole grid.
  function LowIndex(j: nat, x: nat, y: nat): (d: nat) {
    Index(j, x % Pow2(j), y % Pow2(j))
  }

  lemma TurnOfLowBits(s: nat, right: bool, upper: bool, lx: nat, ly: nat)
    requires lx < s && ly < s
    ensures Enter(s, if right then s + lx else lx, if upper then s + ly else ly)
      == Turned(QuadrantDigit(if right then 1 else 0, if upper then 1 else 0),
                if upper then lx else if right then s - 1 - ly else ly,
                if upper then ly else if right then s - 1 - lx else lx)
  {
  }

  // The bits below s after a turn of the whole grid.
  lemma LowBitsOfPass(order: nat, j: nat, x: nat, y: nat)
    requires j < order && OnGrid(order, x, y)
    ensures var s, p := Pow2(j), PassTurn(Pow2(order), Pow2(j), x, y);
      && p.x % s == (if BitSet(y, s) then x % s else if BitSet(x, s) then s - 1 - y % s else y % s)
      && p.y % s == (if BitSet(y, s) then y % s else if BitSet(x, s) then s - 1 - x % s else x % s)
  {
    LowBitsReflect(order, j, x);
    LowBitsReflect(order, j, y);
  }

  lemma LowBitsReflect(order: nat, j: nat, x: nat)
    requires j < order && x < Pow2(order)
    ensures (Pow2(order) - 1 - x) % Pow2(j) == Pow2(j) - 1 - x % Pow2(j)
  {
    Pow2Sum(order - j, j);
    ReflectMod(Pow2(order), Pow2(j), Pow2(order - j), x);
  }

  // A turn of the whole grid and a turn inside the quadrant agree on the bits below s.
  lemma PassIsEnter(order: nat, j: nat, x: nat, y: nat)
    requires j < order && OnGrid(order, x, y)
    ensures var s, p := Pow2(j), PassTurn(Pow2(order), Pow2(j), x, y);
      Enter(s, x % (2 * s), y % (2 * s))
      == Turned(QuadrantDigit(if BitSet(x, s) then 1 else 0, if BitSet(y, s) then 1 else 0), p.x % s, p.y % s)
  {
    var s := Pow2(j);
    LowBitsOfPass(order, j, x, y);
    ModDouble(x, s);
    ModDouble(y, s);
    TurnOfLowBits(s, BitSet(x, s), BitSet(y, s), x % s, y % s);
  }

  lemma SkipIsProduct(q: nat, s: nat, run: nat)
    requires q < 4 && s * s == run
    ensures s * s * q == Skip(q, run)
  {
    if q == 0 { } else if q == 1 { } else if q == 2 { } else { }
  }

  lemma LoopStep(order: nat, j: nat, x: nat, y: nat)
    requires j < order && OnGrid(order, x, y)
    ensures var s, p := Pow2(j), PassTurn(Pow2(order), Pow2(j), x, y);
      var gain := s * s * QuadrantDigit(if BitSet(x, s) then 1 else 0, if BitSet(y, s) then 1 else 0);
      gain >= 0 && LowIndex(j + 1, x, y) == gain + LowIndex(j, p.x, p.y)
  {
    PassIsEnter(order, j, x, y);
    SquareIsPow4(j);
    SkipIsProduct(Enter(Pow2(j), x % Pow2(j + 1), y % Pow2(j + 1)).quadrant, Pow2(j), Pow4(j));
  }

  // The weight of the bit the loop looks at while j bits are left.
  function TopBit(j: nat): (s: nat)
    ensures s == 0 <==> j == 0
  {
    if j == 0 then 0 else Pow2(j - 1)
  }

  lemma NextBit(j: nat)
    ensures TopBit(j + 1) == Pow2(j) && Pow2(j) / 2 == TopBit(j)
  {
  }

  lemma WholeGrid(order: nat, x: nat, y: nat)
    requires OnGrid(order, x, y)
    ensures LowIndex(order, x, y) == Index(order, x, y)
  {
    BelowModulus(x, Pow2(order));
    BelowModulus(y, Pow2(order));
  }

  lemma BelowModulus(x: nat, m: nat)
    requires x < m
    ensures x % m == x
  {
  }

  // A point whose j lowest bits are still to be counted.
  ghost predicate Owes(order: nat, j: nat, d: int, x: nat, y: nat, x0: nat, y0: nat) {
    && j <= order && OnGrid(order, x, y) && OnGrid(order, x0, y0)
    && d + LowIndex(j, x, y) == Index(order, x0, y0)
  }

  lemma PassPays(order: nat, j: nat, d: int, x: nat, y: nat, x0: nat, y0: nat)
    requires j < order && Owes(order, j + 1, d, x, y, x0, y0)
    ensures var s, p := Pow2(j), PassTurn(Pow2(order), Pow2(j), x, y);
      Owes(order, j, d + s * s * QuadrantDigit(if BitSet(x, s) then 1 else 0, if BitSet(y, s) then 1 else 0), p.x, p.y, x0, y0)
  {
    LoopStep(order, j, x, y);
  }

  lemma AllPaid(order: nat, d: int, x: nat, y: nat, x0: nat, y0: nat)
    requires Owes(order, 0, d, x, y, x0, y0)
    ensures d == Index(order, x0, y0)
  {
  }

  method HilbertXy2d(order: nat, x0: nat, y0: nat) returns (d: int)
    requires OnGrid(order, x0, y0)
    ensures d == Index(order, x0, y0)
  {
    var n := Pow2(order);
    var x, y := x0, y0;
    d := 0;
    var s := n / 2;
    ghost var j := order;
    WholeGrid(order, x0, y0);
    NextBit(order);
    while s > 0
      invariant 0 <= j <= order && s == TopBit(j)
      invariant Owes(order, j, d, x, y, x0, y0)
      decreases s
    {
      PassPays(order, j - 1, d, x, y, x0, y0);
      NextBit(j - 1);
      var rx := if BitSet(x, s) then 1 else 0;
      var ry := if BitSet(y, s) then 1 else 0;
      d := d + s * s * QuadrantDigit(rx, ry);
      x, y := TurnPoint(n, s, x, y, rx, ry);
      s := s / 2;
      j := j - 1;
    }
    AllPaid(order, d, x, y, x0, y0);
  }

  // The branches of one pass (_rot).
  method TurnPoint(n: nat, s: nat, x0: nat, y0: nat, rx: nat, ry: nat) returns (x: nat, y: nat)
    requires s > 0 && x0 < n && y0 < n
    requires rx == (if BitSet(x0, s) then 1 else 0) && ry == (if BitSet(y0, s) then 1 else 0)
    ensures GridPoint(x, y) == PassTurn(n, s, x0, y0)
  {
    x, y := x0, y0;
    if ry == 0 {
      if rx == 1 {
        x := n - 1 - x;
        y := n - 1 - y;
      }
      x, y := y, x;
    }
  }

  // The array forms work on whole columns, with masks instead of branches.
  function BitColumn(col: seq<nat>, s: nat): (r: seq<nat>)
    requires s > 0
    ensures |r| == |col| && forall i :: 0 <= i < |r| ==> r[i] == (if BitSet(col[i], s) then 1 else 0)
  {
    seq(|col|, i requires 0 <= i < |col| => if BitSet(col[i], s) then 1 else 0)
  }

  function Reflected(n: nat, col: seq<nat>): (r: seq<nat>)
    requires forall i :: 0 <= i < |col| ==> col[i] < n
    ensures |r| == |col| && forall i :: 0 <= i < |r| ==> r[i] == n - 1 - col[i]
  {
    seq(|col|, i requires 0 <= i < |col| => n - 1 - col[i])
  }

  function Where(mask: seq<bool>, a: seq<nat>, b: seq<nat>): (r: seq<nat>)
    requires |mask| == |a| == |b|
    ensures |r| == |mask| && forall i :: 0 <= i < |r| ==> r[i] == (if mask[i] then a[i] else b[i])
  {
    seq(|mask|, i requires 0 <= i < |mask| => if mask[i] then a[i] else b[i])
  }

  function Gains(s: nat, rx: seq<nat>, ry: seq<nat>): (r: seq<int>)
    requires |rx| == |ry| && forall i :: 0 <= i < |rx| ==> rx[i] <= 1 && ry[i] <= 1
    ensures |r| == |rx| && forall i :: 0 <= i < |r| ==> r[i] == s * s * QuadrantDigit(rx[i], ry[i])
  {
    seq(|rx|, i requires 0 <= i < |rx| => s * s * QuadrantDigit(rx[i], ry[i]))
  }

  // One masked pass over the columns is one pass of the scalar loop on every row.
  method TurnColumns(n: nat, s: nat, x: seq<nat>, y: seq<nat>, rx: seq<nat>, ry: seq<nat>)
    returns (x': seq<nat>, y': seq<nat>)
    requires s > 0 && |x| == |y| && rx == BitColumn(x, s) && ry == BitColumn(y, s)
    requires forall i :: 0 <= i < |x| ==> x[i] < n && y[i] < n
    ensures |x'| == |y'| == |x|
    ensures forall i :: 0 <= i < |x| ==> GridPoint(x'[i], y'[i]) == PassTurn(n, s, x[i], y[i])
  {
    var rows := |x|;
    var swap := seq(rows, i requires 0 <= i < rows => ry[i] == 0);
    var flip := seq(rows, i requires 0 <= i < rows => swap[i] && rx[i] == 1);
    var fx, fy := Where(flip, Reflected(n, x), x), Where(flip, Reflected(n, y), y);
    x', y' := Where(swap, fy, fx), Where(swap, fx, fy);
  }

  function Plus(a: seq<int>, b: seq<int>): (r: seq<int>)
    requires |a| == |b|
    ensures |r| == |a| && forall i :: 0 <= i < |r| ==> r[i] == a[i] + b[i]
  {
    seq(|a|, i requires 0 <= i < |a| => a[i] + b[i])
  }

  // Every row of the columns, after the passes down to bit j, still owes LowIndex(j).
  ghost predicate Owed(order: nat, j: nat, d: seq<int>, x: seq<nat>, y: seq<nat>, xs: seq<nat>, ys: seq<nat>)
  {
    && |xs| == |ys| == |x| == |y| == |d|
    && (forall i :: 0 <= i < |x| ==> Owes(order, j, d[i], x[i], y[i], xs[i], ys[i]))
  }

  lemma InitiallyOwed(order: nat, d: seq<int>, xs: seq<nat>, ys: seq<nat>)
    requires |xs| == |ys| == |d| && forall i :: 0 <= i < |xs| ==> OnGrid(order, xs[i], ys[i]) && d[i] == 0
    ensures Owed(order, order, d, xs, ys, xs, ys)
  {
    forall i | 0 <= i < |xs| ensures Owes(order, order, d[i], xs[i], ys[i], xs[i], ys[i]) {
      WholeGrid(order, xs[i], ys[i]);
    }
  }

  lemma FinallyPaid(order: nat, d: seq<int>, x: seq<nat>, y: seq<nat>, xs: seq<nat>, ys: seq<nat>)
    requires Owed(order, 0, d, x, y, xs, ys)
    ensures forall i :: 0 <= i < |xs| ==> OnGrid(order, xs[i], ys[i]) && d[i] == Index(order, xs[i], ys[i])
  {
    forall i | 0 <= i < |xs| ensures OnGrid(order, xs[i], ys[i]) && d[i] == Index(order, xs[i], ys[i]) {
      assert Owes(order, 0, d[i], x[i], y[i], xs[i], ys[i]);
      AllPaid(order, d[i], x[i], y[i], xs[i], ys[i]);
    }
  }

  // One pass over the columns.
  method ColumnPass(order: nat, s: nat, ghost j: nat, d: seq<int>, x: seq<nat>, y: seq<nat>, ghost xs: seq<nat>, ghost ys: seq<nat>)
    returns (d': seq<int>, x': seq<nat>, y': seq<nat>)
    requires j < order && s == Pow2(j) && Owed(order, j + 1, d, x, y, xs, ys)
    ensures Owed(order, j, d', x', y', xs, ys)
  {
    assert forall i :: 0 <= i < |x| ==> Owes(order, j + 1, d[i], x[i], y[i], xs[i], ys[i]);
    var rx, ry := BitColumn(x, s), BitColumn(y, s);
    d' := Plus(d, Gains(s, rx, ry));
    x', y' := TurnColumns(Pow2(order), s, x, y, rx, ry);
    forall i | 0 <= i < |x| ensures Owes(order, j, d'[i], x'[i], y'[i], xs[i], ys[i]) {
      PassPays(order, j, d[i], x[i], y[i], xs[i], ys[i]);
      assert GridPoint(x'[i], y'[i]) == PassTurn(Pow2(order), s, x[i], y[i]);
    }
  }

  method HilbertKeys(order: nat, xs: seq<nat>, ys: seq<nat>) returns (d: seq<int>)
    requires |xs| == |ys|
    requires forall i :: 0 <= i < |xs| ==> OnGrid(order, xs[i], ys[i])
    ensures |d| == |xs|
    ensures forall i :: 0 <= i < |xs| ==> d[i] == Index(order, xs[i], ys[i])
  {
    var x, y := xs, ys;
    d := seq(|xs|, i => 0);
    var s := Pow2(order) / 2;
    ghost var j := order;
    NextBit(order);
    InitiallyOwed(order, d, xs, ys);
    while s > 0
      invariant 0 <= j <= order && s == TopBit(j)
      invariant Owed(order, j, d, x, y, xs, ys)
      decreases s
    {
      NextBit(j - 1);
      d, x, y := ColumnPass(order, s, j - 1, d, x, y, xs, ys);
      s := s / 2;
      j := j - 1;
    }
    FinallyPaid(order, d, x, y, xs, ys);
  }
}
