/** The raw builder's placement (rust/osmpq-raw/src/cells.rs, containing_cell): descend while
    exactly one child contains the whole box, then snap to an allowed depth. Its containment is
    closed, the corner rule of Placement half-open. */
module Descent {
  import opened Powers
  import opened Keys
  import opened Placement

  // Closed containment of a box in a cell, both measured on the grid of the cell's own depth.
  predicate ClosedSpan(lo: int, hi: int, half: nat, depth: nat, c: nat) {
    c * (2 * half) <= Scaled(lo, half, depth) && Scaled(hi, half, depth) <= (c + 1) * (2 * half)
  }

  predicate CellContains(key: Key, box: BBox) {
    && ClosedSpan(box.xmin, box.xmax, LON_HALF, |key|, KeyX(key))
    && ClosedSpan(box.ymin, box.ymax, LAT_HALF, |key|, KeyY(key))
  }

  function Snap(depths: seq<nat>, key: Key): (cell: Key)
    requires depths != []
  {
    var target := LastAtMost(SortedSet(depths), |key|);
    if target <= |key| then key[..target] else ROOT
  }

  // Descend while exactly one child contains the whole box and the cell is not a leaf.
  method Descend(r: Rule, box: BBox) returns (cell: Key)
    requires r.depths != []
    ensures cell == DescendFrom(r, box, ROOT)
  {
    var key := ROOT;
    while true
      invariant DescendFrom(r, box, key) == DescendFrom(r, box, ROOT)
      invariant |key| <= r.maxDepth
      decreases r.maxDepth - |key|
    {
      if key in r.leaves { return key; }
      if |key| >= r.maxDepth { return Snap(r.depths, key); }
      var contained, digit: Digit := 0, 0;
      for d := 0 to 4
        invariant contained == |Containing(key, box, d)|
        invariant contained > 0 ==> digit == Containing(key, box, d)[contained - 1]
      {
        if CellContains(key + [d], box) {
          contained, digit := contained + 1, d;
        }
      }
      if contained != 1 { return Snap(r.depths, key); }
      assert Containing(key, box, 4) == [digit];
      key := key + [digit];
    }
  }

  // The children, among the first n, that contain the box.
  function Containing(key: Key, box: BBox, n: nat): (digits: Key)
    requires n <= 4
    ensures forall d: Digit :: d in digits <==> d < n && CellContains(key + [d], box)
    ensures |digits| <= n
  {
    if n == 0 then []
    else Containing(key, box, n - 1) + (if CellContains(key + [n - 1], box) then [n - 1] else [])
  }

  // The descent, given which children of a cell contain the box.
  function DescendBy(leaves: seq<Key>, depths: seq<nat>, maxDepth: nat, contained: Key -> Key, key: Key): (cell: Key)
    requires depths != []
    decreases maxDepth - |key|
  {
    if key in leaves then key
    else if |key| >= maxDepth then Snap(depths, key)
    else if |contained(key)| != 1 then Snap(depths, key)
    else DescendBy(leaves, depths, maxDepth, contained, key + contained(key))
  }

  function DescendFrom(r: Rule, box: BBox, key: Key): (cell: Key)
    requires r.depths != []
  {
    DescendBy(r.leaves, r.depths, r.maxDepth, k => Containing(k, box, 4), key)
  }

  lemma DescentStep(r: Rule, box: BBox, key: Key)
    requires r.depths != []
    ensures DescendFrom(r, box, key)
      == if key in r.leaves then key
         else if |key| >= r.maxDepth || |Containing(key, box, 4)| != 1 then Snap(r.depths, key)
         else DescendFrom(r, box, key + Containing(key, box, 4))
  {
  }

  // ---- boxes off the cell boundaries ------------------------------------------------------------

  // Strictly inside the world and on no boundary of a cell of that depth.
  predicate OffBoundaries(v: int, half: nat, depth: nat)
    requires half > 0
  {
    0 < v + half < 2 * half && Scaled(v, half, depth) % (2 * half) != 0
  }

  predicate BoxOffBoundaries(box: BBox, depth: nat) {
    && box.xmin <= box.xmax && box.ymin <= box.ymax
    && OffBoundaries(box.xmin, LON_HALF, depth) && OffBoundaries(box.xmax, LON_HALF, depth)
    && OffBoundaries(box.ymin, LAT_HALF, depth) && OffBoundaries(box.ymax, LAT_HALF, depth)
  }

  lemma HalfScaled(s: int, m: int)
    requires m > 0
    ensures ((2 * s) / m) / 2 == s / m
  {
    var p, r := s / m, s % m;
    assert s == m * p + r;
    assert (2 * p) * m == 2 * (m * p) && (2 * p + 1) * m == 2 * (m * p) + m;
    QuotientUnique(2 * s, m, if 2 * r < m then 2 * p else 2 * p + 1);
  }

  // A point's coarser grid position is its finer one with the low bits dropped.
  lemma {:induction false} GridCoarse(v: int, half: nat, d: nat, m: nat)
    requires half > 0
    ensures GridCoord(v, half, d) == ShiftRight(GridCoord(v, half, d + m), m)
    decreases m
  {
    if m > 0 {
      var s := Scaled(v, half, d + m - 1);
      assert Scaled(v, half, d + m) == 2 * s by {
        assert (v + half) * (2 * Pow2(d + m - 1)) == 2 * ((v + half) * Pow2(d + m - 1));
      }
      HalfScaled(s, 2 * half);
      GridCoarse(v, half, d, m - 1);
    }
  }

  lemma OffShallower(v: int, half: nat, depth: nat, d: nat)
    requires half > 0 && d <= depth && OffBoundaries(v, half, depth)
    ensures OffBoundaries(v, half, d)
    decreases depth - d
  {
    if d < depth {
      var s := Scaled(v, half, depth - 1);
      assert Scaled(v, half, depth) == 2 * s by {
        assert (v + half) * (2 * Pow2(depth - 1)) == 2 * ((v + half) * Pow2(depth - 1));
      }
      if s % (2 * half) == 0 {
        var c := s / (2 * half);
        assert s == c * (2 * half) && 2 * s == (2 * c) * (2 * half);
        QuotientUnique(2 * s, 2 * half, 2 * c);
      }
      OffShallower(v, half, depth - 1, d);
    }
  }

  lemma FloorInside(s: int, m: nat, n: nat)
    requires 0 < s < n * m && s % m != 0
    ensures 0 <= s / m < n && (s / m) * m < s < (s / m + 1) * m
  {
    var q := s / m;
    assert s == m * q + s % m;
    if q < 0 { MulMonotone(q, -1, m); }
    if q >= n { MulMonotone(n, q, m); }
  }

  lemma ScaledInside(v: int, half: nat, d: nat)
    requires 0 < v + half < 2 * half
    ensures 0 < Scaled(v, half, d) < Pow2(d) * (2 * half)
  {
    var n := Pow2(d);
    MulMonotone(1, v + half, n);
    MulMonotone(v + half, 2 * half - 1, n);
    assert (2 * half - 1) * n == n * (2 * half) - n;
  }

  lemma GridCoordInside(v: int, half: nat, d: nat)
    requires half > 0 && OffBoundaries(v, half, d)
    ensures var g := GridCoord(v, half, d);
      g * (2 * half) < Scaled(v, half, d) < (g + 1) * (2 * half)
  {
    ScaledInside(v, half, d);
    FloorInside(Scaled(v, half, d), 2 * half, Pow2(d));
  }

  lemma SpanIsSameColumn(lo: int, hi: int, half: nat, d: nat, c: nat)
    requires half > 0 && lo <= hi && OffBoundaries(lo, half, d) && OffBoundaries(hi, half, d)
    ensures ClosedSpan(lo, hi, half, d, c) <==> GridCoord(lo, half, d) == c && GridCoord(hi, half, d) == c
  {
    GridCoordInside(lo, half, d);
    GridCoordInside(hi, half, d);
    MulMonotone(lo + half, hi + half, Pow2(d));
    var a, b, m := GridCoord(lo, half, d), GridCoord(hi, half, d), 2 * half;
    if ClosedSpan(lo, hi, half, d, c) {
      if c >= a + 1 { MulMonotone(a + 1, c, m); }
      if b >= c + 1 { MulMonotone(c + 1, b, m); }
      if a >= c + 1 { MulMonotone(c + 1, a, m); }
      if c >= b + 1 { MulMonotone(b + 1, c, m); }
    }
  }

  // A cell contains the box exactly when it holds both corners.
  lemma ContainsIsPrefix(res: nat, depth: nat, key: Key, box: BBox)
    requires |key| <= depth <= res && BoxOffBoundaries(box, depth)
    ensures CellContains(key, box)
      <==> key <= KeyOf(res, SouthWest(box)) && key <= KeyOf(res, NorthEast(box))
  {
    var d := |key|;
    OffShallower(box.xmin, LON_HALF, depth, d);
    OffShallower(box.xmax, LON_HALF, depth, d);
    OffShallower(box.ymin, LAT_HALF, depth, d);
    OffShallower(box.ymax, LAT_HALF, depth, d);
    SpanIsSameColumn(box.xmin, box.xmax, LON_HALF, d, KeyX(key));
    SpanIsSameColumn(box.ymin, box.ymax, LAT_HALF, d, KeyY(key));
    PrefixByPosition(res, key, SouthWest(box));
    PrefixByPosition(res, key, NorthEast(box));
  }

  lemma PrefixByPosition(res: nat, key: Key, p: Pt)
    requires |key| <= res
    ensures key <= KeyOf(res, p)
      <==> GridCoord(p.lon, LON_HALF, |key|) == KeyX(key) && GridCoord(p.lat, LAT_HALF, |key|) == KeyY(key)
  {
    var d := |key|;
    GridCoarse(p.lon, LON_HALF, d, res - d);
    GridCoarse(p.lat, LAT_HALF, d, res - d);
    PrefixByShift(res, key, GridCoord(p.lon, LON_HALF, res), GridCoord(p.lat, LAT_HALF, res));
  }

  lemma PrefixByShift(res: nat, key: Key, x: nat, y: nat)
    requires |key| <= res && OnGrid(res, x, y)
    ensures key <= PointKey(res, x, y)
      <==> ShiftRight(x, res - |key|) == KeyX(key) && ShiftRight(y, res - |key|) == KeyY(key)
  {
    PrefixPosition(res, x, y, |key|);
    PointKeyOfPosition(key);
    assert key <= PointKey(res, x, y) <==> key == PointKey(res, x, y)[..|key|];
  }

  lemma {:induction false} OneChild(key: Key, box: BBox, some: bool, a: Digit, n: nat)
    requires n <= 4
    requires forall d: Digit :: CellContains(key + [d], box) <==> some && d == a
    ensures Containing(key, box, n) == if some && a < n then [a] else []
  {
    if n > 0 { OneChild(key, box, some, a, n - 1); }
  }

  // ---- any box: how far the descent goes ---------------------------------------------------------

  // If some column spans an interval, the column of its lower end does.
  lemma LowerColumnSpans(lo: int, hi: int, half: nat, d: nat, c: nat)
    requires half > 0 && lo <= hi && c < Pow2(d) && ClosedSpan(lo, hi, half, d, c)
    ensures ClosedSpan(lo, hi, half, d, GridCoord(lo, half, d))
    ensures GridCoord(lo, half, d) != c ==> GridCoord(lo, half, d) == c + 1 && lo == hi && Scaled(lo, half, d) == (c + 1) * (2 * half)
  {
    SpanHoldsPoint(lo, lo, hi, half, d, c);
    SpanHoldsPoint(lo, hi, hi, half, d, c);
    ColumnOrEdge(lo, half, d, c);
    if GridCoord(lo, half, d) != c {
      EdgeIsNextColumn(lo, half, d, c);
      SameScaled(lo, hi, half, d);
      assert (c + 2) * (2 * half) == (c + 1) * (2 * half) + 2 * half;
    }
  }

  lemma EdgeIsNextColumn(v: int, half: nat, d: nat, c: nat)
    requires half > 0 && c < Pow2(d) && Scaled(v, half, d) == (c + 1) * (2 * half) && GridCoord(v, half, d) != c
    ensures GridCoord(v, half, d) == c + 1
  {
    QuotientUnique(Scaled(v, half, d), 2 * half, c + 1);
  }

  lemma SameScaled(lo: int, hi: int, half: nat, d: nat)
    requires lo <= hi && Scaled(hi, half, d) <= Scaled(lo, half, d)
    ensures lo == hi
  {
    assert Scaled(hi, half, d) == Scaled(lo, half, d) + (hi - lo) * Pow2(d);
    if lo < hi { MulMonotone(1, hi - lo, Pow2(d)); }
  }

  // On the line that halves its depth-k column.
  predicate Halving(v: int, half: nat, k: nat)
    requires half > 0
  {
    Scaled(v, half, k + 1) == (2 * GridCoord(v, half, k) + 1) * (2 * half)
  }

  // Which of the two halves p and p + 1/2 of a column span an interval that starts in the column.
  lemma HalfSpans(lo: int, hi: int, half: nat, k: nat, c: nat)
    requires half > 0 && lo <= hi && c / 2 == GridCoord(lo, half, k) == GridCoord(lo, half, k + 1) / 2
    ensures ClosedSpan(lo, hi, half, k + 1, c)
      <==> ClosedSpan(lo, hi, half, k + 1, GridCoord(lo, half, k + 1))
           && (c == GridCoord(lo, half, k + 1) || (lo == hi && Halving(lo, half, k)))
  {
    var p, l, w := GridCoord(lo, half, k), GridCoord(lo, half, k + 1), 2 * half;
    if c != l {
      if ClosedSpan(lo, hi, half, k + 1, c) {
        LowerColumnSpans(lo, hi, half, k + 1, c);
      }
      if lo == hi && Halving(lo, half, k) {
        assert (2 * p + 2) * w == (2 * p + 1) * w + w && (2 * p + 1) * w == (2 * p) * w + w;
        QuotientUnique(Scaled(lo, half, k + 1), w, 2 * p + 1);
        assert l == 2 * p + 1 && c == 2 * p;
      }
    }
  }

  // A box without width on the line that halves its cell, or without height.
  predicate HalvedAcross(box: BBox, k: nat) { box.xmin == box.xmax && Halving(box.xmin, LON_HALF, k) }
  predicate HalvedAlong(box: BBox, k: nat) { box.ymin == box.ymax && Halving(box.ymin, LAT_HALF, k) }
  predicate OnHalvingLine(box: BBox, k: nat) { HalvedAcross(box, k) || HalvedAlong(box, k) }

  // The children of the south-west corner's depth-k cell that contain the box.
  lemma ChildContains(res: nat, box: BBox, k: nat, d: Digit)
    requires k < res && InBox(box, NorthEast(box))
    ensures var sw := KeyOf(res, SouthWest(box)); var (x, y) := (sw[k] % 2, sw[k] / 2);
      CellContains(sw[..k] + [d], box)
      <==> && CellContains(sw[..k + 1], box)
           && (d % 2 == x || HalvedAcross(box, k)) && (d / 2 == y || HalvedAlong(box, k))
  {
    var sw := KeyOf(res, SouthWest(box));
    PrefixByPosition(res, sw[..k], SouthWest(box));
    PrefixByPosition(res, sw[..k + 1], SouthWest(box));
    assert sw[..k + 1] == sw[..k] + [sw[k]];
    ChildPosition(sw[..k], sw[k]);
    ChildPosition(sw[..k], d);
    HalfSpans(box.xmin, box.xmax, LON_HALF, k, KeyX(sw[..k] + [d]));
    HalfSpans(box.ymin, box.ymax, LAT_HALF, k, KeyY(sw[..k] + [d]));
  }

  lemma ChildPosition(key: Key, d: Digit)
    ensures KeyX(key + [d]) == 2 * KeyX(key) + d % 2 && KeyY(key + [d]) == 2 * KeyY(key) + 1 - d / 2
    ensures Value(key + [d]) == 4 * Value(key) + d
  {
    assert (key + [d])[..|key|] == key;
  }

  // Exactly one child contains the box when the south-west corner's does and no line halves it.
  lemma OneChildExactly(res: nat, box: BBox, k: nat)
    requires k < res && InBox(box, NorthEast(box))
    ensures var sw := KeyOf(res, SouthWest(box)); var digits := Containing(sw[..k], box, 4);
      |digits| == 1 <==> CellContains(sw[..k + 1], box) && !OnHalvingLine(box, k)
    ensures var sw := KeyOf(res, SouthWest(box)); var digits := Containing(sw[..k], box, 4);
      |digits| == 1 ==> digits == [sw[k]]
  {
    var sw := KeyOf(res, SouthWest(box));
    var a, digits := sw[k], Containing(sw[..k], box, 4);
    forall d: Digit
      ensures d in digits
        <==> && CellContains(sw[..k + 1], box)
             && (d % 2 == a % 2 || HalvedAcross(box, k)) && (d / 2 == a / 2 || HalvedAlong(box, k))
    {
      ChildContains(res, box, k, d);
    }
    if CellContains(sw[..k + 1], box) && !OnHalvingLine(box, k) {
      OneChild(sw[..k], box, true, a, 4);
    } else {
      NoneOrSeveral(digits, a, CellContains(sw[..k + 1], box), HalvedAcross(box, k), HalvedAlong(box, k));
    }
  }

  lemma NoneOrSeveral(digits: Key, a: Digit, some: bool, across: bool, along: bool)
    requires forall d: Digit :: d in digits <==> some && (d % 2 == a % 2 || across) && (d / 2 == a / 2 || along)
    requires some ==> across || along
    ensures |digits| != 1
  {
    Flipped(a);
    assert FlipX(a) in digits <==> some && across;
    assert FlipY(a) in digits <==> some && along;
    assert a in digits <==> some;
    assert digits != [] ==> digits[0] in digits;
  }

  function FlipX(d: Digit): Digit { if d % 2 == 0 then d + 1 else d - 1 }
  function FlipY(d: Digit): Digit { if d < 2 then d + 2 else d - 2 }

  lemma Flipped(d: Digit)
    ensures FlipX(d) != d && FlipX(d) / 2 == d / 2 && FlipY(d) != d && FlipY(d) % 2 == d % 2
  {
  }

  // The depth at which the descent stops, from depth k on: at a leaf, at the maximum depth, where the
  // next cell of the south-west corner does not reach the north-east corner, or where the box lies
  // on the line that halves the cell.
  function StopDepth(r: Rule, box: BBox, k: nat): (s: nat)
    requires k <= r.maxDepth <= r.res
    ensures k <= s <= r.maxDepth
    decreases r.maxDepth - k
  {
    var sw := KeyOf(r.res, SouthWest(box));
    if sw[..k] in r.leaves || k == r.maxDepth || !CellContains(sw[..k + 1], box) || OnHalvingLine(box, k) then k
    else StopDepth(r, box, k + 1)
  }

  // The descent never leaves the cells of the south-west corner.
  lemma {:induction false} DescentStopsAt(r: Rule, box: BBox, k: nat)
    requires r.depths != [] && k <= r.maxDepth <= r.res && InBox(box, NorthEast(box))
    ensures var sw := KeyOf(r.res, SouthWest(box)); var stop := sw[..StopDepth(r, box, k)];
      DescendFrom(r, box, sw[..k]) == if stop in r.leaves then stop else Snap(r.depths, stop)
    decreases r.maxDepth - k
  {
    OneStepDown(r, box, k);
    if StopDepth(r, box, k) != k { DescentStopsAt(r, box, k + 1); }
  }

  lemma OneStepDown(r: Rule, box: BBox, k: nat)
    requires r.depths != [] && k <= r.maxDepth <= r.res && InBox(box, NorthEast(box))
    ensures var sw := KeyOf(r.res, SouthWest(box));
      DescendFrom(r, box, sw[..k])
      == if sw[..k] in r.leaves then sw[..k]
         else if k == r.maxDepth || !CellContains(sw[..k + 1], box) || OnHalvingLine(box, k) then Snap(r.depths, sw[..k])
         else DescendFrom(r, box, sw[..k + 1])
  {
    var sw := KeyOf(r.res, SouthWest(box));
    DescentStep(r, box, sw[..k]);
    if k < r.maxDepth {
      OneChildExactly(r.res, box, k);
      OneMoreDigit(sw, k);
    }
  }

  lemma OneMoreDigit(key: Key, k: nat)
    requires k < |key|
    ensures key[..k] + [key[k]] == key[..k + 1]
  {
  }

  // ---- agreement with the corner rule ------------------------------------------------------------

  function NearestLeaf(r: Rule, sw: Key): (leaf: Key)
    requires ValidRule(r) && |sw| == r.res
    ensures leaf in r.leaves
  {
    r.leaves[LeafAt(r.res, r.leaves, Value(sw))]
  }

  predicate BeforeEveryLeaf(r: Rule, sw: Key)
    requires ValidRule(r) && |sw| == r.res
  {
    Value(sw) < RangeLo(r.res, r.leaves[0])
  }

  lemma NearestOrNone(r: Rule, sw: Key)
    requires ValidRule(r) && |sw| == r.res
    ensures ReallyCovers(r.res, r.leaves, Value(sw)) <==> NearestLeaf(r, sw) <= sw || BeforeEveryLeaf(r, sw)
    ensures NearestLeaf(r, sw) <= sw <==> exists i :: 0 <= i < |r.leaves| && r.leaves[i] <= sw
  {
    CoverTestIsExact(r.res, r.leaves, sw);
    if i :| 0 <= i < |r.leaves| && r.leaves[i] <= sw { LookupFindsTheLeaf(r.res, r.leaves, sw, i); }
    if BeforeEveryLeaf(r, sw) { assert SearchRight(r.res, r.leaves, Value(sw)) == 0; }
  }

  // What decides where the two rules put a box whose south-west corner has this key: the depth the
  // descent stops at and the depth the corners share, cut at the nearest leaf, must lie above and
  // below the same allowed depths. If the nearest leaf holds the corner, both or neither must reach
  // it; if the corner comes before every leaf, the leaf's depth is taken unrounded.
  predicate PlacedAlike(r: Rule, box: BBox)
    requires ValidRule(r)
  {
    var sw, ne := KeyOf(r.res, SouthWest(box)), KeyOf(r.res, NorthEast(box));
    var near := NearestLeaf(r, sw);
    var s, n := StopDepth(r, box, 0), Min(CommonDepth(sw, ne, 0, r.maxDepth), |near|);
    && (forall e :: e in r.depths ==> (e <= s <==> e <= n))
    && if near <= sw then s == |near| <==> n == |near| else BeforeEveryLeaf(r, sw) && n == |near| ==> n in r.depths
  }

  lemma LastAtMostIs(depths: seq<nat>, t: nat, d: nat)
    requires 0 in depths
    ensures LastAtMost(SortedSet(depths), t) == d
       <==> d in depths && d <= t && forall e :: e in depths && e <= t ==> e <= d
  {
    assert 0 in SortedSet(depths);
  }

  lemma RoundAlike(depths: seq<nat>, s: nat, n: nat)
    requires 0 in depths
    ensures LastAtMost(SortedSet(depths), s) == LastAtMost(SortedSet(depths), n)
       <==> forall e :: e in depths ==> (e <= s <==> e <= n)
  {
    var a, b := LastAtMost(SortedSet(depths), s), LastAtMost(SortedSet(depths), n);
    LastAtMostIs(depths, s, a);
    LastAtMostIs(depths, n, b);
  }

  lemma OnlyItsOwnLeaf(r: Rule, sw: Key, d: nat)
    requires ValidRule(r) && |sw| == r.res && d <= |sw|
    ensures sw[..d] in r.leaves <==> NearestLeaf(r, sw) <= sw && d == |NearestLeaf(r, sw)|
  {
    NearestOrNone(r, sw);
    var near := NearestLeaf(r, sw);
    if near <= sw { assert sw[..|near|] == near; }
    if sw[..d] in r.leaves {
      assert sw[..d] <= sw;
      PrefixesComparable(sw[..d], near, sw);
    }
  }

  lemma {:induction false} StopsAtTheLeaf(r: Rule, box: BBox, k: nat, d: nat)
    requires k <= r.maxDepth <= r.res && k <= d <= r.res && KeyOf(r.res, SouthWest(box))[..d] in r.leaves
    ensures StopDepth(r, box, k) <= d
    decreases r.maxDepth - k
  {
    if StopDepth(r, box, k) != k { StopsAtTheLeaf(r, box, k + 1, d); }
  }

  lemma AllowedPrefix(r: Rule, sw: Key, s: nat)
    requires ValidRule(r) && s <= |sw|
    ensures LastAtMost(SortedSet(r.depths), s) <= s && Snap(r.depths, sw[..s]) == sw[..LastAtMost(SortedSet(r.depths), s)]
  {
    LastAtMostIs(r.depths, s, LastAtMost(SortedSet(r.depths), s));
  }

  // The length of the cell each rule gives; both are cells of the south-west corner.
  function DescentDepth(r: Rule, sw: Key, s: nat): nat
    requires ValidRule(r) && |sw| == r.res
  {
    if NearestLeaf(r, sw) <= sw && s == |NearestLeaf(r, sw)| then s else LastAtMost(SortedSet(r.depths), s)
  }

  function CornerDepth(r: Rule, sw: Key, n: nat): nat
    requires ValidRule(r) && |sw| == r.res
  {
    if n == |NearestLeaf(r, sw)| && (NearestLeaf(r, sw) <= sw || BeforeEveryLeaf(r, sw)) then n
    else LastAtMost(SortedSet(r.depths), n)
  }

  lemma DescentIsPrefix(r: Rule, box: BBox)
    requires ValidRule(r) && InBox(box, NorthEast(box))
    ensures var sw := KeyOf(r.res, SouthWest(box)); var s := StopDepth(r, box, 0);
      DescentDepth(r, sw, s) <= r.res && DescendFrom(r, box, ROOT) == sw[..DescentDepth(r, sw, s)]
  {
    var sw := KeyOf(r.res, SouthWest(box));
    var s := StopDepth(r, box, 0);
    assert sw[..0] == ROOT;
    DescentStopsAt(r, box, 0);
    OnlyItsOwnLeaf(r, sw, s);
    AllowedPrefix(r, sw, s);
  }

  lemma PlacementIsPrefix(r: Rule, sw: Key, ne: Key)
    requires ValidRule(r) && |sw| == |ne| == r.res
    ensures var n := Min(CommonDepth(sw, ne, 0, r.maxDepth), |NearestLeaf(r, sw)|);
      CornerDepth(r, sw, n) <= r.res && PlaceCorners(r, sw, ne) == sw[..CornerDepth(r, sw, n)]
  {
    var n := Min(CommonDepth(sw, ne, 0, r.maxDepth), |NearestLeaf(r, sw)|);
    NearestOrNone(r, sw);
    AllowedPrefix(r, sw, n);
  }

  lemma SamePrefix(key: Key, m: nat, n: nat)
    requires m <= |key| && n <= |key|
    ensures key[..m] == key[..n] <==> m == n
  {
    assert |key[..m]| == m && |key[..n]| == n;
  }

  lemma SameDepths(r: Rule, sw: Key, s: nat, n: nat)
    requires ValidRule(r) && |sw| == r.res
    requires var near := NearestLeaf(r, sw); n <= |near| && (near <= sw ==> s <= |near|)
    ensures var near := NearestLeaf(r, sw);
      DescentDepth(r, sw, s) == CornerDepth(r, sw, n)
      <==> && (forall e :: e in r.depths ==> (e <= s <==> e <= n))
           && if near <= sw then s == |near| <==> n == |near| else BeforeEveryLeaf(r, sw) && n == |near| ==> n in r.depths
  {
    RoundAlike(r.depths, s, n);
    LastAtMostIs(r.depths, s, LastAtMost(SortedSet(r.depths), s));
    LastAtMostIs(r.depths, n, LastAtMost(SortedSet(r.depths), n));
    LastAtMostIs(r.depths, s, n);
  }

  // Main result: for every box, on boundaries or not and wherever its corners lie, the descent and
  // the corner rule give the same cell exactly when their depths pass the same allowed ones.
  lemma PlacementsAgreeExactly(r: Rule, box: BBox)
    requires ValidRule(r) && InBox(box, NorthEast(box))
    ensures DescendFrom(r, box, ROOT) == Place(r, box) <==> PlacedAlike(r, box)
  {
    var sw, ne := KeyOf(r.res, SouthWest(box)), KeyOf(r.res, NorthEast(box));
    var near := NearestLeaf(r, sw);
    var s, n := StopDepth(r, box, 0), Min(CommonDepth(sw, ne, 0, r.maxDepth), |near|);
    DescentIsPrefix(r, box);
    PlacementIsPrefix(r, sw, ne);
    if near <= sw {
      OnlyItsOwnLeaf(r, sw, |near|);
      StopsAtTheLeaf(r, box, 0, |near|);
    }
    SameDepths(r, sw, s, n);
    SamePrefix(sw, DescentDepth(r, sw, s), CornerDepth(r, sw, n));
  }

  lemma CommonPrefixIsCommonDepth(sw: Key, ne: Key, cap: nat, d: nat)
    requires d <= cap <= |sw| && cap <= |ne| && sw[..d] == ne[..d]
    ensures d <= CommonDepth(sw, ne, 0, cap)
  {
    var common := CommonDepth(sw, ne, 0, cap);
    assert forall k :: 0 <= k < d ==> sw[k] == sw[..d][k] && ne[k] == ne[..d][k];
  }

  // With the south-west corner in a leaf, the corner rule gives the smallest cell that holds both
  // corners, of those it may give: the leaf and its ancestors at allowed depths.
  lemma PlacedCellIsSmallest(r: Rule, box: BBox, c: Key)
    requires ValidRule(r) && |c| <= r.maxDepth
    requires var sw := KeyOf(r.res, SouthWest(box)); var leaf := NearestLeaf(r, sw);
      leaf <= sw && c <= leaf && (c == leaf || |c| in r.depths)
    requires c <= KeyOf(r.res, SouthWest(box)) && c <= KeyOf(r.res, NorthEast(box))
    ensures c <= Place(r, box)
  {
    var sw, ne := KeyOf(r.res, SouthWest(box)), KeyOf(r.res, NorthEast(box));
    var n := Min(CommonDepth(sw, ne, 0, r.maxDepth), |NearestLeaf(r, sw)|);
    assert sw[..|c|] == c == ne[..|c|];
    CommonPrefixIsCommonDepth(sw, ne, r.maxDepth, |c|);
    PlacementIsPrefix(r, sw, ne);
    LastAtMostIs(r.depths, n, LastAtMost(SortedSet(r.depths), n));
    assert |c| <= CornerDepth(r, sw, n);
    assert sw[..CornerDepth(r, sw, n)][..|c|] == c;
  }

  lemma NotHalved(v: int, half: nat, k: nat, depth: nat)
    requires half > 0 && k < depth && OffBoundaries(v, half, depth)
    ensures !Halving(v, half, k)
  {
    OffShallower(v, half, depth, k + 1);
    GridCoordInside(v, half, k + 1);
    QuotientUnique((2 * GridCoord(v, half, k) + 1) * (2 * half), 2 * half, 2 * GridCoord(v, half, k) + 1);
  }

  // The descent stops where the corners part, or at the leaf above.
  lemma {:induction false} StopsWhereCornersPart(r: Rule, box: BBox, k: nat)
    requires ValidRule(r) && BoxOffBoundaries(box, r.maxDepth) && k <= r.maxDepth
    requires var sw, ne := KeyOf(r.res, SouthWest(box)), KeyOf(r.res, NorthEast(box)); k <= CommonDepth(sw, ne, 0, r.maxDepth)
    requires var sw := KeyOf(r.res, SouthWest(box)); var near := NearestLeaf(r, sw); near <= sw ==> k <= |near|
    ensures var sw, ne := KeyOf(r.res, SouthWest(box)), KeyOf(r.res, NorthEast(box)); var near := NearestLeaf(r, sw);
      var common := CommonDepth(sw, ne, 0, r.maxDepth);
      StopDepth(r, box, k) == if near <= sw then Min(common, |near|) else common
    decreases r.maxDepth - k
  {
    var sw, ne := KeyOf(r.res, SouthWest(box)), KeyOf(r.res, NorthEast(box));
    OnlyItsOwnLeaf(r, sw, k);
    if sw[..k] !in r.leaves && k < r.maxDepth {
      GoesOnWhileShared(r, box, sw, ne, k);
      if StopDepth(r, box, k) != k { StopsWhereCornersPart(r, box, k + 1); }
    }
  }

  lemma GoesOnWhileShared(r: Rule, box: BBox, sw: Key, ne: Key, k: nat)
    requires ValidRule(r) && BoxOffBoundaries(box, r.maxDepth) && k < r.maxDepth
    requires sw == KeyOf(r.res, SouthWest(box)) && ne == KeyOf(r.res, NorthEast(box)) && sw[..k] == ne[..k]
    ensures CellContains(sw[..k + 1], box) && !OnHalvingLine(box, k) <==> sw[k] == ne[k]
  {
    ContainsIsPrefix(r.res, r.maxDepth, sw[..k + 1], box);
    NotHalved(box.xmin, LON_HALF, k, r.maxDepth);
    NotHalved(box.ymin, LAT_HALF, k, r.maxDepth);
    assert sw[..k + 1] == ne[..k + 1] <==> sw[k] == ne[k] by {
      assert sw[..k + 1] == sw[..k] + [sw[k]] && ne[..k + 1] == ne[..k] + [ne[k]];
    }
  }

  // On every box off the cell boundaries whose south-west corner lies in a leaf, the descent and
  // the corner rule place the box in the same cell.
  lemma DescentIsPlacement(r: Rule, box: BBox)
    requires ValidRule(r) && BoxOffBoundaries(box, r.maxDepth)
    requires NearestLeaf(r, KeyOf(r.res, SouthWest(box))) <= KeyOf(r.res, SouthWest(box))
    ensures DescendFrom(r, box, ROOT) == Place(r, box)
  {
    StopsWhereCornersPart(r, box, 0);
    PlacementsAgreeExactly(r, box);
  }

  // With the corner in no leaf they agree exactly when the nearest leaf does not matter: no allowed
  // depth lies below it down to the depth the corners share, and where it gives the depth itself,
  // that depth is an allowed one.
  lemma GapPlacementExactly(r: Rule, box: BBox)
    requires ValidRule(r) && BoxOffBoundaries(box, r.maxDepth)
    requires !(NearestLeaf(r, KeyOf(r.res, SouthWest(box))) <= KeyOf(r.res, SouthWest(box)))
    ensures var sw, ne := KeyOf(r.res, SouthWest(box)), KeyOf(r.res, NorthEast(box));
      var near, common := |NearestLeaf(r, sw)|, CommonDepth(sw, ne, 0, r.maxDepth);
      DescendFrom(r, box, ROOT) == Place(r, box)
      <==> && (forall d :: d in r.depths ==> !(near < d <= common))
           && (BeforeEveryLeaf(r, sw) && near <= common ==> near in r.depths)
  {
    StopsWhereCornersPart(r, box, 0);
    PlacementsAgreeExactly(r, box);
  }

  // ---- any box: where the descent stops --------------------------------------------------------

  // The stopping cell: every cell passed on the way contains the box, none of them is a leaf.
  lemma {:induction false} DescentStops(r: Rule, box: BBox, key: Key) returns (stop: Key)
    requires r.depths != [] && |key| <= r.maxDepth
    ensures key <= stop && |stop| <= r.maxDepth
    ensures DescendFrom(r, box, key) == if stop in r.leaves then stop else Snap(r.depths, stop)
    ensures forall n :: |key| <= n < |stop| ==> stop[..n] !in r.leaves
    ensures forall n :: |key| < n <= |stop| ==> CellContains(stop[..n], box)
    decreases r.maxDepth - |key|
  {
    var digits := Containing(key, box, 4);
    if key in r.leaves || |key| >= r.maxDepth || |digits| != 1 {
      stop := key;
    } else {
      var child := key + digits;
      OnlyDigitContains(key, box, digits);
      stop := DescentStops(r, box, child);
      StopsAbove(r, box, key, child, stop);
    }
  }

  lemma OnlyDigitContains(key: Key, box: BBox, digits: Key)
    requires digits == Containing(key, box, 4) && |digits| == 1
    ensures CellContains(key + digits, box)
  {
    assert digits[0] in digits && digits == [digits[0]];
  }

  lemma StopsAbove(r: Rule, box: BBox, key: Key, child: Key, stop: Key)
    requires key !in r.leaves && |child| == |key| + 1 && key <= child <= stop && CellContains(child, box)
    requires forall n :: |child| <= n < |stop| ==> stop[..n] !in r.leaves
    requires forall n :: |child| < n <= |stop| ==> CellContains(stop[..n], box)
    ensures key <= stop
    ensures forall n :: |key| <= n < |stop| ==> stop[..n] !in r.leaves
    ensures forall n :: |key| < n <= |stop| ==> CellContains(stop[..n], box)
  {
    assert stop[..|child|] == child && stop[..|key|] == key;
  }

  // What the descent gives, for every box: a leaf or an allowed ancestor, never strictly below a
  // leaf, and containing the box with closed edges.
  lemma DescentCell(r: Rule, box: BBox) returns (cell: Key)
    requires ValidRule(r)
    ensures cell == DescendFrom(r, box, ROOT) && |cell| <= r.maxDepth
    ensures cell in r.leaves || |cell| in r.depths
    ensures cell == ROOT || CellContains(cell, box)
    ensures forall i :: 0 <= i < |r.leaves| && r.leaves[i] <= cell ==> r.leaves[i] == cell
  {
    cell := DescendFrom(r, box, ROOT);
    var stop := DescentStops(r, box, ROOT);
    assert stop[..|stop|] == stop;
    if stop !in r.leaves {
      var target := LastAtMost(SortedSet(r.depths), |stop|);
      assert 0 in SortedSet(r.depths);
      assert cell == stop[..target];
    }
    forall i | 0 <= i < |r.leaves| && r.leaves[i] <= cell ensures r.leaves[i] == cell {
      var n := |r.leaves[i]|;
      assert r.leaves[i] == cell[..n] == stop[..n];
    }
  }

  // On the north or the east edge of a cell.
  predicate OnUpperEdge(cell: Key, p: Pt) {
    || Scaled(p.lon, LON_HALF, |cell|) == (KeyX(cell) + 1) * (2 * LON_HALF)
    || Scaled(p.lat, LAT_HALF, |cell|) == (KeyY(cell) + 1) * (2 * LAT_HALF)
  }

  lemma ColumnOrEdge(v: int, half: nat, d: nat, c: nat)
    requires half > 0 && c < Pow2(d) && c * (2 * half) <= Scaled(v, half, d) <= (c + 1) * (2 * half)
    ensures GridCoord(v, half, d) == c || Scaled(v, half, d) == (c + 1) * (2 * half)
  {
    if Scaled(v, half, d) < (c + 1) * (2 * half) {
      assert (c + 1) * (2 * half) == c * (2 * half) + 2 * half;
      QuotientUnique(Scaled(v, half, d), 2 * half, c);
    }
  }

  lemma SpanHoldsPoint(lo: int, v: int, hi: int, half: nat, d: nat, c: nat)
    requires lo <= v <= hi && ClosedSpan(lo, hi, half, d, c)
    ensures c * (2 * half) <= Scaled(v, half, d) <= (c + 1) * (2 * half)
  {
    MulMonotone(lo + half, v + half, Pow2(d));
    MulMonotone(v + half, hi + half, Pow2(d));
  }

  // A point of a box that a cell contains is a point of the cell, or lies on its upper edges.
  lemma ContainedPoint(res: nat, cell: Key, box: BBox, p: Pt)
    requires |cell| <= res && CellContains(cell, box) && InBox(box, p)
    ensures cell <= KeyOf(res, p) || OnUpperEdge(cell, p)
  {
    KeyOnGrid(cell);
    SpanHoldsPoint(box.xmin, p.lon, box.xmax, LON_HALF, |cell|, KeyX(cell));
    SpanHoldsPoint(box.ymin, p.lat, box.ymax, LAT_HALF, |cell|, KeyY(cell));
    ColumnOrEdge(p.lon, LON_HALF, |cell|, KeyX(cell));
    ColumnOrEdge(p.lat, LAT_HALF, |cell|, KeyY(cell));
    PrefixByPosition(res, cell, p);
  }

  // A box whose north-east corner is not a point of the descent's cell is placed differently by
  // the corner rule.
  lemma UpperEdgeDisagrees(r: Rule, box: BBox)
    requires ValidRule(r) && InBox(box, NorthEast(box))
    requires !(DescendFrom(r, box, ROOT) <= KeyOf(r.res, NorthEast(box)))
    ensures DescendFrom(r, box, ROOT) != Place(r, box)
  {
    PlacedCellHolds(r, box, NorthEast(box));
  }
}
