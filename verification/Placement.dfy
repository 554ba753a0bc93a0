/** Loose placement of bounding boxes (src/osmpq/layout/cells.py, containing_cells_v2_np) and
    the step-by-step descent of rust/osmpq-raw/src/cells.rs that must agree with it. */
module Placement {
  import opened Powers
  import opened Keys
  import opened Options

  const LON_HALF: nat := 1_800_000_000
  const LAT_HALF: nat := 900_000_000

  // e7 coordinates.
  datatype Pt = Pt(lat: int, lon: int)
  datatype BBox = BBox(ymin: int, xmin: int, ymax: int, xmax: int)

  predicate InBox(box: BBox, p: Pt) {
    box.ymin <= p.lat <= box.ymax && box.xmin <= p.lon <= box.xmax
  }

  predicate InWorld(p: Pt) {
    0 <= p.lat + LAT_HALF <= 2 * LAT_HALF && 0 <= p.lon + LON_HALF <= 2 * LON_HALF
  }

  // A coordinate measured from the west or south end, in units of 1 / (2 * half) grid steps.
  function Scaled(v: int, half: nat, res: nat): int {
    (v + half) * Pow2(res)
  }

  // Floor onto the grid, clipped into it.
  function GridCoord(v: int, half: nat, res: nat): (g: nat)
    requires half > 0
    ensures g < Pow2(res)
  {
    var q := Scaled(v, half, res) / (2 * half);
    if q < 0 then 0 else if q > Pow2(res) - 1 then Pow2(res) - 1 else q
  }

  function KeyOf(res: nat, p: Pt): (key: Key)
    ensures |key| == res
  {
    PointKey(res, GridCoord(p.lon, LON_HALF, res), GridCoord(p.lat, LAT_HALF, res))
  }

  lemma GridMonotone(v: int, w: int, half: nat, res: nat)
    requires half > 0 && v <= w
    ensures GridCoord(v, half, res) <= GridCoord(w, half, res)
  {
    MulMonotone(v + half, w + half, Pow2(res));
    DivMonotone(Scaled(v, half, res), Scaled(w, half, res), 2 * half);
  }

  function SouthWest(box: BBox): Pt { Pt(box.ymin, box.xmin) }
  function NorthEast(box: BBox): Pt { Pt(box.ymax, box.xmax) }

  // The first digit is the quadrant: north before south, west before east, cut at the equator and
  // the zero meridian, which belong to the north and the east.
  lemma FirstDigit(res: nat, p: Pt)
    requires res > 0
    ensures KeyOf(res, p)[0] == (if p.lat >= 0 then 0 else 2) + (if p.lon >= 0 then 1 else 0)
  {
    var x, y := GridCoord(p.lon, LON_HALF, res), GridCoord(p.lat, LAT_HALF, res);
    PrefixPosition(res, x, y, 1);
    HalfOfTheWorld(p.lon, LON_HALF, res);
    HalfOfTheWorld(p.lat, LAT_HALF, res);
    var sx, sy := ShiftRight(x, res - 1), ShiftRight(y, res - 1);
    OneDigit(sx, sy);
    assert KeyOf(res, p)[0] == KeyOf(res, p)[..1][0];
  }

  lemma OneDigit(x: nat, y: nat)
    ensures PointKey(1, x, y) == [DigitOf(x, y)]
  {
    assert PointKey(0, x / 2, y / 2) == [];
  }

  lemma HalfOfTheWorld(v: int, half: nat, res: nat)
    requires half > 0 && res > 0
    ensures ShiftRight(GridCoord(v, half, res), res - 1) == if v >= 0 then 1 else 0
  {
    var g, m := GridCoord(v, half, res), Pow2(res - 1);
    ShiftIsQuotient(g, res - 1);
    assert Pow2(res) == 2 * m;
    assert (v + half) * (2 * m) == v * (2 * m) + m * (2 * half);
    var s := Scaled(v, half, res);
    if v >= 0 {
      MulMonotone(0, v, 2 * m);
      DivMonotone(m * (2 * half), s, 2 * half);
      QuotientUnique(m * (2 * half), 2 * half, m);
      QuotientUnique(g, m, 1);
    } else {
      MulMonotone(v, -1, 2 * m);
      BelowHalf(s, m, half);
      QuotientUnique(g, m, 0);
    }
  }

  lemma BelowHalf(s: int, m: nat, half: nat)
    requires half > 0 && s < m * (2 * half)
    ensures s / (2 * half) < m
  {
    var q := s / (2 * half);
    assert s == (2 * half) * q + s % (2 * half);
    if q >= m { MulMonotone(m, q, 2 * half); }
  }

  // The world is the closed range of latitudes and longitudes, and boxes are closed.
  lemma WorldAndBoxesAreClosed(lat: int, lon: int, box: BBox)
    ensures InWorld(Pt(lat, lon)) <==> -900_000_000 <= lat <= 900_000_000 && -1_800_000_000 <= lon <= 1_800_000_000
    ensures InBox(box, SouthWest(box)) <==> InBox(box, NorthEast(box))
    ensures InBox(box, NorthEast(box)) <==> box.ymin <= box.ymax && box.xmin <= box.xmax
    ensures InBox(box, Pt(lat, lon)) ==> !InBox(box, Pt(box.ymin - 1, lon)) && !InBox(box, Pt(box.ymax + 1, lon))
    ensures InBox(box, Pt(lat, lon)) ==> !InBox(box, Pt(lat, box.xmin - 1)) && !InBox(box, Pt(lat, box.xmax + 1))
  {
  }

  // A cell holding both extreme corners holds every point of the box.
  lemma CornersBoundTheBox(res: nat, box: BBox, p: Pt, d: nat)
    requires InBox(box, p) && d <= res
    requires KeyOf(res, SouthWest(box))[..d] == KeyOf(res, NorthEast(box))[..d]
    ensures KeyOf(res, p)[..d] == KeyOf(res, SouthWest(box))[..d]
  {
    var x0, x, x1 := GridCoord(box.xmin, LON_HALF, res), GridCoord(p.lon, LON_HALF, res), GridCoord(box.xmax, LON_HALF, res);
    var y0, y, y1 := GridCoord(box.ymin, LAT_HALF, res), GridCoord(p.lat, LAT_HALF, res), GridCoord(box.ymax, LAT_HALF, res);
    GridMonotone(box.xmin, p.lon, LON_HALF, res);
    GridMonotone(p.lon, box.xmax, LON_HALF, res);
    GridMonotone(box.ymin, p.lat, LAT_HALF, res);
    GridMonotone(p.lat, box.ymax, LAT_HALF, res);
    Squeeze(x0, x, x1, res - d);
    Squeeze(y0, y, y1, res - d);
    SharedPrefix(res, x0, y0, x1, y1, d);
    SharedPrefix(res, x0, y0, x, y, d);
  }

  lemma Squeeze(a: nat, b: nat, c: nat, i: nat)
    requires a <= b <= c
    ensures ShiftRight(a, i) == ShiftRight(c, i) ==> ShiftRight(b, i) == ShiftRight(a, i)
  {
    ShiftRightMonotone(a, b, i);
    ShiftRightMonotone(b, c, i);
  }

  // ---- the allowed ancestor depths ---------------------------------------------------------

  predicate StrictlySorted(s: seq<nat>) { forall i, j :: 0 <= i < j < |s| ==> s[i] < s[j] }

  lemma PrependSorted(x: nat, s: seq<nat>)
    requires StrictlySorted(s) && forall y :: y in s ==> x < y
    ensures StrictlySorted([x] + s) && forall y :: y in [x] + s <==> y == x || y in s
  {
    var r := [x] + s;
    forall i, j | 0 <= i < j < |r| ensures r[i] < r[j] {
      assert r[j] == s[j - 1] && s[j - 1] in s;
    }
  }

  function Insert(x: nat, s: seq<nat>): (r: seq<nat>)
    requires StrictlySorted(s)
    ensures StrictlySorted(r) && r != [] && forall y :: y in r <==> y == x || y in s
  {
    if s == [] || x < s[0] then [x] + s
    else if x == s[0] then s
    else
      var rest := Insert(x, s[1..]);
      assert s == [s[0]] + s[1..];
      PrependSorted(s[0], rest);
      [s[0]] + rest
  }

  // sorted(set(depths))
  function SortedSet(s: seq<nat>): (r: seq<nat>)
    ensures StrictlySorted(r) && (r == [] <==> s == []) && forall y :: y in r <==> y in s
  {
    if s == [] then [] else Insert(s[0], SortedSet(s[1..]))
  }

  lemma AllButLast(depths: seq<nat>)
    requires depths != []
    ensures forall e :: e in depths <==> e in depths[..|depths| - 1] || e == depths[|depths| - 1]
  {
    assert depths == depths[..|depths| - 1] + [depths[|depths| - 1]];
  }

  // The greatest depth at most t; the least one when there is none.
  function LastAtMost(depths: seq<nat>, t: nat): (d: nat)
    requires StrictlySorted(depths) && depths != []
    ensures d in depths
    ensures (exists e :: e in depths && e <= t) ==> d <= t
    ensures forall e :: e in depths && e <= t ==> e <= d
  {
    var last := depths[|depths| - 1];
    if |depths| == 1 || last <= t then last
    else
      AllButLast(depths);
      LastAtMost(depths[..|depths| - 1], t)
  }

  // ---- the v2 rule ---------------------------------------------------------------------------

  // First position from i on where the corners' digits differ, at most cap.
  function CommonDepth(a: Key, b: Key, i: nat, cap: nat): (d: nat)
    requires i <= cap <= |a| && cap <= |b|
    ensures i <= d <= cap && (d < cap ==> a[d] != b[d])
    ensures forall k :: i <= k < d ==> a[k] == b[k]
    decreases cap - i
  {
    if i == cap || a[i] != b[i] then i else CommonDepth(a, b, i + 1, cap)
  }

  function Min(a: nat, b: nat): nat { if a <= b then a else b }

  datatype Rule = Rule(res: nat, leaves: seq<Key>, depths: seq<nat>, maxDepth: nat)

  ghost predicate ValidRule(r: Rule) {
    IsLeafIndex(r.res, r.leaves) && r.maxDepth <= r.res && 0 in r.depths
  }

  function PlaceCorners(r: Rule, sw: Key, ne: Key): (cell: Key)
    requires SortedByLo(r.res, r.leaves) && r.leaves != [] && r.maxDepth <= r.res && r.depths != []
    requires |sw| == |ne| == r.res
  {
    var leafDepth := |r.leaves[LeafAt(r.res, r.leaves, Value(sw))]|;
    var truncated := Min(CommonDepth(sw, ne, 0, r.maxDepth), leafDepth);
    var isLeaf := truncated == leafDepth && ReallyCovers(r.res, r.leaves, Value(sw));
    var depth := if isLeaf then truncated else LastAtMost(SortedSet(r.depths), truncated);
    sw[..Min(depth, r.maxDepth)]
  }

  function Place(r: Rule, box: BBox): (cell: Key)
    requires SortedByLo(r.res, r.leaves) && r.leaves != [] && r.maxDepth <= r.res && r.depths != []
  {
    PlaceCorners(r, KeyOf(r.res, SouthWest(box)), KeyOf(r.res, NorthEast(box)))
  }

  // The cell a box is placed in holds every point of the box.
  lemma PlacedCellHolds(r: Rule, box: BBox, p: Pt)
    requires ValidRule(r) && InBox(box, p)
    ensures Place(r, box) <= KeyOf(r.res, p)
  {
    var sw, ne := KeyOf(r.res, SouthWest(box)), KeyOf(r.res, NorthEast(box));
    var d := CommonDepth(sw, ne, 0, r.maxDepth);
    assert sw[..d] == ne[..d];
    CornersBoundTheBox(r.res, box, p, d);
    var cell := Place(r, box);
    assert |cell| <= d;
    assert cell == sw[..d][..|cell|] == KeyOf(r.res, p)[..d][..|cell|];
  }

  lemma PrefixStartsInside(res: nat, a: Key, b: Key)
    requires a <= b && |b| <= res
    ensures RangeLo(res, a) <= RangeLo(res, b) <= RangeHi(res, a)
  {
    PaddedValue(res, b);
    PrefixIsRange(res, a, Padded(res, b));
  }

  // contains_qk also says yes for a point before the first leaf (the search is clipped to 0).
  // The depth then used is the first leaf's, but no leaf lies below the cell it yields.
  lemma BeforeTheFirstLeaf(res: nat, leaves: seq<Key>, cell: Key, sw: Key, i: nat)
    requires IsLeafIndex(res, leaves) && |sw| == res && cell <= sw && i < |leaves|
    requires Value(sw) < RangeLo(res, leaves[0]) && |cell| == |leaves[0]|
    ensures !(cell <= leaves[i])
  {
    if cell <= leaves[i] {
      PrefixIsRange(res, cell, sw);
      PrefixStartsInside(res, cell, leaves[i]);
      StartsInsideIsComparable(res, cell, leaves[0]);
      ComparableSameDepth(cell, leaves[0]);
    }
  }

  // Where the rule takes a depth as a leaf depth: either that leaf holds the south-west corner,
  // or the corner comes before every leaf.
  lemma LeafDepthTaken(r: Rule, sw: Key)
    requires ValidRule(r) && |sw| == r.res
    requires ReallyCovers(r.res, r.leaves, Value(sw))
    ensures var found := r.leaves[LeafAt(r.res, r.leaves, Value(sw))];
      found <= sw || (found == r.leaves[0] && Value(sw) < RangeLo(r.res, r.leaves[0]))
  {
    PrefixIsRange(r.res, r.leaves[LeafAt(r.res, r.leaves, Value(sw))], sw);
  }

  // The placed cell is an allowed ancestor of every leaf holding a point of the box, or that
  // leaf itself: never a cell strictly below a leaf.
  lemma PlacedCellAboveLeaf(r: Rule, box: BBox, p: Pt, i: nat)
    requires ValidRule(r) && InBox(box, p)
    requires i < |r.leaves| && r.leaves[i] <= KeyOf(r.res, p)
    ensures var cell, leaf := Place(r, box), r.leaves[i];
      cell <= leaf && (cell == leaf || |cell| in r.depths)
  {
    var cell, leaf := Place(r, box), r.leaves[i];
    var sw, ne := KeyOf(r.res, SouthWest(box)), KeyOf(r.res, NorthEast(box));
    PlacedCellHolds(r, box, p);
    PrefixesComparable(cell, leaf, KeyOf(r.res, p));
    var found := r.leaves[LeafAt(r.res, r.leaves, Value(sw))];
    var truncated := Min(CommonDepth(sw, ne, 0, r.maxDepth), |found|);
    if leaf <= sw {
      LookupFindsTheLeaf(r.res, r.leaves, sw, i);
    } else if truncated == |found| && ReallyCovers(r.res, r.leaves, Value(sw)) {
      assert cell == sw[..|found|];
      LeafDepthTaken(r, sw);
      if Value(sw) < RangeLo(r.res, r.leaves[0]) {
        BeforeTheFirstLeaf(r.res, r.leaves, cell, sw, i);
      }
    }
  }

  // ---- the loops of containing_cells_v2_np, for one row ---------------------------------------

  // (code >> 2 * i) & 3
  function CodeDigit(code: nat, i: nat): Digit { ShiftRight(code, 2 * i) % 4 }

  lemma {:induction false} CodeDigitOfValue(key: Key, i: nat)
    requires i < |key|
    ensures CodeDigit(Value(key), |key| - 1 - i) == key[i]
  {
    var init := key[..|key| - 1];
    if i < |key| - 1 {
      CodeDigitOfValue(init, i);
      assert Value(key) / 2 / 2 == Value(init);
      assert ShiftRight(Value(key), 2 * (|key| - 1 - i)) == ShiftRight(Value(key) / 2, 2 * (|key| - 1 - i) - 1);
    }
  }

  method ContainingCellV2(r: Rule, box: BBox) returns (cell: Option<Key>)
    requires SortedByLo(r.res, r.leaves) && r.leaves != [] && r.depths != []
    ensures cell == if r.maxDepth > r.res then None else Some(Place(r, box))
  {
    if r.maxDepth > r.res {
      return None;
    }
    var qkSw := PointToQk(r.res, GridCoord(box.xmin, LON_HALF, r.res), GridCoord(box.ymin, LAT_HALF, r.res));
    var qkNe := PointToQk(r.res, GridCoord(box.xmax, LON_HALF, r.res), GridCoord(box.ymax, LAT_HALF, r.res));
    ghost var sw, ne := KeyOf(r.res, SouthWest(box)), KeyOf(r.res, NorthEast(box));
    var digitsSw := CodeDigits(r.res, sw, qkSw, r.maxDepth);
    var digitsNe := CodeDigits(r.res, ne, qkNe, r.maxDepth);

    var lcpDepth := FirstMismatch(digitsSw, digitsNe, sw, ne, r.maxDepth);
    var leafIdx := LeafAt(r.res, r.leaves, qkSw);
    var leafDepth := |r.leaves[leafIdx]|;
    var leafValid := qkSw <= RangeHi(r.res, r.leaves[leafIdx]);
    var truncated := Min(lcpDepth, leafDepth);
    var isLeaf := truncated == leafDepth && leafValid;
    var rounded := LastAtMost(SortedSet(r.depths), truncated);
    var finalDepth := if isLeaf then truncated else rounded;
    var d := Min(finalDepth, r.maxDepth);
    TakeOfTake(sw, r.maxDepth, d);
    cell := Some(digitsSw[..d]);
  }

  lemma TakeOfTake(key: Key, n: nat, k: nat)
    requires k <= n <= |key|
    ensures key[..n][..k] == key[..k]
  {
  }

  method FirstMismatch(digitsSw: Key, digitsNe: Key, ghost sw: Key, ghost ne: Key, maxDepth: nat) returns (lcpDepth: nat)
    requires maxDepth <= |sw| && maxDepth <= |ne| && digitsSw == sw[..maxDepth] && digitsNe == ne[..maxDepth]
    ensures lcpDepth == CommonDepth(sw, ne, 0, maxDepth)
  {
    var still := true;
    lcpDepth := maxDepth;
    for i := 0 to maxDepth
      invariant still ==> lcpDepth == maxDepth && CommonDepth(sw, ne, 0, maxDepth) == CommonDepth(sw, ne, i, maxDepth)
      invariant !still ==> lcpDepth == CommonDepth(sw, ne, 0, maxDepth)
    {
      var mismatch := still && digitsSw[i] != digitsNe[i];
      if mismatch { lcpDepth := i; }
      still := still && !mismatch;
    }
  }

  method CodeDigits(res: nat, ghost key: Key, code: nat, maxDepth: nat) returns (digits: Key)
    requires |key| == res && code == Value(key) && maxDepth <= res
    ensures digits == key[..maxDepth]
  {
    digits := [];
    for i := 0 to maxDepth
      invariant digits == key[..i]
    {
      CodeDigitOfValue(key, i);
      digits := digits + [CodeDigit(code, res - 1 - i)];
    }
  }
}
