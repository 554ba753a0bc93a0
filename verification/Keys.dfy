/** Quadtree cell keys and their quadkey codes (src/osmpq/layout/cells.py,
    rust/osmpq-raw/src/cells.rs). A key is the digit string from the root; the root is the empty
    key. A point's key is its digit string at the full resolution, and a cell holds a point exactly
    when its key is a prefix of the point's key (half-open cells). */
module Keys {
  import opened Powers

  type Digit = d: nat | d < 4
  type Key = seq<Digit>
  const ROOT: Key := []

  // The base-4 value of a key.
  function Value(key: Key): nat {
    if key == [] then 0 else 4 * Value(key[..|key| - 1]) + key[|key| - 1]
  }

  // 0 = NW, 1 = NE, 2 = SW, 3 = SE, from the low bits of a grid position (y grows northward).
  function DigitOf(x: nat, y: nat): Digit {
    2 * (1 - y % 2) + x % 2
  }

  function PointKey(res: nat, x: nat, y: nat): (key: Key)
    ensures |key| == res
  {
    if res == 0 then [] else PointKey(res - 1, x / 2, y / 2) + [DigitOf(x, y)]
  }

  // The grid position of a cell at its own depth.
  function KeyX(key: Key): nat {
    if key == [] then 0 else 2 * KeyX(key[..|key| - 1]) + key[|key| - 1] % 2
  }

  function KeyY(key: Key): nat {
    if key == [] then 0 else 2 * KeyY(key[..|key| - 1]) + (1 - key[|key| - 1] / 2)
  }

  // ---- keys, positions and values determine one another ----------------------------------

  lemma {:induction false} KeyOnGrid(key: Key)
    ensures OnGrid(|key|, KeyX(key), KeyY(key))
  {
    if key != [] { KeyOnGrid(key[..|key| - 1]); }
  }

  lemma {:induction false} PositionOfPointKey(res: nat, x: nat, y: nat)
    requires OnGrid(res, x, y)
    ensures KeyX(PointKey(res, x, y)) == x && KeyY(PointKey(res, x, y)) == y
  {
    if res > 0 {
      PositionOfPointKey(res - 1, x / 2, y / 2);
      var key := PointKey(res, x, y);
      assert key[..|key| - 1] == PointKey(res - 1, x / 2, y / 2);
      DigitBits(x, y);
    }
  }

  lemma DigitBits(x: nat, y: nat)
    ensures DigitOf(x, y) % 2 == x % 2 && 1 - DigitOf(x, y) / 2 == y % 2
  {
  }

  lemma {:induction false} PointKeyOfPosition(key: Key)
    ensures PointKey(|key|, KeyX(key), KeyY(key)) == key
  {
    if key != [] {
      var init, last := key[..|key| - 1], key[|key| - 1];
      PointKeyOfPosition(init);
      assert KeyX(key) / 2 == KeyX(init) && KeyY(key) / 2 == KeyY(init);
      assert key == init + [last];
    }
  }

  lemma {:induction false} PointKeyPrefix(res: nat, x: nat, y: nat, d: nat)
    requires d <= res
    ensures PointKey(res, x, y)[..d] == PointKey(d, ShiftRight(x, res - d), ShiftRight(y, res - d))
  {
    if d < res {
      PointKeyPrefix(res - 1, x / 2, y / 2, d);
      assert PointKey(res, x, y)[..d] == PointKey(res - 1, x / 2, y / 2)[..d];
    } else {
      assert PointKey(res, x, y)[..d] == PointKey(res, x, y);
    }
  }

  // The depth-d cell of a point: its key is the d-digit prefix, its position the shifted one.
  lemma PrefixPosition(res: nat, x: nat, y: nat, d: nat)
    requires OnGrid(res, x, y) && d <= res
    ensures var key := PointKey(res, x, y)[..d];
      && KeyX(key) == ShiftRight(x, res - d) && KeyY(key) == ShiftRight(y, res - d)
      && key == PointKey(d, ShiftRight(x, res - d), ShiftRight(y, res - d))
  {
    PointKeyPrefix(res, x, y, d);
    ShiftRightBelow(x, res - d, d);
    ShiftRightBelow(y, res - d, d);
    PositionOfPointKey(d, ShiftRight(x, res - d), ShiftRight(y, res - d));
  }

  // Two points share their first d digits exactly when they share their depth-d cell.
  lemma SharedPrefix(res: nat, x: nat, y: nat, x': nat, y': nat, d: nat)
    requires OnGrid(res, x, y) && OnGrid(res, x', y') && d <= res
    ensures PointKey(res, x, y)[..d] == PointKey(res, x', y')[..d]
      <==> ShiftRight(x, res - d) == ShiftRight(x', res - d) && ShiftRight(y, res - d) == ShiftRight(y', res - d)
  {
    PrefixPosition(res, x, y, d);
    PrefixPosition(res, x', y', d);
  }

  lemma {:induction false} ValueBound(key: Key)
    ensures Value(key) < Pow4(|key|)
  {
    if key != [] { ValueBound(key[..|key| - 1]); }
  }

  lemma {:induction false} ValueInjective(a: Key, b: Key)
    requires |a| == |b| && Value(a) == Value(b)
    ensures a == b
  {
    if a != [] {
      ValueInjective(a[..|a| - 1], b[..|b| - 1]);
      assert a == a[..|a| - 1] + [a[|a| - 1]];
      assert b == b[..|b| - 1] + [b[|b| - 1]];
    }
  }

  // v << 2 * m
  function ShiftLeft4(v: nat, m: nat): nat {
    if m == 0 then v else 4 * ShiftLeft4(v, m - 1)
  }

  lemma {:induction false} ShiftLeft4Gap(v: nat, w: nat, m: nat)
    requires v < w
    ensures ShiftLeft4(v, m) + Pow4(m) <= ShiftLeft4(w, m)
  {
    if m > 0 { ShiftLeft4Gap(v, w, m - 1); }
  }

  lemma {:induction false} ShiftLeft4Digit(v: nat, m: nat)
    ensures ShiftLeft4(4 * v, m) == ShiftLeft4(v, m + 1)
  {
    if m > 0 { ShiftLeft4Digit(v, m - 1); }
  }

  // Splitting a key splits its value.
  lemma {:induction false} ValueSplit(key: Key, d: nat)
    requires d <= |key|
    ensures var high, m := Value(key[..d]), |key| - d;
      ShiftLeft4(high, m) <= Value(key) < ShiftLeft4(high, m) + Pow4(m)
  {
    if d == |key| {
      assert key[..d] == key;
    } else {
      var init := key[..|key| - 1];
      ValueSplit(init, d);
      assert init[..d] == key[..d];
    }
  }

  // ---- a cell's codes are one range ---------------------------------------------------------

  function RangeLo(res: nat, key: Key): nat
    requires |key| <= res
  {
    ShiftLeft4(Value(key), res - |key|)
  }

  function RangeHi(res: nat, key: Key): int
    requires |key| <= res
  {
    RangeLo(res, key) + Pow4(res - |key|) - 1
  }

  lemma PrefixIsRange(res: nat, key: Key, p: Key)
    requires |key| <= res && |p| == res
    ensures key <= p <==> RangeLo(res, key) <= Value(p) <= RangeHi(res, key)
  {
    var m, v, w := res - |key|, Value(key), Value(p[..|key|]);
    ValueSplit(p, |key|);
    assert key <= p <==> key == p[..|key|];
    if v < w { ShiftLeft4Gap(v, w, m); }
    else if w < v { ShiftLeft4Gap(w, v, m); }
    else { ValueInjective(key, p[..|key|]); }
  }

  // The least code of a cell is the code of a point of the cell.
  function Padded(res: nat, key: Key): (p: Key)
    requires |key| <= res
    ensures |p| == res && key <= p
    decreases res - |key|
  {
    if |key| == res then key else Padded(res, key + [0])
  }

  lemma {:induction false} PaddedValue(res: nat, key: Key)
    requires |key| <= res
    ensures Value(Padded(res, key)) == RangeLo(res, key)
    decreases res - |key|
  {
    if |key| < res {
      var k := key + [0];
      PaddedValue(res, k);
      assert k[..|k| - 1] == key;
      ShiftLeft4Digit(Value(key), res - |k|);
    }
  }

  predicate Comparable(a: Key, b: Key) { a <= b || b <= a }

  lemma PrefixesComparable(a: Key, b: Key, p: Key)
    requires a <= p && b <= p
    ensures Comparable(a, b)
  {
    if |a| <= |b| { assert a == p[..|a|] == b[..|a|]; } else { assert b == p[..|b|] == a[..|b|]; }
  }

  lemma ComparableSameDepth(a: Key, b: Key)
    requires Comparable(a, b) && |a| == |b|
    ensures a == b
  {
  }

  // The digit the loop of point_to_qk reads off bit i of x and of the inverted y.
  lemma NextDigit(res: nat, x: nat, y: nat, i: nat)
    requires OnGrid(res, x, y) && i < res
    ensures var key := PointKey(res, x, y);
      Value(key[..res - i]) == 4 * Value(key[..res - i - 1])
        + 2 * (ShiftRight(Pow2(res) - 1 - y, i) % 2) + ShiftRight(x, i) % 2
  {
    var p, sy := Pow2(res - i - 1), ShiftRight(y, i);
    LongerPrefix(res, x, y, i);
    assert ShiftRight(Pow2(res) - 1 - y, i) == 2 * p - 1 - sy by { InvertedShift(i, res - i, y); }
    assert sy < 2 * p by { ShiftRightBelow(y, i, res - i); }
    InvertedParity(p, sy);
  }

  lemma LongerPrefix(res: nat, x: nat, y: nat, i: nat)
    requires OnGrid(res, x, y) && i < res
    ensures var key := PointKey(res, x, y);
      Value(key[..res - i]) == 4 * Value(key[..res - i - 1]) + DigitOf(ShiftRight(x, i), ShiftRight(y, i))
  {
    var longer := PointKey(res, x, y)[..res - i];
    assert longer == PointKey(res - i, ShiftRight(x, i), ShiftRight(y, i)) by { PrefixPosition(res, x, y, res - i); }
    assert longer[..|longer| - 1] == PointKey(res, x, y)[..res - i - 1];
  }

  lemma InvertedParity(p: nat, y: nat)
    requires y < 2 * p
    ensures (2 * p - 1 - y) % 2 == 1 - y % 2
  {
  }

  // The loop of point_to_qk: MSB first, each digit from one bit of x and of the inverted y.
  method PointToQk(res: nat, x: nat, y: nat) returns (code: nat)
    requires OnGrid(res, x, y)
    ensures code == Value(PointKey(res, x, y))
  {
    var invY := Pow2(res) - 1 - y;
    code := 0;
    var i := res;
    ghost var key := PointKey(res, x, y);
    while i > 0
      invariant 0 <= i <= res && code == Value(key[..res - i])
    {
      i := i - 1;
      var bx := ShiftRight(x, i) % 2;
      var biy := ShiftRight(invY, i) % 2;
      var digit := 2 * biy + bx;
      code := 4 * code + digit;
      NextDigit(res, x, y, i);
    }
    assert key[..res] == key;
  }

  // ---- the sorted leaf list -----------------------------------------------------------------

  predicate PrefixFree(leaves: seq<Key>) {
    forall i, j :: 0 <= i < |leaves| && 0 <= j < |leaves| && i != j ==> !(leaves[i] <= leaves[j])
  }

  predicate SortedByLo(res: nat, leaves: seq<Key>) {
    && (forall i :: 0 <= i < |leaves| ==> |leaves[i]| <= res)
    && (forall i, j :: 0 <= i < j < |leaves| ==> RangeLo(res, leaves[i]) <= RangeLo(res, leaves[j]))
  }

  ghost predicate IsLeafIndex(res: nat, leaves: seq<Key>) {
    leaves != [] && SortedByLo(res, leaves) && PrefixFree(leaves)
  }

  // np.searchsorted(los, code, side="right"): how many leaves start at or before the code.
  function SearchRight(res: nat, leaves: seq<Key>, code: nat): (n: nat)
    requires SortedByLo(res, leaves)
    ensures n <= |leaves|
    ensures forall i :: 0 <= i < |leaves| ==> (RangeLo(res, leaves[i]) <= code <==> i < n)
  {
    if leaves == [] then 0
    else if RangeLo(res, leaves[|leaves| - 1]) <= code then |leaves|
    else SearchRight(res, leaves[..|leaves| - 1], code)
  }

  // Position of the last leaf starting at or before the code, clipped into the list.
  function LeafAt(res: nat, leaves: seq<Key>, code: nat): (i: nat)
    requires SortedByLo(res, leaves) && leaves != []
    ensures i < |leaves|
  {
    var n := SearchRight(res, leaves, code);
    if n == 0 then 0 else n - 1
  }

  // contains_qk, for the leaf LeafAt found.
  predicate ReallyCovers(res: nat, leaves: seq<Key>, code: nat)
    requires SortedByLo(res, leaves) && leaves != []
  {
    code <= RangeHi(res, leaves[LeafAt(res, leaves, code)])
  }

  lemma StartsInsideIsComparable(res: nat, a: Key, b: Key)
    requires |a| <= res && |b| <= res
    requires RangeLo(res, a) <= RangeLo(res, b) <= RangeHi(res, a)
    ensures Comparable(a, b)
  {
    PaddedValue(res, b);
    PrefixIsRange(res, a, Padded(res, b));
    PrefixesComparable(a, b, Padded(res, b));
  }

  // Binary search on lower bounds returns the leaf holding the point, when one does.
  lemma LookupFindsTheLeaf(res: nat, leaves: seq<Key>, p: Key, i: nat)
    requires IsLeafIndex(res, leaves) && |p| == res
    requires i < |leaves| && leaves[i] <= p
    ensures LeafAt(res, leaves, Value(p)) == i && ReallyCovers(res, leaves, Value(p))
  {
    PrefixIsRange(res, leaves[i], p);
    var j := LeafAt(res, leaves, Value(p));
    if j != i {
      StartsInsideIsComparable(res, leaves[i], leaves[j]);
    }
  }

  // The contains_qk test holds exactly when some leaf holds the point; the leaf found is then it.
  lemma CoverTestIsExact(res: nat, leaves: seq<Key>, p: Key)
    requires IsLeafIndex(res, leaves) && |p| == res
    ensures ReallyCovers(res, leaves, Value(p)) && RangeLo(res, leaves[0]) <= Value(p)
      <==> exists i :: 0 <= i < |leaves| && leaves[i] <= p
    ensures forall i :: 0 <= i < |leaves| && leaves[i] <= p ==> LeafAt(res, leaves, Value(p)) == i
  {
    var j := LeafAt(res, leaves, Value(p));
    PrefixIsRange(res, leaves[j], p);
    forall i | 0 <= i < |leaves| && leaves[i] <= p ensures j == i && ReallyCovers(res, leaves, Value(p)) {
      LookupFindsTheLeaf(res, leaves, p, i);
    }
  }

  // The test alone also accepts a point before the first leaf, since the search is clipped to it: at
  // every resolution, the first point of the grid when the only leaf is the second quarter.
  lemma UncoveredPointPasses(res: nat)
    requires res >= 1
    ensures var leaves, p := [[1]], Padded(res, [0]);
      IsLeafIndex(res, leaves) && ReallyCovers(res, leaves, Value(p)) && !(leaves[0] <= p)
  {
    var leaves: seq<Key>, p := [[1]], Padded(res, [0]);
    PaddedValue(res, [0]);
    assert Value([1]) == 1 by { assert [1][..0] == []; }
    assert Value([0]) == 0 by { assert [0][..0] == []; }
    ShiftLeft4Gap(0, 1, res - 1);
    assert SortedByLo(res, leaves);
    assert p[0] == 0;
  }
}
