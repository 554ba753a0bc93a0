/** Choosing the leaf cells (rust/osmpq-raw/src/cells.rs, select_leaves) from the node histogram
    (rust/osmpq-raw/src/nodes.rs), and the agreement of the two node passes: the leaf a node is
    assigned to by binary search is the one it was counted in. */
module LeafSelection {
  import opened Options
  import opened Powers
  import opened Keys
  import opened Placement

  // ---- sums over a range of codes ------------------------------------------------------------

  function Sum(counts: seq<nat>, lo: nat, hi: nat): nat
    requires lo <= hi <= |counts|
  {
    if lo == hi then 0 else Sum(counts, lo, hi - 1) + counts[hi - 1]
  }

  lemma {:induction false} SumSplit(counts: seq<nat>, lo: nat, mid: nat, hi: nat)
    requires lo <= mid <= hi <= |counts|
    ensures Sum(counts, lo, hi) == Sum(counts, lo, mid) + Sum(counts, mid, hi)
  {
    if mid < hi { SumSplit(counts, lo, mid, hi - 1); }
  }

  lemma {:induction false} SumPositive(counts: seq<nat>, lo: nat, hi: nat, k: nat)
    requires lo <= k < hi <= |counts| && counts[k] > 0
    ensures Sum(counts, lo, hi) > 0
  {
    if k < hi - 1 { SumPositive(counts, lo, hi - 1, k); }
  }

  // ---- a cell's range is cut into its children's ----------------------------------------------------

  lemma {:induction false} ShiftLeft4Sum(a: nat, b: nat, m: nat)
    ensures ShiftLeft4(a + b, m) == ShiftLeft4(a, m) + ShiftLeft4(b, m)
  {
    if m > 0 { ShiftLeft4Sum(a, b, m - 1); }
  }

  lemma {:induction false} ShiftLeft4One(m: nat)
    ensures ShiftLeft4(1, m) == Pow4(m) && ShiftLeft4(0, m) == 0
  {
    if m > 0 { ShiftLeft4One(m - 1); }
  }

  lemma ChildRange(res: nat, key: Key, d: Digit)
    requires |key| < res
    ensures RangeLo(res, key + [d]) == RangeLo(res, key) + d * Pow4(res - |key| - 1)
    ensures RangeHi(res, key + [d]) == RangeLo(res, key) + d * Pow4(res - |key| - 1) + Pow4(res - |key| - 1) - 1
  {
    var m := res - |key| - 1;
    var child := key + [d];
    assert child[..|child| - 1] == key;
    ShiftLeft4Sum(4 * Value(key), d, m);
    ShiftLeft4Digit(Value(key), m);
    ShiftLeft4One(m);
    if d >= 1 { ShiftLeft4Sum(1, d - 1, m); }
    if d >= 2 { ShiftLeft4Sum(1, d - 2, m); }
    if d >= 3 { ShiftLeft4Sum(1, d - 3, m); }
  }

  lemma RangeInsideTheGrid(res: nat, key: Key)
    requires |key| <= res
    ensures RangeHi(res, key) < Pow4(res)
  {
    ValueBound(key);
    ShiftLeft4Gap(Value(key), Pow4(|key|), res - |key|);
    ShiftedPow(|key|, res - |key|);
  }

  lemma {:induction false} ShiftedPow(d: nat, m: nat)
    ensures ShiftLeft4(Pow4(d), m) == Pow4(d + m)
  {
    if m > 0 { ShiftedPow(d, m - 1); }
  }

  // Nodes counted in a cell.
  function Count(counts: seq<nat>, res: nat, key: Key): nat
    requires |key| <= res && |counts| == Pow4(res)
  {
    RangeInsideTheGrid(res, key);
    Sum(counts, RangeLo(res, key), RangeHi(res, key) + 1)
  }

  lemma CountOfChildren(counts: seq<nat>, res: nat, key: Key)
    requires |key| < res && |counts| == Pow4(res)
    ensures Count(counts, res, key) == Count(counts, res, key + [0]) + Count(counts, res, key + [1])
      + Count(counts, res, key + [2]) + Count(counts, res, key + [3])
  {
    var lo, m := RangeLo(res, key), Pow4(res - |key| - 1);
    ChildRange(res, key, 0);
    ChildRange(res, key, 1);
    ChildRange(res, key, 2);
    ChildRange(res, key, 3);
    RangeInsideTheGrid(res, key);
    SumSplit(counts, lo, lo + m, lo + 4 * m);
    SumSplit(counts, lo + m, lo + 2 * m, lo + 4 * m);
    SumSplit(counts, lo + 2 * m, lo + 3 * m, lo + 4 * m);
  }

  // ---- the selection -------------------------------------------------------------------------------------

  function Leaves(counts: seq<nat>, maxNodes: nat, res: nat, key: Key): (leaves: seq<Key>)
    requires |key| <= res && |counts| == Pow4(res)
    decreases res - |key|
  {
    var n := Count(counts, res, key);
    if n <= maxNodes || |key| == res then (if n > 0 || key == ROOT then [key] else [])
    else
      Leaves(counts, maxNodes, res, key + [0]) + Leaves(counts, maxNodes, res, key + [1])
      + Leaves(counts, maxNodes, res, key + [2]) + Leaves(counts, maxNodes, res, key + [3])
  }

  // The leaves of a cell's first d children.
  function FirstChildren(counts: seq<nat>, maxNodes: nat, res: nat, key: Key, d: nat): (leaves: seq<Key>)
    requires |key| < res && d <= 4 && |counts| == Pow4(res)
  {
    if d == 0 then [] else FirstChildren(counts, maxNodes, res, key, d - 1) + Leaves(counts, maxNodes, res, key + [d - 1])
  }

  ghost predicate Below(leaves: seq<Key>, key: Key) { forall i :: 0 <= i < |leaves| ==> key <= leaves[i] }

  // All leaves of one list start before all leaves of the other, and none is comparable to one.
  ghost predicate Before(res: nat, a: seq<Key>, b: seq<Key>)
    requires (forall i :: 0 <= i < |a| ==> |a[i]| <= res) && (forall j :: 0 <= j < |b| ==> |b[j]| <= res)
  {
    forall i, j :: 0 <= i < |a| && 0 <= j < |b| ==> RangeHi(res, a[i]) < RangeLo(res, b[j])
  }

  lemma DisjointRangesIncomparable(res: nat, a: Key, b: Key)
    requires |a| <= res && |b| <= res && RangeHi(res, a) < RangeLo(res, b)
    ensures !Comparable(a, b)
  {
    if a <= b { PrefixStartsInside(res, a, b); }
    if b <= a { PrefixStartsInside(res, b, a); }
  }

  // Leaves in code order with disjoint ranges.
  ghost predicate Ordered(res: nat, leaves: seq<Key>) {
    && (forall i :: 0 <= i < |leaves| ==> |leaves[i]| <= res)
    && (forall i, j :: 0 <= i < j < |leaves| ==> RangeHi(res, leaves[i]) < RangeLo(res, leaves[j]))
  }

  lemma OrderedConcat(res: nat, a: seq<Key>, b: seq<Key>)
    requires Ordered(res, a) && Ordered(res, b) && Before(res, a, b)
    ensures Ordered(res, a + b)
  {
  }

  lemma SiblingsBefore(res: nat, key: Key, d: Digit, e: Digit, a: seq<Key>, b: seq<Key>)
    requires |key| < res && d < e && Below(a, key + [d]) && Below(b, key + [e]) && Ordered(res, a) && Ordered(res, b)
    ensures Before(res, a, b)
  {
    ChildRange(res, key, d);
    ChildRange(res, key, e);
    MulMonotone(d + 1, e, Pow4(res - |key| - 1));
    assert (d + 1) * Pow4(res - |key| - 1) == d * Pow4(res - |key| - 1) + Pow4(res - |key| - 1);
    forall i, j | 0 <= i < |a| && 0 <= j < |b| ensures RangeHi(res, a[i]) < RangeLo(res, b[j]) {
      EndsInside(res, key + [d], a[i]);
      PrefixStartsInside(res, key + [e], b[j]);
    }
  }

  lemma {:induction false} EndsInside(res: nat, a: Key, b: Key)
    requires a <= b && |b| <= res
    ensures RangeHi(res, b) <= RangeHi(res, a)
    decreases |b| - |a|
  {
    if |a| == |b| {
      assert a == b;
    } else {
      var d := b[|a|];
      ChildRange(res, a, d);
      MulMonotone(d, 3, Pow4(res - |a| - 1));
      EndsInside(res, a + [d], b);
    }
  }

  lemma {:induction false} LeavesOrdered(counts: seq<nat>, maxNodes: nat, res: nat, key: Key)
    requires |key| <= res && |counts| == Pow4(res)
    ensures Below(Leaves(counts, maxNodes, res, key), key) && Ordered(res, Leaves(counts, maxNodes, res, key))
    decreases res - |key|
  {
    if Count(counts, res, key) > maxNodes && |key| < res {
      var a, b := Leaves(counts, maxNodes, res, key + [0]), Leaves(counts, maxNodes, res, key + [1]);
      var c, d := Leaves(counts, maxNodes, res, key + [2]), Leaves(counts, maxNodes, res, key + [3]);
      LeavesOrdered(counts, maxNodes, res, key + [0]);
      LeavesOrdered(counts, maxNodes, res, key + [1]);
      LeavesOrdered(counts, maxNodes, res, key + [2]);
      LeavesOrdered(counts, maxNodes, res, key + [3]);
      FourSiblings(res, key, a, b, c, d);
    }
  }

  lemma FourSiblings(res: nat, key: Key, a: seq<Key>, b: seq<Key>, c: seq<Key>, d: seq<Key>)
    requires |key| < res && Ordered(res, a) && Ordered(res, b) && Ordered(res, c) && Ordered(res, d)
    requires Below(a, key + [0]) && Below(b, key + [1]) && Below(c, key + [2]) && Below(d, key + [3])
    ensures Ordered(res, a + b + c + d) && Below(a + b + c + d, key)
  {
    SiblingsBefore(res, key, 0, 1, a, b);
    SiblingsBefore(res, key, 0, 2, a, c);
    SiblingsBefore(res, key, 1, 2, b, c);
    SiblingsBefore(res, key, 0, 3, a, d);
    SiblingsBefore(res, key, 1, 3, b, d);
    SiblingsBefore(res, key, 2, 3, c, d);
    OrderedConcat(res, a, b);
    OrderedConcat(res, a + b, c);
    OrderedConcat(res, a + b + c, d);
    PrefixTrans(key, 0, a);
    PrefixTrans(key, 1, b);
    PrefixTrans(key, 2, c);
    PrefixTrans(key, 3, d);
  }

  lemma PrefixTrans(key: Key, d: Digit, leaves: seq<Key>)
    requires Below(leaves, key + [d])
    ensures Below(leaves, key)
  {
  }

  // ---- counts, threshold, cover --------------------------------------------------------------------------

  function Total(counts: seq<nat>, res: nat, leaves: seq<Key>): nat
    requires |counts| == Pow4(res) && forall i :: 0 <= i < |leaves| ==> |leaves[i]| <= res
  {
    if leaves == [] then 0 else Total(counts, res, leaves[..|leaves| - 1]) + Count(counts, res, leaves[|leaves| - 1])
  }

  lemma TotalOneMore(counts: seq<nat>, res: nat, leaves: seq<Key>, leaf: Key)
    requires |counts| == Pow4(res) && Ordered(res, leaves) && |leaf| <= res
    ensures Total(counts, res, leaves + [leaf]) == Total(counts, res, leaves) + Count(counts, res, leaf)
  {
    assert (leaves + [leaf])[..|leaves|] == leaves;
  }

  lemma {:induction false} TotalConcat(counts: seq<nat>, res: nat, a: seq<Key>, b: seq<Key>)
    requires |counts| == Pow4(res) && Ordered(res, a) && Ordered(res, b) && Ordered(res, a + b)
    ensures Total(counts, res, a + b) == Total(counts, res, a) + Total(counts, res, b)
  {
    if b == [] {
      assert a + b == a;
    } else {
      var n := |b| - 1;
      assert a + b == (a + b[..n]) + [b[n]];
      TotalOneMore(counts, res, a + b[..n], b[n]);
      TotalConcat(counts, res, a, b[..n]);
    }
  }

  lemma {:induction false} LeavesCountEverything(counts: seq<nat>, maxNodes: nat, res: nat, key: Key)
    requires |key| <= res && |counts| == Pow4(res)
    ensures Ordered(res, Leaves(counts, maxNodes, res, key))
    ensures Total(counts, res, Leaves(counts, maxNodes, res, key)) == Count(counts, res, key)
    decreases res - |key|
  {
    LeavesOrdered(counts, maxNodes, res, key);
    var all := Leaves(counts, maxNodes, res, key);
    if Count(counts, res, key) > maxNodes && |key| < res {
      var a, b := Leaves(counts, maxNodes, res, key + [0]), Leaves(counts, maxNodes, res, key + [1]);
      var c, d := Leaves(counts, maxNodes, res, key + [2]), Leaves(counts, maxNodes, res, key + [3]);
      LeavesCountEverything(counts, maxNodes, res, key + [0]);
      LeavesCountEverything(counts, maxNodes, res, key + [1]);
      LeavesCountEverything(counts, maxNodes, res, key + [2]);
      LeavesCountEverything(counts, maxNodes, res, key + [3]);
      CountOfChildren(counts, res, key);
      FourTotals(counts, res, a, b, c, d);
    } else if all != [] {
      assert all == [key] && all[..0] == [];
    }
  }

  lemma FourTotals(counts: seq<nat>, res: nat, a: seq<Key>, b: seq<Key>, c: seq<Key>, d: seq<Key>)
    requires |counts| == Pow4(res) && Ordered(res, a + b + c + d)
    requires Ordered(res, a) && Ordered(res, b) && Ordered(res, c) && Ordered(res, d)
    ensures Total(counts, res, a + b + c + d)
      == Total(counts, res, a) + Total(counts, res, b) + Total(counts, res, c) + Total(counts, res, d)
  {
    OrderedParts(res, a + b + c, d);
    OrderedParts(res, a + b, c);
    TotalConcat(counts, res, a + b + c, d);
    TotalConcat(counts, res, a + b, c);
    TotalConcat(counts, res, a, b);
  }

  lemma OrderedParts(res: nat, a: seq<Key>, b: seq<Key>)
    requires Ordered(res, a + b)
    ensures Ordered(res, a)
  {
    assert forall i :: 0 <= i < |a| ==> a[i] == (a + b)[i];
  }

  // Each leaf holds at most the threshold, unless it is as deep as allowed; only a lone root may be empty.
  lemma {:induction false} LeavesRespectThreshold(counts: seq<nat>, maxNodes: nat, res: nat, key: Key, leaf: Key)
    requires |key| <= res && |counts| == Pow4(res) && leaf in Leaves(counts, maxNodes, res, key)
    ensures |leaf| <= res && (Count(counts, res, leaf) <= maxNodes || |leaf| == res)
    ensures Count(counts, res, leaf) > 0 || leaf == ROOT
    decreases res - |key|
  {
    if Count(counts, res, key) > maxNodes && |key| < res {
      if leaf in Leaves(counts, maxNodes, res, key + [0]) { LeavesRespectThreshold(counts, maxNodes, res, key + [0], leaf); }
      else if leaf in Leaves(counts, maxNodes, res, key + [1]) { LeavesRespectThreshold(counts, maxNodes, res, key + [1], leaf); }
      else if leaf in Leaves(counts, maxNodes, res, key + [2]) { LeavesRespectThreshold(counts, maxNodes, res, key + [2], leaf); }
      else { LeavesRespectThreshold(counts, maxNodes, res, key + [3], leaf); }
    }
  }

  // A cell is split only above the threshold: every proper ancestor of a leaf counts more.
  lemma {:induction false} SplitsAreNeeded(counts: seq<nat>, maxNodes: nat, res: nat, key: Key, leaf: Key, c: Key)
    requires |key| <= res && |counts| == Pow4(res) && leaf in Leaves(counts, maxNodes, res, key)
    requires key <= c && c < leaf
    ensures |c| < res && Count(counts, res, c) > maxNodes
    decreases res - |key|
  {
    LeavesOrdered(counts, maxNodes, res, key);
    assert key <= leaf;
    assert Count(counts, res, key) > maxNodes && |key| < res;
    var d := ChildOfLeaf(counts, maxNodes, res, key, leaf);
    if c != key {
      LeavesOrdered(counts, maxNodes, res, key + [d]);
      assert key + [d] <= leaf;
      assert c[|key|] == leaf[|key|] == d && c[..|key| + 1] == key + [d];
      SplitsAreNeeded(counts, maxNodes, res, key + [d], leaf, c);
    }
  }

  lemma ChildOfLeaf(counts: seq<nat>, maxNodes: nat, res: nat, key: Key, leaf: Key) returns (d: Digit)
    requires |key| < res && |counts| == Pow4(res) && Count(counts, res, key) > maxNodes
    requires leaf in Leaves(counts, maxNodes, res, key)
    ensures leaf in Leaves(counts, maxNodes, res, key + [d])
  {
    if leaf in Leaves(counts, maxNodes, res, key + [0]) { d := 0; }
    else if leaf in Leaves(counts, maxNodes, res, key + [1]) { d := 1; }
    else if leaf in Leaves(counts, maxNodes, res, key + [2]) { d := 2; }
    else { d := 3; }
  }

  // Every code that was counted lies in some leaf.
  lemma {:induction false} CountedCodeHasLeaf(counts: seq<nat>, maxNodes: nat, res: nat, key: Key, p: Key) returns (leaf: Key)
    requires |key| <= res && |counts| == Pow4(res) && |p| == res && key <= p
    requires Value(p) < |counts| && counts[Value(p)] > 0
    ensures leaf in Leaves(counts, maxNodes, res, key) && leaf <= p
    decreases res - |key|
  {
    PrefixIsRange(res, key, p);
    RangeInsideTheGrid(res, key);
    SumPositive(counts, RangeLo(res, key), RangeHi(res, key) + 1, Value(p));
    if Count(counts, res, key) <= maxNodes || |key| == res {
      leaf := key;
    } else {
      var d := p[|key|];
      leaf := CountedCodeHasLeaf(counts, maxNodes, res, key + [d], p);
      ChildLeavesAreLeaves(counts, maxNodes, res, key, d, leaf);
    }
  }

  lemma ChildLeavesAreLeaves(counts: seq<nat>, maxNodes: nat, res: nat, key: Key, d: Digit, leaf: Key)
    requires |key| < res && |counts| == Pow4(res) && Count(counts, res, key) > maxNodes
    requires leaf in Leaves(counts, maxNodes, res, key + [d])
    ensures leaf in Leaves(counts, maxNodes, res, key)
  {
    if d == 0 { } else if d == 1 { } else if d == 2 { } else { assert d == 3; }
  }

  // ---- the program ------------------------------------------------------------------------------------------

  function SelectedLeaves(counts: seq<nat>, maxNodes: nat, res: nat): (leaves: seq<Key>)
    requires |counts| == Pow4(res)
  {
    var leaves := Leaves(counts, maxNodes, res, ROOT);
    if leaves == [] then [ROOT] else leaves
  }

  // code_to_key
  function KeyOfCode(code: nat, depth: nat): (key: Key)
    ensures |key| == depth
  {
    if depth == 0 then [] else KeyOfCode(code / 4, depth - 1) + [code % 4]
  }

  lemma {:induction false} KeyOfValue(key: Key)
    ensures KeyOfCode(Value(key), |key|) == key
  {
    if key != [] {
      KeyOfValue(key[..|key| - 1]);
      assert key == key[..|key| - 1] + [key[|key| - 1]];
    }
  }

  ghost predicate IsPrefixSums(counts: seq<nat>, cum: seq<nat>) {
    |cum| == |counts| + 1 && forall i :: 0 <= i <= |counts| ==> cum[i] == Sum(counts, 0, i)
  }

  method PrefixSums(counts: seq<nat>) returns (cum: seq<nat>)
    ensures IsPrefixSums(counts, cum)
  {
    cum := [0];
    for i := 0 to |counts|
      invariant |cum| == i + 1 && forall k :: 0 <= k <= i ==> cum[k] == Sum(counts, 0, k)
    {
      cum := cum + [cum[i] + counts[i]];
    }
  }

  method RangeCount(cum: seq<nat>, value: nat, depth: nat, maxDepth: nat, ghost counts: seq<nat>, ghost key: Key) returns (n: nat)
    requires |counts| == Pow4(maxDepth) && IsPrefixSums(counts, cum)
    requires depth == |key| <= maxDepth && value == Value(key)
    ensures n == Count(counts, maxDepth, key)
  {
    var lo := ShiftLeft4(value, maxDepth - depth);
    var hi := lo + Pow4(maxDepth - depth) - 1;
    RangeInsideTheGrid(maxDepth, key);
    SumSplit(counts, 0, lo, hi + 1);
    n := cum[hi + 1] - cum[lo];
  }

  // The recursion, on codes and depths, pushing onto the list.
  method Select(cum: seq<nat>, value: nat, depth: nat, maxDepth: nat, maxNodes: nat, leaves: seq<Key>,
                ghost counts: seq<nat>, ghost key: Key)
    returns (more: seq<Key>)
    requires |counts| == Pow4(maxDepth) && IsPrefixSums(counts, cum)
    requires depth == |key| <= maxDepth && value == Value(key)
    ensures more == leaves + Leaves(counts, maxNodes, maxDepth, key)
    decreases maxDepth - depth
  {
    var n := RangeCount(cum, value, depth, maxDepth, counts, key);
    if n <= maxNodes || depth >= maxDepth {
      if n > 0 || (depth == 0 && value == 0) {
        KeyOfValue(key);
        more := leaves + [KeyOfCode(value, depth)];
      } else {
        more := leaves;
      }
      return;
    }
    more := leaves;
    for d := 0 to 4
      invariant more == leaves + FirstChildren(counts, maxNodes, maxDepth, key, d)
    {
      assert (key + [d])[..|key|] == key;
      var grown := Select(cum, 4 * value + d, depth + 1, maxDepth, maxNodes, more, counts, key + [d]);
      AppendChild(leaves, FirstChildren(counts, maxNodes, maxDepth, key, d), Leaves(counts, maxNodes, maxDepth, key + [d]));
      more := grown;
    }
    FourChildren(counts, maxNodes, maxDepth, key);
  }

  lemma AppendChild(leaves: seq<Key>, before: seq<Key>, child: seq<Key>)
    ensures (leaves + before) + child == leaves + (before + child)
  {
  }

  lemma FourChildren(counts: seq<nat>, maxNodes: nat, res: nat, key: Key)
    requires |key| < res && |counts| == Pow4(res) && Count(counts, res, key) > maxNodes
    ensures FirstChildren(counts, maxNodes, res, key, 4) == Leaves(counts, maxNodes, res, key)
  {
    assert FirstChildren(counts, maxNodes, res, key, 1) == Leaves(counts, maxNodes, res, key + [0]);
    assert FirstChildren(counts, maxNodes, res, key, 2)
      == Leaves(counts, maxNodes, res, key + [0]) + Leaves(counts, maxNodes, res, key + [1]);
  }

  // The recursion never comes back empty, so the fallback to the root is never taken.
  lemma SomeLeafIsSelected(counts: seq<nat>, maxNodes: nat, res: nat)
    requires |counts| == Pow4(res)
    ensures Leaves(counts, maxNodes, res, ROOT) != []
    ensures SelectedLeaves(counts, maxNodes, res) == Leaves(counts, maxNodes, res, ROOT)
  {
    LeavesCountEverything(counts, maxNodes, res, ROOT);
    assert Total(counts, res, []) == 0;
    assert Count(counts, res, ROOT) == 0 ==> Leaves(counts, maxNodes, res, ROOT) == [ROOT];
  }

  method SelectLeaves(counts: seq<nat>, maxNodes: nat, maxDepth: nat) returns (leaves: seq<Key>)
    requires |counts| == Pow4(maxDepth)
    ensures leaves == Leaves(counts, maxNodes, maxDepth, ROOT) && leaves != []
  {
    var cum := PrefixSums(counts);
    leaves := Select(cum, 0, 0, maxDepth, maxNodes, [], counts, ROOT);
    SomeLeafIsSelected(counts, maxNodes, maxDepth);
    if leaves == [] { leaves := [ROOT]; }
  }

  // The selected leaves form a leaf index: in code order, with disjoint ranges.
  lemma SelectionIsALeafIndex(counts: seq<nat>, maxNodes: nat, res: nat)
    requires |counts| == Pow4(res)
    ensures Ordered(res, SelectedLeaves(counts, maxNodes, res)) && IsLeafIndex(res, SelectedLeaves(counts, maxNodes, res))
  {
    LeavesOrdered(counts, maxNodes, res, ROOT);
    OrderedIsIndex(res, SelectedLeaves(counts, maxNodes, res));
  }

  lemma OrderedIsIndex(res: nat, leaves: seq<Key>)
    requires Ordered(res, leaves) && leaves != []
    ensures IsLeafIndex(res, leaves)
  {
    forall i, j | 0 <= i < j < |leaves| ensures !Comparable(leaves[i], leaves[j]) {
      DisjointRangesIncomparable(res, leaves[i], leaves[j]);
    }
  }

  // ---- the two node passes ----------------------------------------------------------------------------------

  const U32_MAX: nat := 0xFFFF_FFFF

  datatype Node = Node(id: int, at: Pt)

  // The nodes the optional bounding box lets through, in file order.
  function Kept(nodes: seq<Node>, bbox: Option<BBox>): seq<Pt> {
    if nodes == [] then []
    else
      var front, last := Kept(nodes[..|nodes| - 1], bbox), nodes[|nodes| - 1];
      if bbox.None? || InBox(bbox.value, last.at) then front + [last.at] else front
  }

  // The greatest id let through, at least 0.
  function MaxId(nodes: seq<Node>, bbox: Option<BBox>): (m: int)
    ensures m >= 0
    ensures forall i :: 0 <= i < |nodes| && (bbox.None? || InBox(bbox.value, nodes[i].at)) ==> nodes[i].id <= m
    ensures m == 0 || exists i :: 0 <= i < |nodes| && (bbox.None? || InBox(bbox.value, nodes[i].at)) && nodes[i].id == m
  {
    if nodes == [] then 0
    else
      var front, last := nodes[..|nodes| - 1], nodes[|nodes| - 1];
      var m := MaxId(front, bbox);
      assert forall i :: 0 <= i < |front| ==> nodes[i] == front[i];
      if (bbox.None? || InBox(bbox.value, last.at)) && last.id > m then last.id else m
  }

  // Pass 1: one saturating increment per node let through.
  method HistogramPass(res: nat, nodes: seq<Node>, bbox: Option<BBox>)
    returns (counts: array<nat>, maxId: int, nodeCount: nat)
    ensures fresh(counts) && counts.Length == Pow4(res)
    ensures forall c :: 0 <= c < counts.Length ==> counts[c] == Saturated(Tally(res, Kept(nodes, bbox), c))
    ensures maxId == MaxId(nodes, bbox) && nodeCount == |Kept(nodes, bbox)|
  {
    counts := new nat[Pow4(res)](i => 0);
    maxId, nodeCount := 0, 0;
    for k := 0 to |nodes|
      invariant forall c :: 0 <= c < counts.Length ==> counts[c] == Saturated(Tally(res, Kept(nodes[..k], bbox), c))
      invariant maxId == MaxId(nodes[..k], bbox) && nodeCount == |Kept(nodes[..k], bbox)|
    {
      var p := nodes[k].at;
      assert nodes[..k + 1][..k] == nodes[..k];
      if bbox.Some? && !InBox(bbox.value, p) { continue; }
      CountNode(counts, res, p, Kept(nodes[..k], bbox));
      if nodes[k].id > maxId { maxId := nodes[k].id; }
      nodeCount := nodeCount + 1;
    }
    assert nodes[..|nodes|] == nodes;
  }

  method CountNode(counts: array<nat>, res: nat, p: Pt, ghost before: seq<Pt>)
    requires counts.Length == Pow4(res)
    requires forall c :: 0 <= c < counts.Length ==> counts[c] == Saturated(Tally(res, before, c))
    modifies counts
    ensures forall c :: 0 <= c < counts.Length ==> counts[c] == Saturated(Tally(res, before + [p], c))
  {
    TallyOneMore(res, before, p);
    var code := PointToQk(res, GridCoord(p.lon, LON_HALF, res), GridCoord(p.lat, LAT_HALF, res));
    ValueBound(KeyOf(res, p));
    counts[code] := if counts[code] < U32_MAX then counts[code] + 1 else U32_MAX;
  }

  lemma TallyOneMore(res: nat, nodes: seq<Pt>, p: Pt)
    ensures forall c :: Tally(res, nodes + [p], c) == Tally(res, nodes, c) + if Value(KeyOf(res, p)) == c then 1 else 0
  {
    assert (nodes + [p])[..|nodes|] == nodes;
  }

  function Saturated(n: nat): nat { if n <= U32_MAX then n else U32_MAX }

  function Tally(res: nat, nodes: seq<Pt>, code: nat): nat {
    if nodes == [] then 0
    else Tally(res, nodes[..|nodes| - 1], code) + (if Value(KeyOf(res, nodes[|nodes| - 1])) == code then 1 else 0)
  }

  // The positions of the nodes inside the optional closed box, and of those the ones with a code.
  function Inside(nodes: seq<Node>, bbox: Option<BBox>): set<int> {
    set i | 0 <= i < |nodes| && (bbox.None? ||
      (&& bbox.value.ymin <= nodes[i].at.lat <= bbox.value.ymax && bbox.value.xmin <= nodes[i].at.lon <= bbox.value.xmax))
  }

  function WithCode(res: nat, nodes: seq<Node>, bbox: Option<BBox>, code: nat): set<int> {
    set i | i in Inside(nodes, bbox) && 0 <= i < |nodes| && Value(KeyOf(res, nodes[i].at)) == code
  }

  lemma OneMoreInside(nodes: seq<Node>, bbox: Option<BBox>)
    requires nodes != []
    ensures var n := |nodes| - 1;
      Inside(nodes, bbox) == Inside(nodes[..n], bbox) + if bbox.None? || InBox(bbox.value, nodes[n].at) then {n} else {}
  {
  }

  lemma OneMoreWithCode(res: nat, nodes: seq<Node>, bbox: Option<BBox>, code: nat)
    requires nodes != []
    ensures var n := |nodes| - 1;
      WithCode(res, nodes, bbox, code) == WithCode(res, nodes[..n], bbox, code)
        + if (bbox.None? || InBox(bbox.value, nodes[n].at)) && Value(KeyOf(res, nodes[n].at)) == code then {n} else {}
  {
    OneMoreInside(nodes, bbox);
  }

  lemma NothingInside(res: nat, bbox: Option<BBox>, code: nat)
    ensures Inside([], bbox) == {} && WithCode(res, [], bbox, code) == {}
  {
  }

  // What the pass counts are numbers of nodes; a count stops at 2^32 - 1.
  lemma {:induction false} TallyCountsNodes(res: nat, nodes: seq<Node>, bbox: Option<BBox>, code: nat)
    ensures Tally(res, Kept(nodes, bbox), code) == |WithCode(res, nodes, bbox, code)|
    ensures |Kept(nodes, bbox)| == |Inside(nodes, bbox)|
  {
    if nodes == [] {
      NothingInside(res, bbox, code);
    } else {
      var n := |nodes| - 1;
      TallyCountsNodes(res, nodes[..n], bbox, code);
      TallyOneMore(res, Kept(nodes[..n], bbox), nodes[n].at);
      OneMoreInside(nodes, bbox);
      OneMoreWithCode(res, nodes, bbox, code);
    }
  }

  lemma SaturatesAt32Bits(n: nat)
    ensures n < 4294967296 ==> Saturated(n) == n
    ensures n >= 4294967296 ==> Saturated(n) == 4294967295
  {
  }

  lemma {:induction false} CountedNodeTallied(res: nat, nodes: seq<Pt>, p: Pt)
    requires p in nodes
    ensures Tally(res, nodes, Value(KeyOf(res, p))) > 0
  {
    var init, last := nodes[..|nodes| - 1], nodes[|nodes| - 1];
    assert nodes == init + [last];
    if p != last { CountedNodeTallied(res, init, p); }
  }

  // Pass 2 agrees with pass 1: for every counted node, the binary search over the selected leaves
  // yields the one leaf that holds the node.
  lemma EveryNodeLandsInItsLeaf(counts: seq<nat>, maxNodes: nat, res: nat, nodes: seq<Pt>, p: Pt)
    requires |counts| == Pow4(res) && p in nodes
    requires forall c :: 0 <= c < |counts| ==> counts[c] == Saturated(Tally(res, nodes, c))
    ensures var leaves, code := SelectedLeaves(counts, maxNodes, res), Value(KeyOf(res, p));
      && SortedByLo(res, leaves) && leaves != []
      && leaves[LeafAt(res, leaves, code)] <= KeyOf(res, p)
      && forall i :: 0 <= i < |leaves| && leaves[i] <= KeyOf(res, p) ==> i == LeafAt(res, leaves, code)
  {
    var leaves := SelectedLeaves(counts, maxNodes, res);
    ValueBound(KeyOf(res, p));
    CountedNodeTallied(res, nodes, p);
    var leaf := CountedCodeHasLeaf(counts, maxNodes, res, ROOT, KeyOf(res, p));
    var i :| 0 <= i < |leaves| && leaves[i] == leaf;
    SelectionIsALeafIndex(counts, maxNodes, res);
    LookupFindsTheLeaf(res, leaves, KeyOf(res, p), i);
    CoverTestIsExact(res, leaves, KeyOf(res, p));
  }

  // The leaves' counts add up to the number of nodes counted.
  lemma SelectionCountsEverything(counts: seq<nat>, maxNodes: nat, res: nat)
    requires |counts| == Pow4(res)
    ensures Ordered(res, SelectedLeaves(counts, maxNodes, res))
    ensures Total(counts, res, SelectedLeaves(counts, maxNodes, res)) == Sum(counts, 0, Pow4(res))
  {
    LeavesCountEverything(counts, maxNodes, res, ROOT);
    RootRange(res);
  }

  lemma RootRange(res: nat)
    ensures RangeLo(res, ROOT) == 0 && RangeHi(res, ROOT) == Pow4(res) - 1
  {
    ShiftLeft4One(res);
  }
}
