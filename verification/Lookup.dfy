/** Which cells a query reads (src/osmpq/engine/catalog.py), against where elements are stored, by the
    corner rule (Placement) or by the raw builder's descent (Descent); when a query finds them is
    stated for both. Then the spatial half of `<`: parent ways found by reading only the cells of
    the nodes' own bounding box (src/osmpq/engine/sources.py). */
module Lookup {
  import opened Options
  import opened Powers
  import opened Keys
  import opened Placement
  import opened Descent

  // Edges of a cell on the grid of resolution res.
  datatype Edges = Edges(s: nat, w: nat, n: nat, e: nat)

  function CellEdges(res: nat, key: Key): Edges
    requires |key| <= res
  {
    var m := Pow2(res - |key|);
    Edges(KeyY(key) * m, KeyX(key) * m, KeyY(key) * m + m, KeyX(key) * m + m)
  }

  lemma EdgesOfChild(res: nat, key: Key, k: nat)
    requires k < |key| <= res
    ensures var outer, inner := CellEdges(res, key[..k]), CellEdges(res, key[..k + 1]);
      var midLat, midLon := (outer.s + outer.n) / 2, (outer.w + outer.e) / 2;
      inner == Edges(if key[k] < 2 then midLat else outer.s, if key[k] % 2 == 1 then midLon else outer.w,
                     if key[k] < 2 then outer.n else midLat, if key[k] % 2 == 1 then outer.e else midLon)
  {
    var child, m := key[..k + 1], Pow2(res - k - 1);
    assert child[..k] == key[..k] && child[k] == key[k];
    assert Pow2(res - k) == 2 * m;
    ChildSpan(KeyX(key[..k]), key[k] % 2, m);
    ChildSpan(KeyY(key[..k]), 1 - key[k] / 2, m);
  }

  lemma ChildSpan(c: nat, bit: nat, m: nat)
    requires bit <= 1
    ensures (2 * c + bit) * m == c * (2 * m) + (if bit == 1 then m else 0)
    ensures (c * (2 * m) + (c * (2 * m) + 2 * m)) / 2 == c * (2 * m) + m
  {
    assert (2 * c + 1) * m == 2 * (c * m) + m && (2 * c) * m == 2 * (c * m) && c * (2 * m) == 2 * (c * m);
  }

  // cell_bbox: bisect the world once per digit.
  method CellBBox(res: nat, key: Key) returns (edges: Edges)
    requires |key| <= res
    ensures edges == CellEdges(res, key)
  {
    var s, w, n, e := 0, 0, Pow2(res), Pow2(res);
    assert key[..0] == ROOT;
    for k := 0 to |key|
      invariant Edges(s, w, n, e) == CellEdges(res, key[..k])
    {
      EdgesOfChild(res, key, k);
      var midLat, midLon := (s + n) / 2, (w + e) / 2;
      match key[k] {
        case 0 => s, e := midLat, midLon;
        case 1 => s, w := midLat, midLon;
        case 2 => n, e := midLat, midLon;
        case _ => n, w := midLat, midLon;
      }
    }
    assert key[..|key|] == key;
    edges := Edges(s, w, n, e);
  }

  // bbox_intersects, closed on every side.
  predicate Meets(res: nat, q: BBox, edges: Edges) {
    && Scaled(q.ymin, LAT_HALF, res) <= edges.n * (2 * LAT_HALF) && edges.s * (2 * LAT_HALF) <= Scaled(q.ymax, LAT_HALF, res)
    && Scaled(q.xmin, LON_HALF, res) <= edges.e * (2 * LON_HALF) && edges.w * (2 * LON_HALF) <= Scaled(q.xmax, LON_HALF, res)
  }

  predicate MeetsCell(res: nat, q: BBox, key: Key)
    requires |key| <= res
  {
    Meets(res, q, CellEdges(res, key))
  }

  lemma GridCoordBounds(v: int, half: nat, res: nat)
    requires half > 0 && 0 <= v + half <= 2 * half
    ensures var g := GridCoord(v, half, res);
      g * (2 * half) <= Scaled(v, half, res) <= (g + 1) * (2 * half)
  {
    var s, m, n := Scaled(v, half, res), 2 * half, Pow2(res);
    var q := s / m;
    assert s == m * q + s % m && (q + 1) * m == m * q + m;
    MulMonotone(0, v + half, n);
    MulMonotone(v + half, m, n);
    if q < 0 { MulMonotone(q, -1, m); }
    if q > n - 1 {
      MulMonotone(n - 1, q, m);
      assert (n - 1 + 1) * m == m * n;
    }
  }

  // One axis of: a point of the world lies in the closed extent of the cell that holds it.
  lemma AxisMeets(v: int, lo: int, hi: int, half: nat, res: nat, d: nat, c: nat)
    requires half > 0 && d <= res && lo <= v <= hi && 0 <= v + half <= 2 * half
    requires c == ShiftRight(GridCoord(v, half, res), res - d)
    ensures var m := Pow2(res - d);
      Scaled(lo, half, res) <= (c * m + m) * (2 * half) && (c * m) * (2 * half) <= Scaled(hi, half, res)
  {
    var g, m := GridCoord(v, half, res), Pow2(res - d);
    ShiftRightBounds(g, res - d);
    GridCoordBounds(v, half, res);
    MulMonotone(c * m, g, 2 * half);
    MulMonotone(g + 1, c * m + m, 2 * half);
    MulMonotone(lo + half, v + half, Pow2(res));
    MulMonotone(v + half, hi + half, Pow2(res));
  }

  lemma QueryMeetsTheCell(res: nat, q: BBox, key: Key, p: Pt)
    requires |key| <= res && InWorld(p) && InBox(q, p) && key <= KeyOf(res, p)
    ensures MeetsCell(res, q, key)
  {
    var d := |key|;
    PrefixPosition(res, GridCoord(p.lon, LON_HALF, res), GridCoord(p.lat, LAT_HALF, res), d);
    assert key == KeyOf(res, p)[..d];
    AxisMeets(p.lon, q.xmin, q.xmax, LON_HALF, res, d, KeyX(key));
    AxisMeets(p.lat, q.ymin, q.ymax, LAT_HALF, res, d, KeyY(key));
  }

  // ---- the cell list ---------------------------------------------------------------------------

  datatype Table = Table(res: nat, leaves: seq<Key>, depths: seq<nat>, loose: bool, base: set<Key>, delta: set<Key>)

  predicate ValidTable(t: Table) {
    && (forall i :: 0 <= i < |t.leaves| ==> |t.leaves[i]| <= t.res)
    && (forall c :: c in t.base + t.delta ==> |c| <= t.res)
  }

  // Ways and relations of a v2 manifest: the leaf and its ancestors at the allowed depths and 0.
  // Everything else: the leaf and all its ancestors.
  predicate AncestorOf(t: Table, c: Key, leaf: Key) {
    c <= leaf && (t.loose ==> c == leaf || c == ROOT || |c| in t.depths)
  }

  ghost predicate Wanted(t: Table, q: BBox, c: Key)
    requires ValidTable(t) && c in t.base + t.delta
  {
    || (exists i :: 0 <= i < |t.leaves| && MeetsCell(t.res, q, t.leaves[i]) && AncestorOf(t, c, t.leaves[i]))
    || (c !in t.base && MeetsCell(t.res, q, c))
  }

  ghost function Selected(t: Table, q: BBox): set<Key>
    requires ValidTable(t)
  {
    set c | c in t.base + t.delta && Wanted(t, q, c)
  }

  // What one leaf adds to the wanted set.
  method AddLeaf(t: Table, leaf: Key, wanted: set<Key>) returns (more: set<Key>)
    ensures forall c :: c in more <==> c in wanted || AncestorOf(t, c, leaf)
  {
    more := wanted;
    if t.loose {
      more := more + {leaf} + {ROOT};
      for k := 0 to |t.depths|
        invariant forall c :: c in more <==>
          c in wanted || c == leaf || c == ROOT || (c <= leaf && |c| in t.depths[..k])
      {
        var d := t.depths[k];
        assert t.depths[..k + 1] == t.depths[..k] + [d];
        assert forall c: Key :: c <= leaf && |c| == d ==> c == leaf[..d];
        if d <= |leaf| { more := more + {leaf[..d]}; }
      }
      assert t.depths[..|t.depths|] == t.depths;
    } else {
      for k := 0 to |leaf| + 1
        invariant forall c :: c in more <==> c in wanted || (c <= leaf && |c| < k)
      {
        assert forall c: Key :: c <= leaf && |c| == k ==> c == leaf[..k];
        more := more + {leaf[..k]};
      }
    }
  }

  method CellsForBBox(t: Table, bbox: Option<BBox>) returns (cells: set<Key>)
    requires ValidTable(t)
    ensures cells == if bbox.None? then t.base + t.delta else Selected(t, bbox.value)
  {
    var present := t.base + t.delta;
    if bbox.None? { return present; }
    var q := bbox.value;
    var wanted: set<Key> := {};
    for i := 0 to |t.leaves|
      invariant forall c :: c in wanted <==>
        exists j :: 0 <= j < i && MeetsCell(t.res, q, t.leaves[j]) && AncestorOf(t, c, t.leaves[j])
    {
      var edges := CellBBox(t.res, t.leaves[i]);
      if Meets(t.res, q, edges) {
        wanted := AddLeaf(t, t.leaves[i], wanted);
      }
    }
    ghost var byLeaf := wanted;
    var extraOnly := present - t.base;
    var todo := extraOnly;
    while todo != {}
      invariant todo <= extraOnly
      invariant forall c :: c in wanted <==> c in byLeaf || (c in extraOnly - todo && MeetsCell(t.res, q, c))
    {
      var c :| c in todo;
      todo := todo - {c};
      if c !in wanted {
        var edges := CellBBox(t.res, c);
        if Meets(t.res, q, edges) { wanted := wanted + {c}; }
      }
    }
    cells := set c | c in present && c in wanted;
  }

  // ---- what the list is, in terms of prefixes --------------------------------------------------------

  // The intersection test is closed: it holds exactly when box and cell share a point, measured in
  // scaled units.
  lemma MeetsMeansCommonPoint(res: nat, q: BBox, edges: Edges)
    requires InBox(q, NorthEast(q)) && edges.s <= edges.n && edges.w <= edges.e
    ensures Meets(res, q, edges) <==> exists lat, lon ::
      && Scaled(q.ymin, LAT_HALF, res) <= lat <= Scaled(q.ymax, LAT_HALF, res) && InSpan(lat, edges.s, edges.n, LAT_HALF)
      && Scaled(q.xmin, LON_HALF, res) <= lon <= Scaled(q.xmax, LON_HALF, res) && InSpan(lon, edges.w, edges.e, LON_HALF)
  {
    MulMonotone(q.ymin + LAT_HALF, q.ymax + LAT_HALF, Pow2(res));
    MulMonotone(q.xmin + LON_HALF, q.xmax + LON_HALF, Pow2(res));
    MulMonotone(edges.s, edges.n, 2 * LAT_HALF);
    MulMonotone(edges.w, edges.e, 2 * LON_HALF);
    if Meets(res, q, edges) {
      var lat := Greater(Scaled(q.ymin, LAT_HALF, res), edges.s * (2 * LAT_HALF));
      var lon := Greater(Scaled(q.xmin, LON_HALF, res), edges.w * (2 * LON_HALF));
      assert InSpan(lat, edges.s, edges.n, LAT_HALF) && InSpan(lon, edges.w, edges.e, LON_HALF);
    }
  }

  function Greater(a: int, b: int): int { if a >= b then a else b }

  predicate InSpan(v: int, lo: nat, hi: nat, half: nat) { lo * (2 * half) <= v <= hi * (2 * half) }

  // A cell is read exactly when it is a leaf that meets the query or one of its ancestors - for ways
  // and relations only at an allowed depth or the root - or has rows in the delta only and meets
  // the query itself.
  lemma SelectedExactly(t: Table, q: BBox, c: Key)
    requires ValidTable(t)
    ensures c in Selected(t, q)
      <==> && c in t.base + t.delta
           && (|| (c !in t.base && MeetsCell(t.res, q, c))
               || exists i :: 0 <= i < |t.leaves| && MeetsCell(t.res, q, t.leaves[i]) && c <= t.leaves[i]
                    && (!t.loose || |c| == |t.leaves[i]| || |c| == 0 || |c| in t.depths))
  {
    forall i | 0 <= i < |t.leaves| && c <= t.leaves[i] ensures |c| == |t.leaves[i]| ==> c == t.leaves[i] {
      assert c == t.leaves[i][..|c|];
    }
  }

  // Tables that are not loose, nodes for one: every present cell that holds a point of the query is
  // read, as long as a leaf under it holds the point.
  lemma TightCellsAreRead(t: Table, q: BBox, p: Pt, i: nat, c: Key)
    requires ValidTable(t) && !t.loose && i < |t.leaves| && t.leaves[i] <= KeyOf(t.res, p) && c <= t.leaves[i]
    requires InBox(q, p) && InWorld(p) && c in t.base + t.delta
    ensures c in Selected(t, q)
  {
    QueryMeetsTheCell(t.res, q, t.leaves[i], p);
    SelectedExactly(t, q, c);
  }

  // A node is stored in the leaf that the search finds for it, and never missed.
  lemma NodesAreNeverMissed(t: Table, q: BBox, p: Pt)
    requires ValidTable(t) && IsLeafIndex(t.res, t.leaves) && InBox(q, p) && InWorld(p)
    requires exists i :: 0 <= i < |t.leaves| && t.leaves[i] <= KeyOf(t.res, p)
    ensures var leaf := t.leaves[LeafAt(t.res, t.leaves, Value(KeyOf(t.res, p)))];
      leaf <= KeyOf(t.res, p) && (leaf in t.base + t.delta ==> leaf in Selected(t, q))
  {
    var i :| 0 <= i < |t.leaves| && t.leaves[i] <= KeyOf(t.res, p);
    LookupFindsTheLeaf(t.res, t.leaves, KeyOf(t.res, p), i);
    QueryMeetsTheCell(t.res, q, t.leaves[i], p);
    SelectedExactly(t, q, t.leaves[i]);
  }

  // A cell that only the delta has rows in is read whenever it holds a point of the query.
  lemma DeltaCellsAreRead(t: Table, q: BBox, p: Pt, c: Key)
    requires ValidTable(t) && c in t.delta && c !in t.base
    requires c <= KeyOf(t.res, p) && InBox(q, p) && InWorld(p)
    ensures c in Selected(t, q)
  {
    QueryMeetsTheCell(t.res, q, c, p);
    SelectedExactly(t, q, c);
  }

  // ---- no element is missed --------------------------------------------------------------------------

  // The manifest's leaves and depths are the ones elements were placed with.
  ghost predicate Agree(t: Table, r: Rule) {
    ValidTable(t) && ValidRule(r) && t.loose && t.res == r.res && t.leaves == r.leaves && t.depths == r.depths
  }

  // A query at one point.
  function PointBox(p: Pt): BBox { BBox(p.lat, p.lon, p.lat, p.lon) }

  predicate InSomeLeaf(r: Rule, p: Pt) { exists i :: 0 <= i < |r.leaves| && r.leaves[i] <= KeyOf(r.res, p) }

  // Some leaf that touches the point leads the lookup to the cell.
  ghost predicate FoundFrom(r: Rule, cell: Key, p: Pt)
    requires ValidRule(r)
  {
    exists j :: 0 <= j < |r.leaves| && MeetsCell(r.res, PointBox(p), r.leaves[j])
      && cell <= r.leaves[j] && (cell == r.leaves[j] || cell == ROOT || |cell| in r.depths)
  }

  lemma WiderQueryMeets(res: nat, p: Pt, q: BBox, key: Key)
    requires |key| <= res && InBox(q, p) && MeetsCell(res, PointBox(p), key)
    ensures MeetsCell(res, q, key)
  {
    MulMonotone(q.ymin + LAT_HALF, p.lat + LAT_HALF, Pow2(res));
    MulMonotone(p.lat + LAT_HALF, q.ymax + LAT_HALF, Pow2(res));
    MulMonotone(q.xmin + LON_HALF, p.lon + LON_HALF, Pow2(res));
    MulMonotone(p.lon + LON_HALF, q.xmax + LON_HALF, Pow2(res));
  }

  lemma FoundMeansSelected(t: Table, r: Rule, cell: Key, q: BBox, p: Pt)
    requires Agree(t, r) && cell in t.base + t.delta && InBox(q, p) && FoundFrom(r, cell, p)
    ensures cell in Selected(t, q)
  {
    var j :| 0 <= j < |r.leaves| && MeetsCell(r.res, PointBox(p), r.leaves[j])
      && cell <= r.leaves[j] && (cell == r.leaves[j] || cell == ROOT || |cell| in r.depths);
    WiderQueryMeets(r.res, p, q, r.leaves[j]);
  }

  lemma SelectedMeansFound(t: Table, r: Rule, cell: Key, p: Pt)
    requires Agree(t, r) && cell in t.base && cell in Selected(t, PointBox(p))
    ensures FoundFrom(r, cell, p)
  {
  }

  // The corner rule: every query that meets the box at a point lying in a leaf reads its cell.
  lemma PlacedIsFound(r: Rule, box: BBox, p: Pt)
    requires ValidRule(r) && InBox(box, p) && InWorld(p) && InSomeLeaf(r, p)
    ensures FoundFrom(r, Place(r, box), p)
  {
    var i :| 0 <= i < |r.leaves| && r.leaves[i] <= KeyOf(r.res, p);
    PlacedCellAboveLeaf(r, box, p, i);
    QueryMeetsTheCell(r.res, PointBox(p), r.leaves[i], p);
  }

  lemma NothingMissed(t: Table, r: Rule, box: BBox, q: BBox, p: Pt)
    requires Agree(t, r) && Place(r, box) in t.base + t.delta
    requires InBox(box, p) && InBox(q, p) && InWorld(p) && InSomeLeaf(r, p)
    ensures Place(r, box) in Selected(t, q)
  {
    PlacedIsFound(r, box, p);
    FoundMeansSelected(t, r, Place(r, box), q, p);
  }

  // The descent: the same from a point of its cell.
  lemma DescendedIsFound(r: Rule, box: BBox, p: Pt)
    requires ValidRule(r) && InWorld(p) && InSomeLeaf(r, p) && DescendFrom(r, box, ROOT) <= KeyOf(r.res, p)
    ensures FoundFrom(r, DescendFrom(r, box, ROOT), p)
  {
    var cell := DescentCell(r, box);
    var i :| 0 <= i < |r.leaves| && r.leaves[i] <= KeyOf(r.res, p);
    assert cell <= r.leaves[i] by { PrefixesComparable(cell, r.leaves[i], KeyOf(r.res, p)); }
    assert MeetsCell(r.res, PointBox(p), r.leaves[i]) by { QueryMeetsTheCell(r.res, PointBox(p), r.leaves[i], p); }
    LeafUnderMeansFound(r, box, p, i);
  }

  lemma LeafUnderMeansFound(r: Rule, box: BBox, p: Pt, j: nat)
    requires ValidRule(r) && j < |r.leaves|
    requires DescendFrom(r, box, ROOT) <= r.leaves[j] && MeetsCell(r.res, PointBox(p), r.leaves[j])
    ensures FoundFrom(r, DescendFrom(r, box, ROOT), p)
  {
    var cell := DescentCell(r, box);
    if cell in r.leaves { LeafAbove(r, cell, j); }
  }

  // Above a leaf, a cell that is a leaf is that leaf.
  lemma LeafAbove(r: Rule, cell: Key, i: nat)
    requires ValidRule(r) && i < |r.leaves| && cell in r.leaves && cell <= r.leaves[i]
    ensures cell == r.leaves[i]
  {
  }

  // A box off the cell boundaries lies wholly in the cell of the descent.
  lemma OffBoundariesInside(r: Rule, box: BBox, p: Pt)
    requires ValidRule(r) && BoxOffBoundaries(box, r.maxDepth) && InBox(box, p)
    ensures DescendFrom(r, box, ROOT) <= KeyOf(r.res, p)
  {
    var cell := DescentCell(r, box);
    if cell != ROOT {
      ContainsIsPrefix(r.res, r.maxDepth, cell, box);
      CornersBoundTheBox(r.res, box, p, |cell|);
    }
  }

  // Nothing is missed by the descent on boxes off the cell boundaries, wherever their corners lie.
  lemma NothingMissedByDescent(t: Table, r: Rule, box: BBox, q: BBox, p: Pt)
    requires Agree(t, r) && BoxOffBoundaries(box, r.maxDepth) && DescendFrom(r, box, ROOT) in t.base + t.delta
    requires InBox(box, p) && InBox(q, p) && InWorld(p) && InSomeLeaf(r, p)
    ensures DescendFrom(r, box, ROOT) in Selected(t, q)
  {
    OffBoundariesInside(r, box, p);
    DescendedIsFound(r, box, p);
    FoundMeansSelected(t, r, DescendFrom(r, box, ROOT), q, p);
  }

  // A leaf under the cell touches the point.
  ghost predicate LeafUnderTouches(r: Rule, cell: Key, p: Pt)
    requires ValidRule(r)
  {
    exists j :: 0 <= j < |r.leaves| && cell <= r.leaves[j] && MeetsCell(r.res, PointBox(p), r.leaves[j])
  }

  // What can go wrong on the north and the east edge of the cell: a point of the box there lies in
  // a leaf, and no leaf under the cell reaches it.
  ghost predicate EdgesReached(r: Rule, box: BBox)
    requires ValidRule(r)
  {
    forall p :: InBox(box, p) && InWorld(p) && OnUpperEdge(DescendFrom(r, box, ROOT), p) && InSomeLeaf(r, p)
      ==> LeafUnderTouches(r, DescendFrom(r, box, ROOT), p)
  }

  // Every query meeting the box at a point in a leaf reads the cell, in every agreeing manifest.
  ghost predicate NeverMissed(r: Rule, box: BBox, cell: Key) {
    forall t, q, p :: Agree(t, r) && cell in t.base && InBox(box, p) && InBox(q, p) && InWorld(p) && InSomeLeaf(r, p)
      ==> cell in Selected(t, q)
  }

  lemma DescendedNodeIsFound(r: Rule, box: BBox, p: Pt)
    requires ValidRule(r) && InBox(box, p) && InWorld(p) && InSomeLeaf(r, p)
    requires OnUpperEdge(DescendFrom(r, box, ROOT), p) ==> LeafUnderTouches(r, DescendFrom(r, box, ROOT), p)
    ensures FoundFrom(r, DescendFrom(r, box, ROOT), p)
  {
    var cell := DescentCell(r, box);
    if cell <= KeyOf(r.res, p) {
      DescendedIsFound(r, box, p);
    } else {
      ContainedPoint(r.res, cell, box, p);
      var j :| 0 <= j < |r.leaves| && cell <= r.leaves[j] && MeetsCell(r.res, PointBox(p), r.leaves[j]);
      LeafUnderMeansFound(r, box, p, j);
    }
  }

  lemma ReachedIsNeverMissed(r: Rule, box: BBox)
    requires ValidRule(r) && EdgesReached(r, box)
    ensures NeverMissed(r, box, DescendFrom(r, box, ROOT))
  {
    var cell := DescendFrom(r, box, ROOT);
    forall t, q, p | Agree(t, r) && cell in t.base && InBox(box, p) && InBox(q, p) && InWorld(p) && InSomeLeaf(r, p)
      ensures cell in Selected(t, q)
    {
      DescendedNodeIsFound(r, box, p);
      FoundMeansSelected(t, r, cell, q, p);
    }
  }

  // The manifest with one stored cell.
  function OneCell(r: Rule, cell: Key): Table { Table(r.res, r.leaves, r.depths, true, {cell}, {}) }

  // For every box, on boundaries or not: the descent's cell is never missed exactly when each point
  // of the box on the cell's upper edges that lies in a leaf is touched by a leaf under the cell.
  lemma DescentMissesExactly(r: Rule, box: BBox)
    requires ValidRule(r)
    ensures NeverMissed(r, box, DescendFrom(r, box, ROOT)) <==> EdgesReached(r, box)
  {
    if EdgesReached(r, box) { ReachedIsNeverMissed(r, box); }
    var cell := DescentCell(r, box);
    var t := OneCell(r, cell);
    if NeverMissed(r, box, cell) {
      forall p | InBox(box, p) && InWorld(p) && OnUpperEdge(cell, p) && InSomeLeaf(r, p)
        ensures LeafUnderTouches(r, cell, p)
      {
        assert InBox(PointBox(p), p);
        assert cell in Selected(t, PointBox(p));
        SelectedMeansFound(t, r, cell, p);
      }
    }
  }

  // With the raw builder's allowed depths: a way from 170 to 135 degrees west, between 70 and 75
  // north, touches the east edge of cell "000"; its end there lies in leaf "001", and the one leaf
  // under "000" is far away.
  function GapRule(res: nat): Rule { Rule(res, [[0, 0, 0, 2], [0, 0, 1]], [0, 3, 6, 9, 12], 4) }
  const TOUCHING := BBox(700_000_000, -1_700_000_000, 750_000_000, -1_350_000_000)
  const EAST_OF_IT := BBox(700_000_000, -1_350_000_000, 750_000_000, -1_300_000_000)
  const END := Pt(700_000_000, -1_350_000_000)

  lemma KeysAbove()
    ensures KeyX([0]) == 0 && KeyY([0]) == 1 && Value([0]) == 0
    ensures KeyX([0, 0]) == 0 && KeyY([0, 0]) == 3 && Value([0, 0]) == 0
  {
    assert [] + [0] == [0] && [0] + [0] == [0, 0];
    ChildPosition([], 0);
    ChildPosition([0], 0);
  }

  lemma GapKeys()
    ensures KeyX([0]) == 0 && KeyY([0]) == 1 && KeyX([0, 0]) == 0 && KeyY([0, 0]) == 3
    ensures KeyX([0, 0, 0]) == 0 && KeyY([0, 0, 0]) == 7 && KeyX([0, 0, 1]) == 1 && KeyY([0, 0, 1]) == 7
    ensures KeyX([0, 0, 0, 2]) == 0 && KeyY([0, 0, 0, 2]) == 14
    ensures Value([0, 0, 0, 2]) == 2 && Value([0, 0, 1]) == 1
  {
    KeysAbove();
    assert [0, 0] + [0] == [0, 0, 0] && [0, 0] + [1] == [0, 0, 1] && [0, 0, 0] + [2] == [0, 0, 0, 2];
    ChildPosition([0, 0], 0);
    ChildPosition([0, 0], 1);
    ChildPosition([0, 0, 0], 2);
  }

  lemma GapRuleIsValid(res: nat)
    requires res >= 4
    ensures ValidRule(GapRule(res))
  {
    GapKeys();
    var leaves := GapRule(res).leaves;
    ShiftLeft4Digit(1, res - 4);
    ShiftLeft4Gap(2, 4, res - 4);
    assert RangeLo(res, leaves[0]) == ShiftLeft4(2, res - 4) && RangeLo(res, leaves[1]) == ShiftLeft4(4, res - 4);
    assert SortedByLo(res, leaves);
    assert leaves[0][2] != leaves[1][2];
    assert PrefixFree(leaves);
  }

  // Which child of a cell on the way down contains the box.
  lemma ChildOfTouching(key: Key, d: Digit)
    requires key == [] || key == [0] || key == [0, 0] || key == [0, 0, 0]
    ensures CellContains(key + [d], TOUCHING) <==> |key| < 3 && d == 0
  {
    GapKeys();
    ChildPosition(key, d);
    assert Pow2(1) == 2 && Pow2(2) == 4 && Pow2(3) == 8 && Pow2(4) == 16;
  }

  lemma ChildrenOfTouching(key: Key)
    requires key == [] || key == [0] || key == [0, 0] || key == [0, 0, 0]
    ensures Containing(key, TOUCHING, 4) == if |key| < 3 then [0] else []
  {
    forall d: Digit ensures CellContains(key + [d], TOUCHING) <==> |key| < 3 && d == 0 { ChildOfTouching(key, d); }
    OneChild(key, TOUCHING, |key| < 3, 0, 4);
  }

  lemma StepOfTouching(res: nat, key: Key)
    requires key == [] || key == [0] || key == [0, 0] || key == [0, 0, 0]
    ensures DescendFrom(GapRule(res), TOUCHING, key)
      == if |key| < 3 then DescendFrom(GapRule(res), TOUCHING, key + [0]) else Snap(GapRule(res).depths, key)
  {
    var r := GapRule(res);
    ChildrenOfTouching(key);
    DescentStep(r, TOUCHING, key);
    assert key !in r.leaves by { assert |r.leaves[0]| == 4 && r.leaves[1][2] == 1; }
  }

  lemma SnapToThree()
    ensures Snap([0, 3, 6, 9, 12], [0, 0, 0]) == [0, 0, 0]
  {
    var depths: seq<nat> := [0, 3, 6, 9, 12];
    assert depths[1] == 3;
    assert 3 in SortedSet(depths);
    assert [0, 0, 0][..3] == [0, 0, 0];
  }

  lemma TouchingGoesDown(res: nat)
    ensures DescendFrom(GapRule(res), TOUCHING, ROOT) == DescendFrom(GapRule(res), TOUCHING, [0, 0])
  {
    assert [] + [0] == [0] && [0] + [0] == [0, 0];
    StepOfTouching(res, []);
    StepOfTouching(res, [0]);
  }

  lemma TouchingStops(res: nat)
    ensures DescendFrom(GapRule(res), TOUCHING, [0, 0]) == [0, 0, 0]
  {
    assert [0, 0] + [0] == [0, 0, 0];
    StepOfTouching(res, [0, 0]);
    StepOfTouching(res, [0, 0, 0]);
    SnapToThree();
  }

  lemma TouchingIsStored(res: nat)
    ensures DescendFrom(GapRule(res), TOUCHING, ROOT) == [0, 0, 0]
  {
    TouchingGoesDown(res);
    TouchingStops(res);
  }

  lemma EndIsInLeaf(res: nat)
    requires res >= 4
    ensures InBox(TOUCHING, END) && InBox(EAST_OF_IT, END) && InWorld(END)
    ensures InSomeLeaf(GapRule(res), END)
  {
    GapKeys();
    assert Pow2(3) == 8;
    assert GridCoord(END.lon, LON_HALF, 3) == 1 && GridCoord(END.lat, LAT_HALF, 3) == 7;
    PrefixByPosition(res, [0, 0, 1], END);
    assert GapRule(res).leaves[1] == [0, 0, 1];
  }

  // Meeting a cell does not depend on the resolution it is measured at.
  lemma MeetsAtOwnDepth(res: nat, q: BBox, key: Key)
    requires |key| <= res
    ensures MeetsCell(res, q, key) ==> MeetsCell(|key|, q, key)
  {
    assert Pow2(0) == 1;
    AxisAtOwnDepth(q.ymin, q.ymax, LAT_HALF, res, |key|, KeyY(key));
    AxisAtOwnDepth(q.xmin, q.xmax, LON_HALF, res, |key|, KeyX(key));
  }

  lemma AxisAtOwnDepth(lo: int, hi: int, half: nat, res: nat, d: nat, c: nat)
    requires d <= res
    ensures var m := Pow2(res - d);
      && (Scaled(lo, half, res) <= (c * m + m) * (2 * half) ==> Scaled(lo, half, d) <= (c + 1) * (2 * half))
      && ((c * m) * (2 * half) <= Scaled(hi, half, res) ==> c * (2 * half) <= Scaled(hi, half, d))
  {
    var m := Pow2(res - d);
    Pow2Sum(d, res - d);
    assert c * m + m == (c + 1) * m;
    Coarser(lo + half, Pow2(d), m, c + 1, 2 * half);
    Coarser(hi + half, Pow2(d), m, c, 2 * half);
  }

  lemma Coarser(v: int, n: nat, m: nat, c: int, w: int)
    requires m >= 1
    ensures v * (n * m) <= (c * m) * w ==> v * n <= c * w
    ensures (c * m) * w <= v * (n * m) ==> c * w <= v * n
  {
    assert v * (n * m) == (v * n) * m && (c * m) * w == (c * w) * m;
    if v * n > c * w { StrictMultiple(c * w, v * n, m); }
    if c * w > v * n { StrictMultiple(v * n, c * w, m); }
  }

  lemma StrictMultiple(a: int, b: int, m: nat)
    requires m >= 1 && a < b
    ensures a * m < b * m
  {
    MulMonotone(a + 1, b, m);
    assert (a + 1) * m == a * m + m;
  }

  lemma NoLeafUnderTouches(res: nat, q: BBox)
    requires res >= 4 && (q == EAST_OF_IT || q == PointBox(END))
    ensures !MeetsCell(res, q, [0, 0, 0, 2])
  {
    GapKeys();
    MeetsAtOwnDepth(res, q, [0, 0, 0, 2]);
    assert Pow2(4) == 16 && Pow2(0) == 1;
    assert CellEdges(4, [0, 0, 0, 2]).e == 1;
  }

  lemma OtherLeafIsElsewhere()
    ensures !([0, 0, 0] <= [0, 0, 1])
  {
    assert [0, 0, 0][2] != [0, 0, 1][2];
  }

  lemma TouchingIsNotSelected(res: nat)
    requires res >= 4 && ValidRule(GapRule(res))
    ensures Agree(OneCell(GapRule(res), [0, 0, 0]), GapRule(res))
    ensures [0, 0, 0] !in Selected(OneCell(GapRule(res), [0, 0, 0]), EAST_OF_IT)
  {
    NoLeafUnderTouches(res, EAST_OF_IT);
    OtherLeafIsElsewhere();
    var t := OneCell(GapRule(res), [0, 0, 0]);
    assert Agree(t, GapRule(res));
    forall i | 0 <= i < |t.leaves| && MeetsCell(t.res, EAST_OF_IT, t.leaves[i])
      ensures !AncestorOf(t, [0, 0, 0], t.leaves[i])
    {
      assert t.leaves[i] == [0, 0, 1];
    }
  }

  lemma NothingUnderReachesTheEnd(res: nat)
    requires res >= 4 && ValidRule(GapRule(res))
    ensures !LeafUnderTouches(GapRule(res), [0, 0, 0], END)
  {
    NoLeafUnderTouches(res, PointBox(END));
    OtherLeafIsElsewhere();
    assert GapRule(res).leaves[0] == [0, 0, 0, 2] && GapRule(res).leaves[1] == [0, 0, 1];
  }

  lemma EndOnEdge()
    ensures OnUpperEdge([0, 0, 0], END)
  {
    GapKeys();
    assert Pow2(3) == 8;
  }

  lemma ReachedAt(r: Rule, box: BBox, cell: Key, p: Pt)
    requires ValidRule(r) && EdgesReached(r, box) && DescendFrom(r, box, ROOT) == cell
    requires InBox(box, p) && InWorld(p) && OnUpperEdge(cell, p) && InSomeLeaf(r, p)
    ensures LeafUnderTouches(r, cell, p)
  {
  }

  lemma TouchingEdgeIsNotReached(res: nat)
    requires res >= 4 && ValidRule(GapRule(res)) && DescendFrom(GapRule(res), TOUCHING, ROOT) == [0, 0, 0]
    ensures !EdgesReached(GapRule(res), TOUCHING)
  {
    if EdgesReached(GapRule(res), TOUCHING) {
      EndIsInLeaf(res);
      EndOnEdge();
      ReachedAt(GapRule(res), TOUCHING, [0, 0, 0], END);
      NothingUnderReachesTheEnd(res);
    }
  }

  // The descent does miss a box on a boundary that the corner rule would not, at every resolution.
  lemma BoundaryBoxIsMissed(res: nat)
    requires res >= 4
    ensures ValidRule(GapRule(res)) && DescendFrom(GapRule(res), TOUCHING, ROOT) == [0, 0, 0]
    ensures InBox(TOUCHING, END) && InBox(EAST_OF_IT, END) && InWorld(END) && InSomeLeaf(GapRule(res), END)
    ensures Agree(OneCell(GapRule(res), [0, 0, 0]), GapRule(res))
    ensures [0, 0, 0] !in Selected(OneCell(GapRule(res), [0, 0, 0]), EAST_OF_IT)
    ensures !EdgesReached(GapRule(res), TOUCHING)
  {
    GapRuleIsValid(res);
    TouchingIsStored(res);
    EndIsInLeaf(res);
    TouchingIsNotSelected(res);
    TouchingEdgeIsNotReached(res);
  }

  // ---- parent ways by bounding box ---------------------------------------------------------------------

  datatype Way = Way(id: int, refs: seq<int>)
  type NodeStore = map<int, Pt>

  function Resolved(refs: seq<int>, store: NodeStore): (points: seq<Pt>)
    ensures forall k :: 0 <= k < |refs| && refs[k] in store ==> store[refs[k]] in points
  {
    if refs == [] then []
    else
      var before, last := Resolved(refs[..|refs| - 1], store), refs[|refs| - 1];
      if last in store then before + [store[last]] else before
  }

  lemma {:induction false} ResolvedExactly(refs: seq<int>, store: NodeStore, p: Pt)
    ensures p in Resolved(refs, store) <==> exists k :: 0 <= k < |refs| && refs[k] in store && store[refs[k]] == p
  {
    if refs != [] {
      var n := |refs| - 1;
      ResolvedExactly(refs[..n], store, p);
      assert forall k :: 0 <= k < n ==> refs[..n][k] == refs[k];
      if refs[n] in store && store[refs[n]] == p { assert p in Resolved(refs, store); }
    }
  }

  // The least box around the points: it holds them all and every side touches one.
  predicate Bounds(box: BBox, points: seq<Pt>) {
    && points != []
    && (forall k :: 0 <= k < |points| ==> InBox(box, points[k]))
    && (exists k :: 0 <= k < |points| && points[k].lat == box.ymin)
    && (exists k :: 0 <= k < |points| && points[k].lat == box.ymax)
    && (exists k :: 0 <= k < |points| && points[k].lon == box.xmin)
    && (exists k :: 0 <= k < |points| && points[k].lon == box.xmax)
  }

  lemma BoundsOneMore(box: BBox, points: seq<Pt>, p: Pt, box': BBox)
    requires points != [] ==> Bounds(box, points)
    requires box' == if points == [] then BBox(p.lat, p.lon, p.lat, p.lon)
      else BBox(if p.lat < box.ymin then p.lat else box.ymin, if p.lon < box.xmin then p.lon else box.xmin,
                if p.lat > box.ymax then p.lat else box.ymax, if p.lon > box.xmax then p.lon else box.xmax)
    ensures Bounds(box', points + [p])
  {
    var more := points + [p];
    assert more[|points|] == p;
    if points != [] {
      var a :| 0 <= a < |points| && points[a].lat == box.ymin;
      var b :| 0 <= b < |points| && points[b].lat == box.ymax;
      var c :| 0 <= c < |points| && points[c].lon == box.xmin;
      var d :| 0 <= d < |points| && points[d].lon == box.xmax;
      assert more[a] == points[a] && more[b] == points[b] && more[c] == points[c] && more[d] == points[d];
    }
  }

  // The accumulation loop of the way pass; the four running options of the program are set together.
  method AccumulateBox(refs: seq<int>, store: NodeStore) returns (box: Option<BBox>)
    ensures box.None? <==> Resolved(refs, store) == []
    ensures box.Some? ==> Bounds(box.value, Resolved(refs, store))
  {
    box := None;
    for i := 0 to |refs|
      invariant box.None? <==> Resolved(refs[..i], store) == []
      invariant box.Some? ==> Bounds(box.value, Resolved(refs[..i], store))
    {
      assert refs[..i + 1][..i] == refs[..i];
      if refs[i] in store {
        var p, old_ := store[refs[i]], box;
        match box {
          case None => box := Some(BBox(p.lat, p.lon, p.lat, p.lon));
          case Some(b) =>
            box := Some(BBox(if p.lat < b.ymin then p.lat else b.ymin, if p.lon < b.xmin then p.lon else b.xmin,
                             if p.lat > b.ymax then p.lat else b.ymax, if p.lon > b.xmax then p.lon else b.xmax));
        }
        BoundsOneMore(if old_.Some? then old_.value else box.value, Resolved(refs[..i], store), p, box.value);
      }
    }
    assert refs[..|refs|] == refs;
  }

  // Where a way is stored: by the box around its resolved refs, under either rule, and in the root
  // when there is none.
  ghost predicate StoredAt(r: Rule, store: NodeStore, w: Way, box: Option<BBox>, cell: Key)
    requires ValidRule(r)
  {
    var points := Resolved(w.refs, store);
    if points == [] then box == None && cell == ROOT
    else box.Some? && Bounds(box.value, points) && (cell == Place(r, box.value) || cell == DescendFrom(r, box.value, ROOT))
  }

  datatype Row = Row(way: Way, box: Option<BBox>, cell: Key)

  ghost predicate BoxesOverlap(a: Option<BBox>, q: BBox) {
    && a.Some?
    && a.value.xmax >= q.xmin && a.value.xmin <= q.xmax && a.value.ymax >= q.ymin && a.value.ymin <= q.ymax
  }

  predicate RefersTo(w: Way, ids: set<int>) {
    exists k :: 0 <= k < |w.refs| && w.refs[k] in ids
  }

  // build_way_bbox_semijoin_select: None when there is no cell to read, or when there are more
  // of them than the given fraction of the leaves; the caller then uses the reverse index.
  ghost function SemiJoin(t: Table, rows: set<Row>, ids: set<int>, q: BBox, maxFraction: real): Option<set<Row>>
    requires ValidTable(t)
  {
    if GivesUp(t, q, maxFraction) then None
    else Some(set row | row in rows && row.cell in Selected(t, q) && BoxesOverlap(row.box, q) && RefersTo(row.way, ids))
  }

  ghost predicate GivesUp(t: Table, q: BBox, maxFraction: real)
    requires ValidTable(t)
  {
    Selected(t, q) == {} || TooMany(|Selected(t, q)|, |t.leaves|, maxFraction)
  }

  ghost predicate StoredTable(t: Table, r: Rule, store: NodeStore, rows: set<Row>) {
    && Agree(t, r)
    && (forall row :: row in rows ==> StoredAt(r, store, row.way, row.box, row.cell) && row.cell in t.base)
  }

  // Every source node is stored, lies in the world and in some leaf; q is around them.
  ghost predicate Sources(r: Rule, store: NodeStore, ids: set<int>, q: BBox) {
    forall id :: id in ids ==> id in store && InWorld(store[id]) && InBox(q, store[id]) && InSomeLeaf(r, store[id])
  }

  predicate CanBeSource(r: Rule, p: Pt) { InWorld(p) && InSomeLeaf(r, p) }

  // The cell of a way is found from each of its nodes that can be a source.
  ghost predicate FoundFromItsNodes(r: Rule, store: NodeStore, row: Row)
    requires ValidRule(r)
  {
    forall id :: RefersTo(row.way, {id}) && id in store && InWorld(store[id]) && InSomeLeaf(r, store[id])
      ==> FoundFrom(r, row.cell, store[id])
  }

  lemma RefIsInBox(r: Rule, store: NodeStore, row: Row, id: int)
    requires ValidRule(r) && StoredAt(r, store, row.way, row.box, row.cell)
    requires RefersTo(row.way, {id}) && id in store
    ensures row.box.Some? && InBox(row.box.value, store[id])
  {
    var k :| 0 <= k < |row.way.refs| && row.way.refs[k] in {id};
    assert store[id] in Resolved(row.way.refs, store);
  }

  // Stored by the corner rule, or off the cell boundaries.
  predicate Harmless(r: Rule, row: Row)
    requires ValidRule(r)
  {
    row.box.Some? ==> row.cell == Place(r, row.box.value) || BoxOffBoundaries(row.box.value, r.maxDepth)
  }

  // Ways stored by the corner rule, and ways off the cell boundaries stored by the descent.
  lemma StoredIsFound(r: Rule, store: NodeStore, row: Row)
    requires ValidRule(r) && StoredAt(r, store, row.way, row.box, row.cell)
    requires Harmless(r, row)
    ensures FoundFromItsNodes(r, store, row)
  {
    forall id | RefersTo(row.way, {id}) && id in store && InWorld(store[id]) && InSomeLeaf(r, store[id])
      ensures FoundFrom(r, row.cell, store[id])
    {
      RefIsInBox(r, store, row, id);
      if row.cell == Place(r, row.box.value) {
        PlacedIsFound(r, row.box.value, store[id]);
      } else {
        OffBoundariesInside(r, row.box.value, store[id]);
        DescendedIsFound(r, row.box.value, store[id]);
      }
    }
  }

  lemma ParentWayIsRead(t: Table, r: Rule, store: NodeStore, rows: set<Row>, ids: set<int>, q: BBox, row: Row)
    requires StoredTable(t, r, store, rows) && Sources(r, store, ids, q)
    requires row in rows && RefersTo(row.way, ids) && FoundFromItsNodes(r, store, row)
    ensures row.cell in Selected(t, q) && BoxesOverlap(row.box, q)
  {
    var k :| 0 <= k < |row.way.refs| && row.way.refs[k] in ids;
    var id := row.way.refs[k];
    assert RefersTo(row.way, {id});
    RefIsInBox(r, store, row, id);
    FoundMeansSelected(t, r, row.cell, q, store[id]);
  }

  // Whenever the semi-join answers it finds exactly the ways that refer to a source node, and with
  // no cell to read there are none.
  ghost predicate Exhaustive(t: Table, rows: set<Row>, ids: set<int>, q: BBox, fraction: real)
    requires ValidTable(t)
  {
    && (SemiJoin(t, rows, ids, q, fraction).Some? ==>
         SemiJoin(t, rows, ids, q, fraction).value == set row | row in rows && RefersTo(row.way, ids))
    && (Selected(t, q) == {} ==> forall row :: row in rows ==> !RefersTo(row.way, ids))
  }

  lemma SemiJoinIsExhaustive(t: Table, r: Rule, store: NodeStore, rows: set<Row>, ids: set<int>, q: BBox, fraction: real)
    requires StoredTable(t, r, store, rows) && Sources(r, store, ids, q)
    requires forall row :: row in rows ==> FoundFromItsNodes(r, store, row)
    ensures Exhaustive(t, rows, ids, q, fraction)
  {
    forall row | row in rows && RefersTo(row.way, ids)
      ensures row.cell in Selected(t, q) && BoxesOverlap(row.box, q)
    {
      ParentWayIsRead(t, r, store, rows, ids, q, row);
    }
    var all := set row | row in rows && RefersTo(row.way, ids);
    if SemiJoin(t, rows, ids, q, fraction).Some? {
      assert SemiJoin(t, rows, ids, q, fraction).value == all;
    }
  }

  // The guard: more cells than a fraction of the leaves.
  predicate TooMany(cells: nat, leaves: nat, fraction: real) {
    cells as real > fraction * (if leaves == 0 then 1 else leaves) as real
  }

  // The guard gives up above the fraction of the leaves read, not at it; without leaves it counts one.
  lemma GuardIsStrict(cells: nat, leaves: nat, fraction: real)
    ensures leaves > 0 ==> (TooMany(cells, leaves, fraction) <==> cells as real / leaves as real > fraction)
    ensures TooMany(cells, 0, fraction) <==> cells as real > fraction
  {
    if leaves > 0 { Ratio(cells as real, leaves as real, fraction); }
  }

  lemma Ratio(x: real, y: real, f: real)
    requires y > 0.0
    ensures x > f * y <==> x / y > f
  {
    var z := x / y;
    assert x == z * y;
    if z > f { assert (z - f) * y > 0.0; }
    if z <= f { assert (f - z) * y >= 0.0; }
  }

  // What the semi-join answers lies in cells that were read and in boxes that overlap the query.
  lemma SemiJoinReadsSelected(t: Table, rows: set<Row>, ids: set<int>, q: BBox, fraction: real, row: Row)
    requires ValidTable(t) && SemiJoin(t, rows, ids, q, fraction).Some?
    ensures Selected(t, q) != {} && !TooMany(|Selected(t, q)|, |t.leaves|, fraction)
    ensures row in SemiJoin(t, rows, ids, q, fraction).value ==>
      && row in rows && row.cell in Selected(t, q) && (exists k :: 0 <= k < |row.way.refs| && row.way.refs[k] in ids)
      && row.box.Some? && row.box.value.xmax >= q.xmin && row.box.value.xmin <= q.xmax
      && row.box.value.ymax >= q.ymin && row.box.value.ymin <= q.ymax
  {
  }

  // A fraction at which the guard never gives up.
  lemma LargeFraction(cells: nat, leaves: nat)
    ensures !TooMany(cells, leaves, cells as real)
  {
    var x, y := cells as real, (if leaves == 0 then 1 else leaves) as real;
    assert y >= 1.0;
    assert x * (y - 1.0) >= 0.0;
    assert x * (y - 1.0) == x * y - x;
  }

  // A way whose cell is not found from one of its nodes is missed when that node is the source.
  lemma UnfoundWayIsMissed(t: Table, r: Rule, store: NodeStore, rows: set<Row>, row: Row, id: int) returns (fraction: real)
    requires StoredTable(t, r, store, rows) && row in rows && RefersTo(row.way, {id})
    requires id in store && InWorld(store[id]) && InSomeLeaf(r, store[id]) && !FoundFrom(r, row.cell, store[id])
    ensures Sources(r, store, {id}, PointBox(store[id]))
    ensures !Exhaustive(t, rows, {id}, PointBox(store[id]), fraction)
  {
    var q := PointBox(store[id]);
    assert row.cell !in Selected(t, q) by {
      if row.cell in Selected(t, q) { SelectedMeansFound(t, r, row.cell, store[id]); }
    }
    fraction := |Selected(t, q)| as real;
    if Selected(t, q) != {} {
      LargeFraction(|Selected(t, q)|, |t.leaves|);
      assert row !in SemiJoin(t, rows, {id}, q, fraction).value;
      assert row in (set o | o in rows && RefersTo(o.way, {id}));
    }
  }

  lemma SomeWayIsMissed(t: Table, r: Rule, store: NodeStore, rows: set<Row>, row: Row)
    returns (ids: set<int>, q: BBox, fraction: real)
    requires StoredTable(t, r, store, rows) && row in rows && !FoundFromItsNodes(r, store, row)
    ensures Sources(r, store, ids, q) && !Exhaustive(t, rows, ids, q, fraction)
  {
    var id :| RefersTo(row.way, {id}) && id in store && InWorld(store[id]) && InSomeLeaf(r, store[id])
      && !FoundFrom(r, row.cell, store[id]);
    ids, q := {id}, PointBox(store[id]);
    fraction := UnfoundWayIsMissed(t, r, store, rows, row, id);
  }

  // Each node of the way on an upper edge of its cell that lies in a leaf is touched by a leaf under
  // the cell.
  ghost predicate EdgeNodesReached(r: Rule, store: NodeStore, row: Row)
    requires ValidRule(r)
  {
    forall id :: RefersTo(row.way, {id}) && id in store && CanBeSource(r, store[id]) && OnUpperEdge(row.cell, store[id])
      ==> LeafUnderTouches(r, row.cell, store[id])
  }

  // Being found from its nodes is a condition on the nodes on two edges of the cell only.
  lemma FoundIsEdgeNodesReached(r: Rule, store: NodeStore, row: Row)
    requires ValidRule(r) && StoredAt(r, store, row.way, row.box, row.cell)
    ensures FoundFromItsNodes(r, store, row) <==> EdgeNodesReached(r, store, row)
  {
    if EdgeNodesReached(r, store, row) {
      forall id | RefersTo(row.way, {id}) && id in store && InWorld(store[id]) && InSomeLeaf(r, store[id])
        ensures FoundFrom(r, row.cell, store[id])
      {
        RefIsInBox(r, store, row, id);
        if row.cell == Place(r, row.box.value) {
          PlacedIsFound(r, row.box.value, store[id]);
        } else {
          DescendedNodeIsFound(r, row.box.value, store[id]);
        }
      }
    }
  }

  // Main result: the semi-join is exhaustive for all source nodes exactly when, for every way, each
  // of its nodes on the upper edges of its cell that lies in a leaf is touched by a leaf under the
  // cell. Ways stored by the corner rule always meet the condition, and so do ways off the cell
  // boundaries.
  lemma SemiJoinIsExhaustiveExactly(t: Table, r: Rule, store: NodeStore, rows: set<Row>)
    requires StoredTable(t, r, store, rows)
    ensures (forall ids, q, fraction :: Sources(r, store, ids, q) ==> Exhaustive(t, rows, ids, q, fraction))
       <==> forall row :: row in rows ==> EdgeNodesReached(r, store, row)
  {
    forall row | row in rows ensures FoundFromItsNodes(r, store, row) <==> EdgeNodesReached(r, store, row) {
      FoundIsEdgeNodesReached(r, store, row);
    }
    if forall row :: row in rows ==> FoundFromItsNodes(r, store, row) {
      forall ids, q, fraction | Sources(r, store, ids, q) ensures Exhaustive(t, rows, ids, q, fraction) {
        SemiJoinIsExhaustive(t, r, store, rows, ids, q, fraction);
      }
    } else {
      var row :| row in rows && !FoundFromItsNodes(r, store, row);
      var ids, q, fraction := SomeWayIsMissed(t, r, store, rows, row);
    }
  }

  // Unconditionally for ways stored by the corner rule, and for all ways off the cell boundaries.
  lemma SemiJoinOfPlacedWays(t: Table, r: Rule, store: NodeStore, rows: set<Row>, ids: set<int>, q: BBox, fraction: real)
    requires StoredTable(t, r, store, rows) && Sources(r, store, ids, q)
    requires forall row :: row in rows ==> Harmless(r, row)
    ensures Exhaustive(t, rows, ids, q, fraction)
  {
    forall row | row in rows ensures FoundFromItsNodes(r, store, row) { StoredIsFound(r, store, row); }
    SemiJoinIsExhaustive(t, r, store, rows, ids, q, fraction);
  }
}
