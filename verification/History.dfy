/** Time travel: history rows, move tombstones and "the state at t"
    (src/osmpq/history/build.py, src/osmpq/history/schema.py, src/osmpq/engine/attic.py). A snapshot
    can be read by id, from the states alone, or by cell, from the rows stored in a set of cells
    only. The main result is that the two reads agree, for every history, every cut of it between
    the base files and the appended tiers, every instant and every cell set. */
module History {
  import opened Options

  type Cell = string
  type Content = seq<int>

  // One state of an element: a version, or a minor version of it.
  datatype State = State(version: int, minor: nat, validFrom: int, visible: bool, cell: Option<Cell>, content: Content)

  datatype Row = Row(id: int, version: int, minor: nat, validFrom: int, validTo: Option<int>,
                     visible: bool, cell: Option<Cell>, content: Option<Content>)

  // ---- what is written -----------------------------------------------------------------------

  // lead(valid_from), over the states known when the base was built.
  function Lead(h: seq<State>, i: nat, known: nat): Option<int> {
    if i + 1 < known && i + 1 < |h| then Some(h[i + 1].validFrom) else None
  }

  function StateRow(id: int, h: seq<State>, i: nat, base: nat): Row
    requires i < |h|
  {
    Row(id, h[i].version, h[i].minor, h[i].validFrom, Lead(h, i, base), h[i].visible, h[i].cell, Some(h[i].content))
  }

  // A visible state that lands in another cell than the previous one leaves a tombstone there.
  predicate Moves(h: seq<State>, i: nat)
    requires i < |h|
  {
    i > 0 && h[i].visible && h[i - 1].cell.Some? && h[i].cell.Some? && h[i].cell != h[i - 1].cell
  }

  function TombstoneRow(id: int, h: seq<State>, i: nat): Row
    requires i < |h| && i > 0
  {
    Row(id, h[i].version, h[i].minor, h[i].validFrom, None, false, h[i - 1].cell, None)
  }

  // _finalize_states on the states of one element: valid_to filled in, tombstones appended.
  function Finalized(id: int, states: seq<State>): (rows: seq<Row>) {
    StateRows(id, states, |states|) + Tombstones(id, states, |states|)
  }

  function StateRows(id: int, states: seq<State>, n: nat): (rows: seq<Row>)
    requires n <= |states|
    ensures forall r :: r in rows <==> exists i :: 0 <= i < n && r == StateRow(id, states, i, |states|)
  {
    if n == 0 then [] else StateRows(id, states, n - 1) + [StateRow(id, states, n - 1, |states|)]
  }

  function Tombstones(id: int, states: seq<State>, n: nat): (rows: seq<Row>)
    requires n <= |states|
    ensures forall r :: r in rows <==> exists i :: 0 <= i < n && Moves(states, i) && r == TombstoneRow(id, states, i)
  {
    if n == 0 then []
    else Tombstones(id, states, n - 1) + (if Moves(states, n - 1) then [TombstoneRow(id, states, n - 1)] else [])
  }

  predicate WrittenFor(id: int, h: seq<State>, base: nat, i: nat, r: Row)
    requires i < |h|
  {
    r == StateRow(id, h, i, base) || (Moves(h, i) && r == TombstoneRow(id, h, i))
  }

  // The histories of all elements of one type; the first `base` states of each are in the base
  // files, the later ones in some tier, whose valid_to is always NULL.
  datatype Element = Element(states: seq<State>, base: nat)
  type Table = map<int, Element>

  ghost predicate SpatialRow(t: Table, r: Row) {
    r.id in t && exists i :: 0 <= i < |t[r.id].states| && WrittenFor(r.id, t[r.id].states, t[r.id].base, i, r)
  }

  ghost predicate ByIdRow(t: Table, r: Row) {
    r.id in t && exists i :: 0 <= i < |t[r.id].states| && r == StateRow(r.id, t[r.id].states, i, t[r.id].base)
  }

  // The base rows of an element are what _finalize_states writes for the states before the cut.
  lemma BaseRowsAreFinalized(id: int, h: seq<State>, base: nat, r: Row)
    requires base <= |h|
    ensures r in Finalized(id, h[..base]) <==> exists i :: 0 <= i < base && WrittenFor(id, h, base, i, r)
  {
    var b := h[..base];
    if i :| 0 <= i < base && WrittenFor(id, h, base, i, r) {
      assert r == StateRow(id, b, i, base) || (Moves(b, i) && r == TombstoneRow(id, b, i));
    }
    if i :| 0 <= i < base && r == StateRow(id, b, i, base) {
      assert WrittenFor(id, h, base, i, r);
    }
    if i :| 0 <= i < base && Moves(b, i) && r == TombstoneRow(id, b, i) {
      assert WrittenFor(id, h, base, i, r);
    }
  }

  // ---- what is read ----------------------------------------------------------------------------

  // validity_predicate; tier rows have no valid_to, so the base form covers them too.
  predicate ValidAt(r: Row, t: int) {
    r.validFrom <= t && (r.validTo.None? || r.validTo.value > t)
  }

  // STATE_ORDER_SQL: valid_from DESC, visible DESC, version DESC, minor DESC.
  predicate NoLater(a: Row, b: Row) {
    || a.validFrom > b.validFrom
    || (a.validFrom == b.validFrom
        && (|| (a.visible && !b.visible)
            || (a.visible == b.visible
                && (a.version > b.version || (a.version == b.version && a.minor >= b.minor)))))
  }

  ghost predicate CellCandidate(tab: Table, cells: set<Cell>, t: int, r: Row) {
    SpatialRow(tab, r) && r.cell.Some? && r.cell.value in cells && ValidAt(r, t)
  }

  ghost predicate ByIdCandidate(tab: Table, t: int, r: Row) {
    ByIdRow(tab, r) && ValidAt(r, t)
  }

  // state_at_sql: first of its id in the state order; then the visible filter.
  ghost predicate SnapshotRow(tab: Table, cells: set<Cell>, t: int, r: Row) {
    && CellCandidate(tab, cells, t, r)
    && (forall o :: CellCandidate(tab, cells, t, o) && o.id == r.id ==> NoLater(r, o))
    && r.visible
  }

  ghost predicate SnapshotByIdRow(tab: Table, t: int, r: Row) {
    && ByIdCandidate(tab, t, r)
    && (forall o :: ByIdCandidate(tab, t, o) && o.id == r.id ==> NoLater(r, o))
    && r.visible
  }

  // ---- when the reads agree ------------------------------------------------------------------------

  ghost predicate WellFormed(h: seq<State>) {
    && (forall i, j :: 0 <= i < j < |h| ==> h[i].validFrom < h[j].validFrom)
    && (forall i :: 0 <= i < |h| && h[i].visible ==> h[i].cell.Some?)
    && (forall i :: 0 < i < |h| && h[i - 1].visible && !h[i].visible ==> h[i].cell == h[i - 1].cell)
  }

  ghost predicate WellFormedTable(tab: Table) {
    forall id :: id in tab ==> WellFormed(tab[id].states) && tab[id].base <= |tab[id].states|
  }

  // Index of the state current at t, or -1 before the first.
  function StateAt(h: seq<State>, t: int): (k: int)
    ensures -1 <= k < |h|
    ensures k >= 0 ==> h[k].validFrom <= t
  {
    if h == [] then -1
    else if h[|h| - 1].validFrom <= t then |h| - 1
    else StateAt(h[..|h| - 1], t)
  }

  lemma {:induction false} StateAtIsLast(h: seq<State>, t: int, i: nat)
    requires WellFormed(h) && i < |h|
    ensures h[i].validFrom <= t <==> i <= StateAt(h, t)
  {
    if h[|h| - 1].validFrom > t && i < |h| - 1 {
      StateAtIsLast(h[..|h| - 1], t, i);
    }
  }

  // The row that a correct read of this element at t returns, if any.
  ghost predicate CurrentRow(tab: Table, t: int, r: Row) {
    && r.id in tab
    && var e := tab[r.id]; var k := StateAt(e.states, t);
    && k >= 0 && e.states[k].visible && r == StateRow(r.id, e.states, k, e.base)
  }

  lemma CurrentRowIsFirst(tab: Table, t: int, r: Row, o: Row, i: nat)
    requires WellFormedTable(tab) && CurrentRow(tab, t, r)
    requires o.id == r.id && i < |tab[r.id].states| && o.validFrom <= t
    requires WrittenFor(o.id, tab[r.id].states, tab[r.id].base, i, o)
    ensures ValidAt(r, t) && NoLater(r, o)
  {
    var h, k := tab[r.id].states, StateAt(tab[r.id].states, t);
    StateAtIsLast(h, t, i);
    StateAtIsLast(h, t, k);
    if k + 1 < |h| { StateAtIsLast(h, t, k + 1); }
  }

  lemma ByIdReadIsStateAt(tab: Table, t: int, r: Row)
    requires WellFormedTable(tab)
    ensures SnapshotByIdRow(tab, t, r) <==> CurrentRow(tab, t, r)
  {
    if CurrentRow(tab, t, r) {
      forall o | ByIdCandidate(tab, t, o) && o.id == r.id ensures NoLater(r, o) {
        var i :| 0 <= i < |tab[r.id].states| && o == StateRow(r.id, tab[r.id].states, i, tab[r.id].base);
        CurrentRowIsFirst(tab, t, r, o, i);
      }
      CurrentRowIsFirst(tab, t, r, r, StateAt(tab[r.id].states, t));
    }
    if SnapshotByIdRow(tab, t, r) {
      var h, base := tab[r.id].states, tab[r.id].base;
      var i :| 0 <= i < |h| && r == StateRow(r.id, h, i, base);
      var k := StateAt(h, t);
      StateAtIsLast(h, t, i);
      StateAtIsLast(h, t, k);
      if k + 1 < |h| { StateAtIsLast(h, t, k + 1); }
      var current := StateRow(r.id, h, k, base);
      assert ByIdCandidate(tab, t, current);
      assert NoLater(r, current);
    }
  }

  // A visible state that is no longer current is either closed, or superseded by a row that is
  // stored in the very same cell.
  lemma StaleRowIsSuperseded(tab: Table, cells: set<Cell>, t: int, r: Row, i: nat)
    requires WellFormedTable(tab) && CellCandidate(tab, cells, t, r) && r.visible
    requires var e := tab[r.id]; i < |e.states| && r == StateRow(r.id, e.states, i, e.base) && i < StateAt(e.states, t)
    ensures exists o :: CellCandidate(tab, cells, t, o) && o.id == r.id && !NoLater(r, o)
  {
    var h, base := tab[r.id].states, tab[r.id].base;
    StateAtIsLast(h, t, i + 1);
    var o := if Moves(h, i + 1) then TombstoneRow(r.id, h, i + 1) else StateRow(r.id, h, i + 1, base);
    assert WrittenFor(r.id, h, base, i + 1, o);
    assert o.cell == h[i].cell;
    assert CellCandidate(tab, cells, t, o);
  }

  // The cell-scoped read returns exactly the current visible rows whose own cell is scanned.
  lemma CellReadIsStateAt(tab: Table, cells: set<Cell>, t: int, r: Row)
    requires WellFormedTable(tab)
    ensures SnapshotRow(tab, cells, t, r) <==> CurrentRow(tab, t, r) && r.cell.Some? && r.cell.value in cells
  {
    if CurrentRow(tab, t, r) && r.cell.Some? && r.cell.value in cells {
      var h, base, k := tab[r.id].states, tab[r.id].base, StateAt(tab[r.id].states, t);
      assert WrittenFor(r.id, h, base, k, r);
      CurrentRowIsFirst(tab, t, r, r, k);
      forall o | CellCandidate(tab, cells, t, o) && o.id == r.id ensures NoLater(r, o) {
        var i :| 0 <= i < |h| && WrittenFor(o.id, h, base, i, o);
        CurrentRowIsFirst(tab, t, r, o, i);
      }
    }
    if SnapshotRow(tab, cells, t, r) {
      var h, base := tab[r.id].states, tab[r.id].base;
      var i :| 0 <= i < |h| && WrittenFor(r.id, h, base, i, r);
      StateAtIsLast(h, t, i);
      if i < StateAt(h, t) {
        StaleRowIsSuperseded(tab, cells, t, r, i);
      }
    }
  }

  // The main result.
  lemma CellReadAgreesWithByIdRead(tab: Table, cells: set<Cell>, t: int, r: Row)
    requires WellFormedTable(tab)
    ensures SnapshotRow(tab, cells, t, r)
      <==> SnapshotByIdRow(tab, t, r) && r.cell.Some? && r.cell.value in cells
  {
    CellReadIsStateAt(tab, cells, t, r);
    ByIdReadIsStateAt(tab, t, r);
  }

  // ---- what the rows carry ---------------------------------------------------------------------

  // Every column of the row is that of the state.
  predicate Carries(r: Row, s: State) {
    && r.version == s.version && r.minor == s.minor && r.validFrom == s.validFrom && r.visible == s.visible
    && r.cell == s.cell && r.content == Some(s.content)
  }

  // The state that started last, of those that started at or before t.
  predicate LastStarted(h: seq<State>, t: int, i: int) {
    && 0 <= i < |h| && h[i].validFrom <= t
    && forall j :: 0 <= j < |h| && h[j].validFrom <= t ==> h[j].validFrom <= h[i].validFrom
  }

  lemma StateAtIsLastStarted(h: seq<State>, t: int, i: int)
    requires WellFormed(h)
    ensures LastStarted(h, t, i) <==> i == StateAt(h, t) && i >= 0
  {
    var k := StateAt(h, t);
    forall j | 0 <= j < |h| ensures h[j].validFrom <= t <==> j <= k { StateAtIsLast(h, t, j); }
  }

  // The row carries the i-th state; a base row ends where the next state known to the base starts.
  predicate CarriesState(e: Element, i: int, r: Row) {
    && 0 <= i < |e.states| && Carries(r, e.states[i])
    && r.validTo == if i + 1 < |e.states| && i + 1 < e.base then Some(e.states[i + 1].validFrom) else None
  }

  // The state that started last, and it is visible.
  ghost predicate CarriesTheStateAt(tab: Table, t: int, r: Row) {
    && r.id in tab
    && exists i :: LastStarted(tab[r.id].states, t, i) && r.visible && CarriesState(tab[r.id], i, r)
  }

  lemma CurrentRowCarries(tab: Table, t: int, r: Row)
    requires WellFormedTable(tab)
    ensures CurrentRow(tab, t, r) <==> CarriesTheStateAt(tab, t, r)
  {
    if r.id in tab {
      var e := tab[r.id];
      var k := StateAt(e.states, t);
      StateAtIsLastStarted(e.states, t, k);
      if CurrentRow(tab, t, r) { assert LastStarted(e.states, t, k) && CarriesState(e, k, r); }
      if i :| LastStarted(e.states, t, i) && r.visible && CarriesState(e, i, r) {
        StateAtIsLastStarted(e.states, t, i);
        assert r == StateRow(r.id, e.states, k, e.base);
      }
    }
  }

  // A snapshot returns exactly these rows, and by cell those of them stored in a cell that is read.
  lemma ReadsCarryTheState(tab: Table, cells: set<Cell>, t: int, r: Row)
    requires WellFormedTable(tab)
    ensures SnapshotByIdRow(tab, t, r) <==> CarriesTheStateAt(tab, t, r)
    ensures SnapshotRow(tab, cells, t, r) <==> CarriesTheStateAt(tab, t, r) && r.cell.Some? && r.cell.value in cells
  {
    CurrentRowCarries(tab, t, r);
    ByIdReadIsStateAt(tab, t, r);
    CellReadIsStateAt(tab, cells, t, r);
  }

  // The rows written for the states of one element, column by column: each state with the start of
  // the next as its end, and for each move a row that ends what was in the cell left.
  lemma FinalizedExactly(id: int, h: seq<State>, r: Row)
    ensures r in Finalized(id, h) <==> r.id == id && exists i :: 0 <= i < |h| && IsWritten(h, i, r)
  {
    if r in StateRows(id, h, |h|) {
      var i :| 0 <= i < |h| && r == StateRow(id, h, i, |h|);
      assert IsWritten(h, i, r);
    }
    if r in Tombstones(id, h, |h|) {
      var i :| 0 <= i < |h| && Moves(h, i) && r == TombstoneRow(id, h, i);
      assert IsWritten(h, i, r);
    }
    if i :| r.id == id && 0 <= i < |h| && IsWritten(h, i, r) {
      assert r == StateRow(id, h, i, |h|) || (Moves(h, i) && r == TombstoneRow(id, h, i));
    }
  }

  predicate IsWritten(h: seq<State>, i: nat, r: Row)
    requires i < |h|
  {
    || (Carries(r, h[i]) && r.validTo == if i == |h| - 1 then None else Some(h[i + 1].validFrom))
    || (&& i > 0 && h[i].visible && h[i - 1].cell.Some? && h[i].cell.Some? && h[i].cell.value != h[i - 1].cell.value
        && r.version == h[i].version && r.minor == h[i].minor && r.validFrom == h[i].validFrom
        && !r.visible && r.cell == h[i - 1].cell && r.content == None && r.validTo == None)
  }

  // The cut does not matter: a row read under one cut is read under any other, and at most its
  // valid_to differs.
  lemma CutDoesNotMatter(a: Table, b: Table, cells: set<Cell>, t: int, r: Row) returns (r': Row)
    requires WellFormedTable(a) && WellFormedTable(b) && a.Keys == b.Keys
    requires forall id :: id in a ==> a[id].states == b[id].states
    requires SnapshotRow(a, cells, t, r)
    ensures SnapshotRow(b, cells, t, r') && r' == r.(validTo := r'.validTo)
  {
    CellReadIsStateAt(a, cells, t, r);
    r' := StateRow(r.id, b[r.id].states, StateAt(b[r.id].states, t), b[r.id].base);
    CellReadIsStateAt(b, cells, t, r');
  }

  // QUALIFY row_number() = 1 has no choice to make: two first rows of one element are the same row.
  lemma FirstIsUnique(tab: Table, cells: set<Cell>, t: int, a: Row, b: Row)
    requires WellFormedTable(tab) && a.id == b.id
    requires CellCandidate(tab, cells, t, a) && CellCandidate(tab, cells, t, b) && NoLater(a, b) && NoLater(b, a)
    ensures a == b
  {
    var h, base := tab[a.id].states, tab[a.id].base;
    var i :| 0 <= i < |h| && WrittenFor(a.id, h, base, i, a);
    var j :| 0 <= j < |h| && WrittenFor(b.id, h, base, j, b);
    assert i == j;
  }

  // ---- both ingredients are needed --------------------------------------------------------------------

  // An element that moves from cell "0" to cell "1" after the base was built.
  function Moved(): (tab: Table) {
    map[7 := Element([State(1, 0, 10, true, Some("0"), []), State(2, 0, 20, true, Some("1"), [])], 1)]
  }

  // Without its tombstone the old row is still the newest in its cell, and would be returned.
  lemma TombstonesAreNeeded()
    ensures WellFormedTable(Moved())
    ensures exists stale ::
      && CellCandidate(Moved(), {"0"}, 25, stale) && stale.visible && !CurrentRow(Moved(), 25, stale)
      && forall o :: ByIdRow(Moved(), o) && CellCandidate(Moved(), {"0"}, 25, o) ==> NoLater(stale, o)
  {
    var h := Moved()[7].states;
    var stale := StateRow(7, h, 0, 1);
    assert WrittenFor(7, h, 1, 0, stale);
    assert h[0].cell.value == "0" && h[1].cell.value == "1";
    assert "0"[0] != "1"[0];
    assert StateAt(h, 25) == 1;
    assert CellCandidate(Moved(), {"0"}, 25, stale);
  }

  // When both cells are scanned, only "visible DESC" puts the new state before its tombstone.
  lemma TieRuleIsNeeded()
    ensures exists state, tomb ::
      && CellCandidate(Moved(), {"0", "1"}, 25, state) && CellCandidate(Moved(), {"0", "1"}, 25, tomb)
      && state.id == tomb.id && state.visible && !tomb.visible
      && state.validFrom == tomb.validFrom && state.version == tomb.version && state.minor == tomb.minor
  {
    var h := Moved()[7].states;
    var state, tomb := StateRow(7, h, 1, 1), TombstoneRow(7, h, 1);
    assert "0"[0] != "1"[0];
    assert WrittenFor(7, h, 1, 1, state) && WrittenFor(7, h, 1, 1, tomb);
    assert CellCandidate(Moved(), {"0", "1"}, 25, state) && CellCandidate(Moved(), {"0", "1"}, 25, tomb);
  }

  // ---- the cell columns meet the hypotheses ---------------------------------------------------------------

  // Nodes: coalesce(own_cell, lag(own_cell)).
  function NodeCell(own: seq<Option<Cell>>, i: nat): Option<Cell>
    requires i < |own|
  {
    if own[i].Some? then own[i] else if i > 0 then own[i - 1] else None
  }

  // Ways: the last own cell so far, root when there is none.
  function WayCell(own: seq<Option<Cell>>, i: nat): Option<Cell>
    requires i < |own|
  {
    if own[i].Some? then own[i] else if i > 0 then WayCell(own, i - 1) else Some("root")
  }

  // own is the placement of each state: always present for a visible node, never for a deletion.
  lemma NodeCellsAreWellFormed(h: seq<State>, own: seq<Option<Cell>>)
    requires |own| == |h| && forall i :: 0 <= i < |h| ==> h[i].cell == NodeCell(own, i) && (own[i].Some? <==> h[i].visible)
    requires forall i, j :: 0 <= i < j < |h| ==> h[i].validFrom < h[j].validFrom
    ensures WellFormed(h)
  {
  }

  // A visible way may have no geometry at all; a deletion never has one.
  lemma WayCellsAreWellFormed(h: seq<State>, own: seq<Option<Cell>>)
    requires |own| == |h| && forall i :: 0 <= i < |h| ==> h[i].cell == WayCell(own, i) && (own[i].Some? ==> h[i].visible)
    requires forall i, j :: 0 <= i < j < |h| ==> h[i].validFrom < h[j].validFrom
    ensures WellFormed(h)
  {
    forall i | 0 <= i < |h| ensures h[i].cell.Some? {
      WayCellPresent(own, i);
    }
  }

  // A way's cell is the last one placed so far, root when none was; a deleted node's is the one before.
  lemma {:induction false} WayCellIsTheLast(own: seq<Option<Cell>>, i: nat, j: int)
    requires i < |own| && -1 <= j <= i && (j >= 0 ==> own[j].Some?)
    requires forall k :: j < k <= i ==> own[k].None?
    ensures WayCell(own, i) == if j >= 0 then own[j] else Some("root")
    ensures NodeCell(own, i) == if j >= i - 1 && j >= 0 then own[j] else None
  {
    if j < i && i > 0 { WayCellIsTheLast(own, i - 1, j); }
  }

  lemma {:induction false} WayCellPresent(own: seq<Option<Cell>>, i: nat)
    requires i < |own|
    ensures WayCell(own, i).Some?
  {
    if own[i].None? && i > 0 { WayCellPresent(own, i - 1); }
  }
}
