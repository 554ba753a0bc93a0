/** Current state as base files under delta tiers (src/osmpq/engine/sources.py). A read by cell
    filters the delta rows by cell before ranking them by tier; a read by id ranks all of them.
    When the two agree is stated exactly, and so is when bbox-hinted hydration is a lookup by id. */
module Overlay {
  import opened Options

  type Cell = string

  datatype Row = Row(id: int, cell: Cell, content: seq<int>)

  // A delta row; a deleted one carries no content, and no cell when the element was new.
  datatype DeltaRow = Live(row: Row) | Deleted(cell: Option<Cell>)

  // A tier holds at most one row per id, the same ids in its by-id and its by-cell file. A tier
  // without rows of this table may still have an empty file for it. The tombstones are this table's.
  datatype Tier = Tier(rows: map<int, DeltaRow>, emptyFile: bool, tombstones: set<(int, Cell)>) {
    predicate HasFile() { rows != map[] || emptyFile }
  }

  // Tiers in precedence order: hour, day, week.
  datatype Store = Store(base: map<int, Row>, tiers: seq<Tier>)

  ghost predicate WellKeyed(s: Store) {
    && (forall id :: id in s.base ==> s.base[id].id == id)
    && (forall k, id :: 0 <= k < |s.tiers| && id in s.tiers[k].rows && s.tiers[k].rows[id].Live? ==> s.tiers[k].rows[id].row.id == id)
  }

  function CellOf(d: DeltaRow): Option<Cell> {
    match d
    case Live(row) => Some(row.cell)
    case Deleted(cell) => cell
  }

  predicate InCells(d: DeltaRow, cells: set<Cell>) {
    CellOf(d).Some? && CellOf(d).value in cells
  }

  // ---- the two reads ------------------------------------------------------------------------------

  // Highest-ranked delta row of an id, among all of them.
  function Newest(tiers: seq<Tier>, id: int): Option<DeltaRow> {
    if tiers == [] then None
    else if id in tiers[0].rows then Some(tiers[0].rows[id])
    else Newest(tiers[1..], id)
  }

  // Highest-ranked delta row of an id, among those stored in the given cells.
  function NewestIn(tiers: seq<Tier>, id: int, cells: set<Cell>): Option<DeltaRow> {
    if tiers == [] then None
    else if id in tiers[0].rows && InCells(tiers[0].rows[id], cells) then Some(tiers[0].rows[id])
    else NewestIn(tiers[1..], id, cells)
  }

  // Without a by-cell file in any tier there is no layer, and tombstones are not looked at.
  predicate HasLayer(tiers: seq<Tier>) { exists k :: 0 <= k < |tiers| && tiers[k].HasFile() }

  predicate Buried(tiers: seq<Tier>, id: int, cells: set<Cell>) {
    HasLayer(tiers) && exists k, c :: 0 <= k < |tiers| && c in cells && (id, c) in tiers[k].tombstones
  }

  // spatial_delta_layer: candidates, and the ids they and the tombstones take away from the base.
  predicate Shadowed(s: Store, cells: set<Cell>, id: int) {
    NewestIn(s.tiers, id, cells).Some? || Buried(s.tiers, id, cells)
  }

  // current_rows: base rows of the cells minus the shadow set, plus candidates not deleted.
  predicate InCellRead(s: Store, cells: set<Cell>, r: Row) {
    || (r.id in s.base && r == s.base[r.id] && r.cell in cells && !Shadowed(s, cells, r.id))
    || NewestIn(s.tiers, r.id, cells) == Some(Live(r))
  }

  // byid_current_rows: base rows without a delta row, plus newest delta rows not deleted.
  predicate InByIdRead(s: Store, r: Row) {
    || (r.id in s.base && r == s.base[r.id] && Newest(s.tiers, r.id).None?)
    || Newest(s.tiers, r.id) == Some(Live(r))
  }

  // ---- the reads, on the tier maps themselves -----------------------------------------------------

  // Among the first k tiers none has a live row of the id in the cells, nor a deleted row that was
  // in one of them.
  predicate NoneAbove(tiers: seq<Tier>, id: int, k: nat, cells: set<Cell>)
    requires k <= |tiers|
  {
    forall j :: 0 <= j < k && id in tiers[j].rows ==>
      match tiers[j].rows[id]
      case Live(row) => row.cell !in cells
      case Deleted(Some(c)) => c !in cells
      case Deleted(None) => true
  }

  // A tombstone of the id in the cells, in a store where some tier has a file.
  predicate HasTombstone(tiers: seq<Tier>, id: int, cells: set<Cell>) {
    && (exists j :: 0 <= j < |tiers| && (tiers[j].rows != map[] || tiers[j].emptyFile))
    && exists j, t :: 0 <= j < |tiers| && t in tiers[j].tombstones && t.0 == id && t.1 in cells
  }

  lemma BuriedByTombstone(tiers: seq<Tier>, id: int, cells: set<Cell>)
    ensures Buried(tiers, id, cells) <==> HasTombstone(tiers, id, cells)
  {
    if j :| 0 <= j < |tiers| && (tiers[j].rows != map[] || tiers[j].emptyFile) { assert tiers[j].HasFile(); }
    if j, t :| 0 <= j < |tiers| && t in tiers[j].tombstones && t.0 == id && t.1 in cells { assert t == (id, t.1); }
  }

  predicate LiveAt(tiers: seq<Tier>, r: Row, k: nat) {
    k < |tiers| && r.id in tiers[k].rows && tiers[k].rows[r.id] == Live(r)
  }

  lemma FirstInCells(tiers: seq<Tier>, id: int, cells: set<Cell>)
    ensures NewestIn(tiers, id, cells).None? <==> NoneAbove(tiers, id, |tiers|, cells)
  {
    if NewestIn(tiers, id, cells).Some? {
      var k := NewestInIsATierRow(tiers, id, cells);
    } else {
      forall k | 0 <= k < |tiers| && id in tiers[k].rows ensures !InCells(tiers[k].rows[id], cells) {
        if InCells(tiers[k].rows[id], cells) { SomeNewestIn(tiers, id, cells, k); }
      }
    }
  }

  lemma FirstLiveInCells(tiers: seq<Tier>, cells: set<Cell>, r: Row)
    ensures NewestIn(tiers, r.id, cells) == Some(Live(r))
      <==> r.cell in cells && exists k :: LiveAt(tiers, r, k) && NoneAbove(tiers, r.id, k, cells)
  {
    if NewestIn(tiers, r.id, cells) == Some(Live(r)) {
      var k := NewestInIsATierRow(tiers, r.id, cells);
      assert LiveAt(tiers, r, k) && NoneAbove(tiers, r.id, k, cells);
    }
    if k :| r.cell in cells && LiveAt(tiers, r, k) && NoneAbove(tiers, r.id, k, cells) {
      FirstMatchIsNewestIn(tiers, r.id, cells, k);
    }
  }

  // A read by cell returns the live row of the first tier with a row of the id in the cells, if that
  // is one; a base row in the cells only where no tier has such a row or a tombstone.
  lemma CellReadExactly(s: Store, cells: set<Cell>, r: Row)
    ensures InCellRead(s, cells, r)
      <==> && r.cell in cells
           && (|| (exists k :: LiveAt(s.tiers, r, k) && NoneAbove(s.tiers, r.id, k, cells))
               || (&& r.id in s.base && r == s.base[r.id]
                   && NoneAbove(s.tiers, r.id, |s.tiers|, cells) && !HasTombstone(s.tiers, r.id, cells)))
  {
    BuriedByTombstone(s.tiers, r.id, cells);
    FirstInCells(s.tiers, r.id, cells);
    FirstLiveInCells(s.tiers, cells, r);
  }

  // A read by id returns the row of the first tier that has one of the id, if it is live; the base
  // row only where no tier has one.
  lemma ByIdReadExactly(s: Store, r: Row)
    ensures InByIdRead(s, r)
      <==> || (exists k :: LiveAt(s.tiers, r, k) && forall j :: 0 <= j < k ==> r.id !in s.tiers[j].rows)
           || (r.id in s.base && r == s.base[r.id] && forall j :: 0 <= j < |s.tiers| ==> r.id !in s.tiers[j].rows)
  {
    SupersededIsNewest(s.tiers, r.id);
    if Newest(s.tiers, r.id).Some? {
      var k := NewestIsATierRow(s.tiers, r.id);
      assert s.tiers[k].rows[r.id] == Live(r) ==> LiveAt(s.tiers, r, k);
    }
    if k :| LiveAt(s.tiers, r, k) && forall j :: 0 <= j < k ==> r.id !in s.tiers[j].rows {
      FirstRowIsNewest(s.tiers, r.id, k);
    }
  }

  // A deletion in the highest tier that knows the element hides it: no read over cells containing
  // the deleted row's returns it, whatever lies below and with or without tombstones.
  lemma DeletedIsHidden(s: Store, cells: set<Cell>, k: nat, c: Cell, r: Row)
    requires k < |s.tiers| && r.id in s.tiers[k].rows && s.tiers[k].rows[r.id] == Deleted(Some(c)) && c in cells
    requires forall j :: 0 <= j < k ==> r.id !in s.tiers[j].rows
    ensures !InCellRead(s, cells, r) && !InByIdRead(s, r)
  {
    CellReadExactly(s, cells, r);
    ByIdReadExactly(s, r);
  }

  // ---- exactly when they agree ------------------------------------------------------------------------

  ghost predicate Agree(s: Store, id: int) {
    forall cells: set<Cell>, r: Row :: r.id == id ==>
      (InCellRead(s, cells, r) <==> InByIdRead(s, r) && r.cell in cells)
  }

  // Some tier above the k-th has a row of the id.
  predicate Superseded(tiers: seq<Tier>, id: int, k: nat)
    requires k <= |tiers|
  {
    exists j :: 0 <= j < k && id in tiers[j].rows
  }

  // Some tier above the k-th has a row of the id in the cell.
  predicate Covered(tiers: seq<Tier>, id: int, k: nat, c: Cell)
    requires k <= |tiers|
  {
    exists j :: 0 <= j < k && id in tiers[j].rows && CellOf(tiers[j].rows[id]) == Some(c)
  }

  // A live row that a higher tier supersedes is covered by a higher tier's row in its own cell.
  predicate OlderRowsCovered(tiers: seq<Tier>, id: int) {
    forall k :: 0 <= k < |tiers| && id in tiers[k].rows && tiers[k].rows[id].Live? && Superseded(tiers, id, k)
      ==> Covered(tiers, id, k, tiers[k].rows[id].row.cell)
  }

  // A base row that some tier supersedes has a tier row or a tombstone in its own cell.
  predicate SupersededBaseShadowed(s: Store, id: int) {
    id in s.base && Superseded(s.tiers, id, |s.tiers|) ==>
      || Covered(s.tiers, id, |s.tiers|, s.base[id].cell)
      || exists k :: 0 <= k < |s.tiers| && (id, s.base[id].cell) in s.tiers[k].tombstones
  }

  // No tombstone, in a store with a layer, for a base row that no tier supersedes.
  predicate NoStrayTombstone(s: Store, id: int) {
    id in s.base && !Superseded(s.tiers, id, |s.tiers|) && HasLayer(s.tiers) ==>
      forall k, t :: 0 <= k < |s.tiers| && t in s.tiers[k].tombstones ==> t.0 != id
  }

  predicate NothingStale(s: Store, id: int) {
    OlderRowsCovered(s.tiers, id) && SupersededBaseShadowed(s, id)
  }

  lemma {:induction false} NewestInIsATierRow(tiers: seq<Tier>, id: int, cells: set<Cell>) returns (k: nat)
    requires NewestIn(tiers, id, cells).Some?
    ensures k < |tiers| && id in tiers[k].rows && NewestIn(tiers, id, cells) == Some(tiers[k].rows[id])
    ensures InCells(tiers[k].rows[id], cells)
    ensures forall j :: 0 <= j < k && id in tiers[j].rows ==> !InCells(tiers[j].rows[id], cells)
  {
    if id in tiers[0].rows && InCells(tiers[0].rows[id], cells) {
      k := 0;
    } else {
      var i := NewestInIsATierRow(tiers[1..], id, cells);
      k := i + 1;
      assert forall j :: 0 < j < |tiers| ==> tiers[j] == tiers[1..][j - 1];
    }
  }

  lemma {:induction false} FirstMatchIsNewestIn(tiers: seq<Tier>, id: int, cells: set<Cell>, k: nat)
    requires k < |tiers| && id in tiers[k].rows && InCells(tiers[k].rows[id], cells)
    requires forall j :: 0 <= j < k && id in tiers[j].rows ==> !InCells(tiers[j].rows[id], cells)
    ensures NewestIn(tiers, id, cells) == Some(tiers[k].rows[id])
  {
    if k > 0 {
      assert forall j :: 0 < j < |tiers| ==> tiers[j] == tiers[1..][j - 1];
      FirstMatchIsNewestIn(tiers[1..], id, cells, k - 1);
    }
  }

  lemma {:induction false} NewestIsATierRow(tiers: seq<Tier>, id: int) returns (k: nat)
    requires Newest(tiers, id).Some?
    ensures k < |tiers| && id in tiers[k].rows && Newest(tiers, id) == Some(tiers[k].rows[id])
    ensures forall j :: 0 <= j < k ==> id !in tiers[j].rows
  {
    if id in tiers[0].rows {
      k := 0;
    } else {
      var i := NewestIsATierRow(tiers[1..], id);
      k := i + 1;
      assert forall j :: 0 < j < |tiers| ==> tiers[j] == tiers[1..][j - 1];
    }
  }

  lemma {:induction false} SomeRowSomeNewest(tiers: seq<Tier>, id: int, k: nat)
    requires k < |tiers| && id in tiers[k].rows
    ensures Newest(tiers, id).Some?
  {
    if k > 0 { SomeRowSomeNewest(tiers[1..], id, k - 1); }
  }

  lemma SupersededIsNewest(tiers: seq<Tier>, id: int)
    ensures Superseded(tiers, id, |tiers|) <==> Newest(tiers, id).Some?
  {
    if Newest(tiers, id).Some? { var k := NewestIsATierRow(tiers, id); }
    if k :| 0 <= k < |tiers| && id in tiers[k].rows { SomeRowSomeNewest(tiers, id, k); }
  }

  lemma CoveredIsNewestIn(tiers: seq<Tier>, id: int, c: Cell)
    ensures Covered(tiers, id, |tiers|, c) <==> NewestIn(tiers, id, {c}).Some?
  {
    if NewestIn(tiers, id, {c}).Some? { var k := NewestInIsATierRow(tiers, id, {c}); }
    if k :| 0 <= k < |tiers| && id in tiers[k].rows && CellOf(tiers[k].rows[id]) == Some(c) {
      SomeNewestIn(tiers, id, {c}, k);
    }
  }

  // The row of the first tier that has one is the newest.
  lemma {:induction false} FirstRowIsNewest(tiers: seq<Tier>, id: int, k: nat)
    requires k < |tiers| && id in tiers[k].rows && !Superseded(tiers, id, k)
    ensures Newest(tiers, id) == Some(tiers[k].rows[id])
  {
    if k > 0 {
      assert id !in tiers[0].rows;
      assert forall j :: 0 < j < |tiers| ==> tiers[j] == tiers[1..][j - 1];
      FirstRowIsNewest(tiers[1..], id, k - 1);
    }
  }

  // A superseded base row is shadowed, even when only its own cell is read, exactly when the
  // condition on it holds.
  lemma ShadowedInOwnCell(s: Store, id: int)
    requires id in s.base && Superseded(s.tiers, id, |s.tiers|)
    ensures Shadowed(s, {s.base[id].cell}, id) <==> SupersededBaseShadowed(s, id)
  {
    var c := s.base[id].cell;
    CoveredIsNewestIn(s.tiers, id, c);
    var j :| 0 <= j < |s.tiers| && id in s.tiers[j].rows;
    assert s.tiers[j].HasFile();
    assert HasLayer(s.tiers);
    if k :| 0 <= k < |s.tiers| && (id, c) in s.tiers[k].tombstones { assert Buried(s.tiers, id, {c}); }
  }

  // A candidate of a cell set is also the candidate of its own cell alone.
  lemma CandidateInOwnCell(tiers: seq<Tier>, id: int, cells: set<Cell>, d: DeltaRow)
    requires NewestIn(tiers, id, cells) == Some(d)
    ensures CellOf(d).Some? && CellOf(d).value in cells && NewestIn(tiers, id, {CellOf(d).value}) == Some(d)
    ensures Newest(tiers, id).Some?
  {
    var k := NewestInIsATierRow(tiers, id, cells);
    FirstMatchIsNewestIn(tiers, id, {CellOf(d).value}, k);
    SomeRowSomeNewest(tiers, id, k);
  }

  lemma NewestIsCandidateOfItsCells(tiers: seq<Tier>, id: int, cells: set<Cell>)
    requires Newest(tiers, id).Some? && InCells(Newest(tiers, id).value, cells)
    ensures NewestIn(tiers, id, cells) == Newest(tiers, id)
  {
    var k := NewestIsATierRow(tiers, id);
    FirstMatchIsNewestIn(tiers, id, cells, k);
  }

  lemma WiderCellsShadowMore(s: Store, id: int, narrow: set<Cell>, wide: set<Cell>)
    requires narrow <= wide && Shadowed(s, narrow, id)
    ensures Shadowed(s, wide, id)
  {
    if NewestIn(s.tiers, id, narrow).Some? {
      var k := NewestInIsATierRow(s.tiers, id, narrow);
      SomeNewestIn(s.tiers, id, wide, k);
    } else {
      var k, c :| 0 <= k < |s.tiers| && c in narrow && (id, c) in s.tiers[k].tombstones;
      assert c in wide;
    }
  }

  lemma {:induction false} SomeNewestIn(tiers: seq<Tier>, id: int, cells: set<Cell>, k: nat)
    requires k < |tiers| && id in tiers[k].rows && InCells(tiers[k].rows[id], cells)
    ensures NewestIn(tiers, id, cells).Some?
  {
    if k > 0 { SomeNewestIn(tiers[1..], id, cells, k - 1); }
  }

  // Whatever a cell read returns is current when the id is covered, tombstones aside.
  lemma CandidatesAreCurrent(s: Store, cells: set<Cell>, r: Row)
    requires OlderRowsCovered(s.tiers, r.id) && NewestIn(s.tiers, r.id, cells) == Some(Live(r))
    ensures Newest(s.tiers, r.id) == Some(Live(r)) && r.cell in cells
  {
    CandidateInOwnCell(s.tiers, r.id, cells, Live(r));
    var k := NewestInIsATierRow(s.tiers, r.id, {r.cell});
    assert s.tiers[k].rows[r.id] == Live(r);
    assert !Covered(s.tiers, r.id, k, r.cell);
    FirstRowIsNewest(s.tiers, r.id, k);
  }

  // A base row without delta rows is only hidden by a tombstone.
  lemma NoNewestNoCandidate(s: Store, cells: set<Cell>, id: int)
    requires Newest(s.tiers, id).None?
    ensures NewestIn(s.tiers, id, cells).None?
  {
    if NewestIn(s.tiers, id, cells).Some? {
      var k := NewestInIsATierRow(s.tiers, id, cells);
      SomeRowSomeNewest(s.tiers, id, k);
    }
  }

  lemma CellReadIsCurrent(s: Store, cells: set<Cell>, r: Row)
    requires NothingStale(s, r.id) && InCellRead(s, cells, r)
    ensures InByIdRead(s, r) && r.cell in cells
  {
    if NewestIn(s.tiers, r.id, cells) == Some(Live(r)) {
      CandidatesAreCurrent(s, cells, r);
    } else if Newest(s.tiers, r.id).Some? {
      SupersededIsNewest(s.tiers, r.id);
      ShadowedInOwnCell(s, r.id);
      WiderCellsShadowMore(s, r.id, {r.cell}, cells);
    }
  }

  lemma CurrentIsInCellRead(s: Store, cells: set<Cell>, r: Row)
    requires NoStrayTombstone(s, r.id) && InByIdRead(s, r) && r.cell in cells
    ensures InCellRead(s, cells, r)
  {
    SupersededIsNewest(s.tiers, r.id);
    if Newest(s.tiers, r.id).Some? {
      NewestIsCandidateOfItsCells(s.tiers, r.id, cells);
    } else {
      NoNewestNoCandidate(s, cells, r.id);
    }
  }

  // A stale row is really returned, for some cell set, when the conditions do not hold.
  lemma StaleCandidateIsRead(s: Store, id: int, k: nat)
    requires WellKeyed(s) && Agree(s, id)
    requires k < |s.tiers| && id in s.tiers[k].rows && s.tiers[k].rows[id].Live? && Superseded(s.tiers, id, k)
    ensures Covered(s.tiers, id, k, s.tiers[k].rows[id].row.cell)
  {
    var r := s.tiers[k].rows[id].row;
    if !Covered(s.tiers, id, k, r.cell) {
      FirstMatchIsNewestIn(s.tiers, id, {r.cell}, k);
      assert InCellRead(s, {r.cell}, r);
      SomeRowSomeNewest(s.tiers, id, k);
      assert Newest(s.tiers, id) == Some(Live(r));
      var j := NewestIsATierRow(s.tiers, id);
    }
  }

  lemma StrayTombstoneHides(s: Store, id: int, k: nat, t: (int, Cell))
    requires WellKeyed(s) && id in s.base && Newest(s.tiers, id).None? && HasLayer(s.tiers)
    requires k < |s.tiers| && t in s.tiers[k].tombstones && t.0 == id
    ensures !Agree(s, id)
  {
    var r := s.base[id];
    var cells := {r.cell, t.1};
    assert t == (id, t.1);
    assert Buried(s.tiers, id, cells);
    NoNewestNoCandidate(s, cells, id);
    assert !InCellRead(s, cells, r);
    assert InByIdRead(s, r) && r.cell in cells;
  }

  lemma UnshadowedBaseIsRead(s: Store, id: int)
    requires WellKeyed(s) && Agree(s, id) && id in s.base && Newest(s.tiers, id).Some?
    ensures Shadowed(s, {s.base[id].cell}, id)
  {
    var r := s.base[id];
    if !Shadowed(s, {r.cell}, id) {
      assert InCellRead(s, {r.cell}, r);
      assert InByIdRead(s, r);
      NewestIsCandidateOfItsCells(s.tiers, id, {r.cell});
    }
  }

  lemma AgreementIsClean(s: Store, id: int)
    requires WellKeyed(s) && Agree(s, id)
    ensures NothingStale(s, id) && NoStrayTombstone(s, id)
  {
    SupersededIsNewest(s.tiers, id);
    forall k | 0 <= k < |s.tiers| && id in s.tiers[k].rows && s.tiers[k].rows[id].Live? && Superseded(s.tiers, id, k)
      ensures Covered(s.tiers, id, k, s.tiers[k].rows[id].row.cell)
    {
      StaleCandidateIsRead(s, id, k);
    }
    if id in s.base && Superseded(s.tiers, id, |s.tiers|) {
      UnshadowedBaseIsRead(s, id);
      ShadowedInOwnCell(s, id);
    }
    forall k, t | 0 <= k < |s.tiers| && t in s.tiers[k].tombstones
      && id in s.base && !Superseded(s.tiers, id, |s.tiers|) && HasLayer(s.tiers)
      ensures t.0 != id
    {
      if t.0 == id { StrayTombstoneHides(s, id, k, t); }
    }
  }

  // For one id, reading by cell agrees with reading by id on every cell set exactly when: every
  // superseded live tier row is covered in its own cell, a superseded base row has a tier row or a
  // tombstone in its own cell, and a base row that is not superseded has no tombstone.
  lemma AgreementExactly(s: Store, id: int)
    requires WellKeyed(s)
    ensures Agree(s, id) <==> NothingStale(s, id) && NoStrayTombstone(s, id)
  {
    if NothingStale(s, id) && NoStrayTombstone(s, id) {
      forall cells: set<Cell>, r: Row | r.id == id
        ensures InCellRead(s, cells, r) <==> InByIdRead(s, r) && r.cell in cells
      {
        if InCellRead(s, cells, r) { CellReadIsCurrent(s, cells, r); }
        if InByIdRead(s, r) && r.cell in cells { CurrentIsInCellRead(s, cells, r); }
      }
    }
    if Agree(s, id) { AgreementIsClean(s, id); }
  }

  // An element created in cell "a" in the week tier and moved to cell "b" in the hour tier, with
  // the tombstone the move leaves: tombstones take rows away from the base only, so a read of
  // "a" still returns the week row.
  function MovedBetweenTiers(): Store {
    Store(map[], [Tier(map[1 := Live(Row(1, "b", [2]))], false, {(1, "a")}),
                  Tier(map[1 := Live(Row(1, "a", [1]))], false, {})])
  }

  lemma OlderTierRowIsReturned()
    ensures WellKeyed(MovedBetweenTiers()) && NoStrayTombstone(MovedBetweenTiers(), 1)
    ensures InCellRead(MovedBetweenTiers(), {"a"}, Row(1, "a", [1])) && !InByIdRead(MovedBetweenTiers(), Row(1, "a", [1]))
    ensures !Agree(MovedBetweenTiers(), 1)
  {
    var s := MovedBetweenTiers();
    assert "a"[0] != "b"[0];
    assert s.tiers[1..] == [s.tiers[1]];
    assert NewestIn(s.tiers, 1, {"a"}) == NewestIn(s.tiers[1..], 1, {"a"});
    assert InCellRead(s, {"a"}, Row(1, "a", [1]));
    assert Newest(s.tiers, 1) == Some(Live(Row(1, "b", [2])));
  }

  // ---- hydration with a bounding-box hint ----------------------------------------------------------------

  // The rows the hint finds: delta rows of the hinted cells, base rows of those hinted cells whose
  // files survive pruning.
  predicate Found(s: Store, cells: set<Cell>, kept: set<Cell>, r: Row) {
    InCellRead(s, cells, r) && (NewestIn(s.tiers, r.id, cells) == Some(Live(r)) || r.cell in kept)
  }

  // What the hint finds: live rows of the tiers as a read by cell gives them, whatever files were
  // kept; base rows only of kept files.
  lemma FoundExactly(s: Store, cells: set<Cell>, kept: set<Cell>, r: Row)
    ensures Found(s, cells, kept, r)
      <==> && InCellRead(s, cells, r)
           && ((exists k :: LiveAt(s.tiers, r, k) && NoneAbove(s.tiers, r.id, k, cells)) || r.cell in kept)
  {
    CellReadExactly(s, cells, r);
    FirstLiveInCells(s.tiers, cells, r);
  }

  // build_node_hydrate_via_bbox_select: what the hint finds, and by id what it does not.
  ghost predicate Hydrated(s: Store, ids: set<int>, cells: set<Cell>, kept: set<Cell>, r: Row) {
    && r.id in ids
    && (|| Found(s, cells, kept, r)
        || (InByIdRead(s, r) && !exists o: Row :: o.id == r.id && Found(s, cells, kept, o)))
  }

  lemma ByIdReadIsUnique(s: Store, a: Row, b: Row)
    requires a.id == b.id && InByIdRead(s, a) && InByIdRead(s, b)
    ensures a == b
  {
  }

  // Whatever the hint, hydration is a plain lookup by id; stray tombstones do no harm here.
  lemma HydrationIgnoresTheHint(s: Store, ids: set<int>, cells: set<Cell>, kept: set<Cell>, r: Row)
    requires forall id :: id in ids ==> NothingStale(s, id)
    ensures Hydrated(s, ids, cells, kept, r) <==> r.id in ids && InByIdRead(s, r)
  {
    if r.id in ids {
      if Found(s, cells, kept, r) { CellReadIsCurrent(s, cells, r); }
      if InByIdRead(s, r) && !Found(s, cells, kept, r) {
        forall o: Row | o.id == r.id && Found(s, cells, kept, o) ensures false {
          CellReadIsCurrent(s, cells, o);
          ByIdReadIsUnique(s, o, r);
        }
      }
    }
  }

  // One id, whatever the hint finds and keeps.
  ghost predicate HintIsHarmless(s: Store, id: int) {
    forall cells: set<Cell>, kept: set<Cell>, r: Row ::
      r.id == id ==> (Hydrated(s, {id}, cells, kept, r) <==> InByIdRead(s, r))
  }

  // A stale row found by the hint is returned by the hydration.
  lemma StaleIsHydrated(s: Store, r: Row)
    requires HintIsHarmless(s, r.id) && InCellRead(s, {r.cell}, r)
    ensures InByIdRead(s, r)
  {
    assert Found(s, {r.cell}, {r.cell}, r);
    assert Hydrated(s, {r.id}, {r.cell}, {r.cell}, r);
  }

  lemma HarmlessRowsAreCovered(s: Store, id: int, k: nat)
    requires WellKeyed(s) && HintIsHarmless(s, id)
    requires k < |s.tiers| && id in s.tiers[k].rows && s.tiers[k].rows[id].Live? && Superseded(s.tiers, id, k)
    ensures Covered(s.tiers, id, k, s.tiers[k].rows[id].row.cell)
  {
    var r := s.tiers[k].rows[id].row;
    if !Covered(s.tiers, id, k, r.cell) {
      FirstMatchIsNewestIn(s.tiers, id, {r.cell}, k);
      StaleIsHydrated(s, r);
      SomeRowSomeNewest(s.tiers, id, k);
      assert Newest(s.tiers, id) == Some(Live(r));
      var j := NewestIsATierRow(s.tiers, id);
    }
  }

  lemma HarmlessBaseIsShadowed(s: Store, id: int)
    requires WellKeyed(s) && HintIsHarmless(s, id) && id in s.base && Superseded(s.tiers, id, |s.tiers|)
    ensures SupersededBaseShadowed(s, id)
  {
    var r := s.base[id];
    SupersededIsNewest(s.tiers, id);
    ShadowedInOwnCell(s, id);
    if !Shadowed(s, {r.cell}, id) {
      StaleIsHydrated(s, r);
      NewestIsCandidateOfItsCells(s.tiers, id, {r.cell});
    }
  }

  // Hydration of an id is a plain lookup by id, for every hint, exactly when nothing stale of it is
  // exposed.
  lemma HydrationIgnoresTheHintExactly(s: Store, id: int)
    requires WellKeyed(s)
    ensures HintIsHarmless(s, id) <==> NothingStale(s, id)
  {
    if NothingStale(s, id) {
      forall cells: set<Cell>, kept: set<Cell>, r: Row | r.id == id
        ensures Hydrated(s, {id}, cells, kept, r) <==> InByIdRead(s, r)
      {
        HydrationIgnoresTheHint(s, {id}, cells, kept, r);
      }
    }
    if HintIsHarmless(s, id) {
      forall k | 0 <= k < |s.tiers| && id in s.tiers[k].rows && s.tiers[k].rows[id].Live? && Superseded(s.tiers, id, k)
        ensures Covered(s.tiers, id, k, s.tiers[k].rows[id].row.cell)
      {
        HarmlessRowsAreCovered(s, id, k);
      }
      if id in s.base && Superseded(s.tiers, id, |s.tiers|) { HarmlessBaseIsShadowed(s, id); }
    }
  }
}
