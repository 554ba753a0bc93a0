/** The extent rule over a whole history: the set-based filter by first known time, and the
    sequential rule it stands for (src/osmpq/history/ingest.py:228-383). */
module Ingest {
  import opened Options

  // One version of an element; inside says a node has a position in the extent. Nodes have no
  // members, ways have node members only.
  datatype Version = Version(id: int, version: int, ord: nat, ts: int, visible: bool, inside: bool,
                             nodes: set<int>, ways: set<int>, relations: set<int>)

  datatype Tables = Tables(nodes: set<Version>, ways: set<Version>, relations: set<Version>)

  // ---- keeping the last-seen row of each version ----------------------------------------------

  function Dedup(rows: set<Version>): set<Version> {
    set r | r in rows && forall s :: s in rows && s.id == r.id && s.version == r.version ==> s.ord <= r.ord
  }

  // Read positions are distinct, so each (id, version) in the input keeps exactly one row.
  lemma {:induction false} DedupKeepsOneRow(rows: set<Version>, r: Version)
    requires r in rows
    requires forall s, t :: s in rows && t in rows && s.ord == t.ord ==> s == t
    ensures exists s :: s in Dedup(rows) && s.id == r.id && s.version == r.version && s.ord >= r.ord
    ensures forall s, t :: s in Dedup(rows) && t in Dedup(rows) && s.id == t.id && s.version == t.version ==> s == t
    decreases set s | s in rows && s.ord > r.ord
  {
    if r !in Dedup(rows) {
      var s :| s in rows && s.id == r.id && s.version == r.version && s.ord > r.ord;
      var later := set u | u in rows && u.ord > s.ord;
      assert s !in later && s in (set u | u in rows && u.ord > r.ord);
      assert later <= (set u | u in rows && u.ord > r.ord);
      DedupKeepsOneRow(rows, s);
    }
  }

  // ---- the set-based filter -------------------------------------------------------------------

  // Among the rows that make their own id known, the least timestamp of an id.
  function FirstKnown(makers: set<Version>, id: int): (first: Option<int>)
    ensures first.None? ==> forall v :: v in makers ==> v.id != id
    ensures first.Some? ==> exists v :: v in makers && v.id == id && v.ts == first.value
    ensures first.Some? ==> forall v :: v in makers && v.id == id ==> first.value <= v.ts
  {
    var times := set v | v in makers && v.id == id :: v.ts;
    assert forall v :: v in makers && v.id == id ==> v.ts in times;
    if times == {} then None
    else
      assert exists m :: m in times && forall t :: t in times ==> m <= t by {
        var v :| v in makers && v.id == id;
        SetHasMin(times, v.ts);
      }
      var m :| m in times && forall t :: t in times ==> m <= t;
      Some(m)
  }

  lemma {:induction false} SetHasMin(s: set<int>, x: int)
    requires x in s
    ensures exists m :: m in s && forall t :: t in s ==> m <= t
  {
    var rest := s - {x};
    assert forall t :: t in s <==> t == x || t in rest;
    if forall t :: t in rest ==> x <= t {
      assert x in s && forall t :: t in s ==> x <= t;
    } else {
      var y :| y in rest && y < x;
      SetHasMin(rest, y);
      var m :| m in rest && forall t :: t in rest ==> m <= t;
      var least := if x < m then x else m;
      assert least in s && forall t :: t in s ==> least <= t;
    }
  }

  predicate Known(makers: set<Version>, id: int, t: int) {
    FirstKnown(makers, id).Some? && FirstKnown(makers, id).value <= t
  }

  predicate AnyKnown(makers: set<Version>, refs: set<int>, t: int) {
    exists r :: r in refs && Known(makers, r, t)
  }

  function NodeMakers(h: Tables): set<Version> {
    set v | v in h.nodes && v.visible && v.inside
  }

  function WayMakers(h: Tables): set<Version> {
    set v | v in h.ways && v.visible && AnyKnown(NodeMakers(h), v.nodes, v.ts)
  }

  // One pass over the relations, with the relation members made known by the pass before.
  function RelationPass(h: Tables, nested: set<Version>): set<Version> {
    set v | v in h.relations && v.visible &&
      (AnyKnown(NodeMakers(h), v.nodes, v.ts) || AnyKnown(WayMakers(h), v.ways, v.ts)
       || AnyKnown(nested, v.relations, v.ts))
  }

  function RelationMakers(h: Tables, passes: nat): set<Version> {
    if passes == 0 then {} else RelationPass(h, RelationMakers(h, passes - 1))
  }

  function Since(rows: set<Version>, makers: set<Version>): set<Version> {
    set v | v in rows && Known(makers, v.id, v.ts)
  }

  // The filter runs two relation passes: members that are relations count one level deep.
  function Filtered(h: Tables): Tables {
    Tables(Since(h.nodes, NodeMakers(h)), Since(h.ways, WayMakers(h)), Since(h.relations, RelationMakers(h, 2)))
  }

  // ---- the sequential rule --------------------------------------------------------------------

  // The ids known so far; direct are the relations known by a node or way member.
  datatype Memory = Memory(nodes: set<int>, ways: set<int>, direct: set<int>, relations: set<int>)

  predicate Meets(refs: set<int>, known: set<int>) { exists r :: r in refs && r in known }

  // Everything stamped t arrives together: nodes first, then ways, then relations.
  function Arrive(h: Tables, k: Memory, t: int): Memory {
    var nodes := k.nodes + set v | v in h.nodes && v.ts == t && v.visible && v.inside :: v.id;
    var ways := k.ways + set v | v in h.ways && v.ts == t && v.visible && Meets(v.nodes, nodes) :: v.id;
    var direct := k.direct + set v | v in h.relations && v.ts == t && v.visible
      && (Meets(v.nodes, nodes) || Meets(v.ways, ways)) :: v.id;
    var relations := k.relations + set v | v in h.relations && v.ts == t && v.visible
      && (Meets(v.nodes, nodes) || Meets(v.ways, ways) || Meets(v.relations, direct)) :: v.id;
    Memory(nodes, ways, direct, relations)
  }

  function At(rows: set<Version>, t: int, known: set<int>): set<Version> {
    set v | v in rows && v.ts == t && v.id in known
  }

  function Scan(h: Tables, times: seq<int>, k: Memory): Tables {
    if times == [] then Tables({}, {}, {})
    else
      var now := Arrive(h, k, times[0]);
      var later := Scan(h, times[1..], now);
      Tables(At(h.nodes, times[0], now.nodes) + later.nodes, At(h.ways, times[0], now.ways) + later.ways,
             At(h.relations, times[0], now.relations) + later.relations)
  }

  // ---- the two agree --------------------------------------------------------------------------

  lemma KnownMeansMade(makers: set<Version>, id: int, t: int)
    ensures Known(makers, id, t) <==> exists v :: v in makers && v.id == id && v.ts <= t
  {
  }

  // The memory after every row up to a time.
  ghost predicate UpTo(known: set<int>, makers: set<Version>, t: int) {
    forall id :: id in known <==> Known(makers, id, t)
  }

  lemma MeetsIsAnyKnown(refs: set<int>, known: set<int>, makers: set<Version>, t: int)
    requires UpTo(known, makers, t)
    ensures Meets(refs, known) <==> AnyKnown(makers, refs, t)
  {
    if Meets(refs, known) {
      var r :| r in refs && r in known;
      assert Known(makers, r, t);
    }
  }

  // One more moment: the ids made known at t join those known before.
  lemma OneMoment(before: set<int>, after: set<int>, makers: set<Version>, rows: set<Version>, last: int, t: int)
    requires UpTo(before, makers, last) && makers <= rows && last < t
    requires forall v :: v in rows ==> v.ts <= last || v.ts >= t
    requires forall id :: id in after <==> id in before || exists v :: v in makers && v.id == id && v.ts == t
    ensures UpTo(after, makers, t)
  {
    forall id ensures id in after <==> Known(makers, id, t) {
      KnownMeansMade(makers, id, t);
      KnownMeansMade(makers, id, last);
    }
  }

  ghost predicate Remembers(h: Tables, k: Memory, t: int) {
    && UpTo(k.nodes, NodeMakers(h), t) && UpTo(k.ways, WayMakers(h), t)
    && UpTo(k.direct, RelationMakers(h, 1), t) && UpTo(k.relations, RelationMakers(h, 2), t)
  }

  ghost predicate Quiet(h: Tables, last: int, t: int) {
    && last < t
    && (forall v :: v in h.nodes ==> v.ts <= last || v.ts >= t)
    && (forall v :: v in h.ways ==> v.ts <= last || v.ts >= t)
    && (forall v :: v in h.relations ==> v.ts <= last || v.ts >= t)
  }

  lemma NodesArrive(h: Tables, k: Memory, last: int, t: int)
    requires Remembers(h, k, last) && Quiet(h, last, t)
    ensures UpTo(Arrive(h, k, t).nodes, NodeMakers(h), t)
  {
    OneMoment(k.nodes, Arrive(h, k, t).nodes, NodeMakers(h), h.nodes, last, t);
  }

  lemma WaysArrive(h: Tables, k: Memory, last: int, t: int)
    requires Remembers(h, k, last) && Quiet(h, last, t)
    ensures UpTo(Arrive(h, k, t).ways, WayMakers(h), t)
  {
    NodesArrive(h, k, last, t);
    var nodes := Arrive(h, k, t).nodes;
    forall v | v in h.ways ensures Meets(v.nodes, nodes) <==> AnyKnown(NodeMakers(h), v.nodes, t) {
      MeetsIsAnyKnown(v.nodes, nodes, NodeMakers(h), t);
    }
    OneMoment(k.ways, Arrive(h, k, t).ways, WayMakers(h), h.ways, last, t);
  }

  lemma MembersArrive(h: Tables, k: Memory, last: int, t: int, v: Version)
    requires Remembers(h, k, last) && Quiet(h, last, t)
    ensures Meets(v.nodes, Arrive(h, k, t).nodes) <==> AnyKnown(NodeMakers(h), v.nodes, t)
    ensures Meets(v.ways, Arrive(h, k, t).ways) <==> AnyKnown(WayMakers(h), v.ways, t)
  {
    NodesArrive(h, k, last, t);
    WaysArrive(h, k, last, t);
    MeetsIsAnyKnown(v.nodes, Arrive(h, k, t).nodes, NodeMakers(h), t);
    MeetsIsAnyKnown(v.ways, Arrive(h, k, t).ways, WayMakers(h), t);
  }

  lemma DirectRelationsArrive(h: Tables, k: Memory, last: int, t: int)
    requires Remembers(h, k, last) && Quiet(h, last, t)
    ensures UpTo(Arrive(h, k, t).direct, RelationMakers(h, 1), t)
  {
    assert RelationMakers(h, 1) == RelationPass(h, {});
    forall v | v in h.relations
      ensures (Meets(v.nodes, Arrive(h, k, t).nodes) || Meets(v.ways, Arrive(h, k, t).ways)) && v.visible && v.ts == t
        <==> v in RelationMakers(h, 1) && v.ts == t
    {
      MembersArrive(h, k, last, t, v);
      assert !AnyKnown({}, v.relations, v.ts);
    }
    OneMoment(k.direct, Arrive(h, k, t).direct, RelationMakers(h, 1), h.relations, last, t);
  }

  lemma RelationsArrive(h: Tables, k: Memory, last: int, t: int)
    requires Remembers(h, k, last) && Quiet(h, last, t)
    ensures UpTo(Arrive(h, k, t).relations, RelationMakers(h, 2), t)
  {
    DirectRelationsArrive(h, k, last, t);
    var now := Arrive(h, k, t);
    assert RelationMakers(h, 2) == RelationPass(h, RelationMakers(h, 1));
    forall v | v in h.relations
      ensures (Meets(v.nodes, now.nodes) || Meets(v.ways, now.ways) || Meets(v.relations, now.direct)) && v.visible && v.ts == t
        <==> v in RelationMakers(h, 2) && v.ts == t
    {
      MembersArrive(h, k, last, t, v);
      MeetsIsAnyKnown(v.relations, now.direct, RelationMakers(h, 1), t);
    }
    OneMoment(k.relations, now.relations, RelationMakers(h, 2), h.relations, last, t);
  }

  // The rows of a table still to come after a time.
  function After(rows: set<Version>, t: int): set<Version> { set v | v in rows && v.ts > t }

  predicate Ascending(times: seq<int>) { forall i, j :: 0 <= i < j < |times| ==> times[i] < times[j] }

  ghost predicate AllLater(rows: set<Version>, last: int, times: seq<int>) {
    forall v :: v in rows && v.ts > last ==> v.ts in times
  }

  lemma KeptFrom(rows: set<Version>, makers: set<Version>, known: set<int>, last: int, t: int)
    requires last < t && UpTo(known, makers, t)
    requires forall v :: v in rows ==> v.ts <= last || v.ts >= t
    ensures After(Since(rows, makers), last) == At(rows, t, known) + After(Since(rows, makers), t)
  {
  }

  lemma {:induction false} ScanIsFilterAfter(h: Tables, times: seq<int>, k: Memory, last: int)
    requires Ascending(times) && forall i :: 0 <= i < |times| ==> last < times[i]
    requires AllLater(h.nodes, last, times) && AllLater(h.ways, last, times) && AllLater(h.relations, last, times)
    requires Remembers(h, k, last)
    ensures Scan(h, times, k).nodes == After(Filtered(h).nodes, last)
    ensures Scan(h, times, k).ways == After(Filtered(h).ways, last)
    ensures Scan(h, times, k).relations == After(Filtered(h).relations, last)
  {
    if times != [] {
      var t := times[0];
      var now := Arrive(h, k, t);
      assert forall x :: x in times ==> x == t || x in times[1..];
      assert Quiet(h, last, t);
      NodesArrive(h, k, last, t);
      WaysArrive(h, k, last, t);
      DirectRelationsArrive(h, k, last, t);
      RelationsArrive(h, k, last, t);
      ScanIsFilterAfter(h, times[1..], now, t);
      KeptFrom(h.nodes, NodeMakers(h), now.nodes, last, t);
      KeptFrom(h.ways, WayMakers(h), now.ways, last, t);
      KeptFrom(h.relations, RelationMakers(h, 2), now.relations, last, t);
    }
  }

  // Main result: the filter by first known time keeps exactly what the scan in time order keeps.
  lemma FilterIsSequential(h: Tables, times: seq<int>)
    requires Ascending(times)
    requires forall v :: v in h.nodes || v in h.ways || v in h.relations ==> v.ts in times
    ensures Scan(h, times, Memory({}, {}, {}, {})) == Filtered(h)
  {
    var last := if times == [] then 0 else times[0] - 1;
    if times == [] {
      assert forall v :: v !in h.nodes && v !in h.ways && v !in h.relations;
    }
    assert forall v :: v in h.nodes || v in h.ways || v in h.relations ==> v.ts > last;
    ScanIsFilterAfter(h, times, Memory({}, {}, {}, {}), last);
  }

  // ---- nesting deeper than one level ----------------------------------------------------------

  // The rule without a limit on nesting: some chain of members reaches a known node or way.
  ghost predicate EverKnown(h: Tables, id: int, t: int) {
    exists k: nat :: Known(RelationMakers(h, k), id, t)
  }

  lemma {:induction false} MorePassesKnowMore(h: Tables, k: nat)
    ensures RelationMakers(h, k) <= RelationMakers(h, k + 1)
  {
    if k > 0 {
      MorePassesKnowMore(h, k - 1);
      forall v | v in RelationMakers(h, k) ensures v in RelationMakers(h, k + 1) {
        if AnyKnown(RelationMakers(h, k - 1), v.relations, v.ts) {
          var r :| r in v.relations && Known(RelationMakers(h, k - 1), r, v.ts);
          KnownMeansMade(RelationMakers(h, k - 1), r, v.ts);
          KnownMeansMade(RelationMakers(h, k), r, v.ts);
        }
      }
    }
  }

  // What is kept determines what is known when.
  lemma KeptDeterminesKnown(rows: set<Version>, a: set<Version>, b: set<Version>, id: int, t: int)
    requires a <= rows && b <= rows && Since(rows, a) == Since(rows, b)
    ensures Known(a, id, t) <==> Known(b, id, t)
  {
    KnownMeansMade(a, id, t);
    KnownMeansMade(b, id, t);
    forall v | v in a ensures v in Since(rows, b) { KnownMeansMade(a, v.id, v.ts); }
    forall v | v in b ensures v in Since(rows, a) { KnownMeansMade(b, v.id, v.ts); }
  }

  lemma {:induction false} SettledStaysSettled(h: Tables, k: nat)
    requires Since(h.relations, RelationMakers(h, 2)) == Since(h.relations, RelationMakers(h, 3))
    requires k >= 2
    ensures Since(h.relations, RelationMakers(h, k)) == Since(h.relations, RelationMakers(h, 2))
  {
    if k > 2 {
      SettledStaysSettled(h, k - 1);
      var a, b := RelationMakers(h, k - 1), RelationMakers(h, 2);
      forall v | v in h.relations ensures AnyKnown(a, v.relations, v.ts) <==> AnyKnown(b, v.relations, v.ts) {
        forall r | r in v.relations ensures Known(a, r, v.ts) <==> Known(b, r, v.ts) {
          KeptDeterminesKnown(h.relations, a, b, r, v.ts);
        }
      }
      assert RelationMakers(h, k) == RelationPass(h, a) == RelationPass(h, b) == RelationMakers(h, 3);
    }
  }

  lemma MorePassesKeepMore(h: Tables, k: nat, n: nat, id: int, t: int)
    requires k <= n && Known(RelationMakers(h, k), id, t)
    ensures Known(RelationMakers(h, n), id, t)
    decreases n - k
  {
    if k < n {
      MorePassesKnowMore(h, k);
      KnownMeansMade(RelationMakers(h, k), id, t);
      KnownMeansMade(RelationMakers(h, k + 1), id, t);
      MorePassesKeepMore(h, k + 1, n, id, t);
    }
  }

  lemma SettledIsAll(h: Tables, v: Version, k: nat)
    requires Since(h.relations, RelationMakers(h, 2)) == Since(h.relations, RelationMakers(h, 3))
    requires v in h.relations && Known(RelationMakers(h, k), v.id, v.ts)
    ensures v in Since(h.relations, RelationMakers(h, 2))
  {
    if k >= 2 {
      SettledStaysSettled(h, k);
      assert v in Since(h.relations, RelationMakers(h, k));
    } else {
      MorePassesKeepMore(h, k, 2, v.id, v.ts);
    }
  }

  // The step to unlimited nesting: two passes keep what all passes keep exactly when the third pass
  // keeps no further version.
  lemma ThirdPassDecides(h: Tables)
    ensures (forall v :: v in h.relations ==> (EverKnown(h, v.id, v.ts) <==> v in Filtered(h).relations))
       <==> Since(h.relations, RelationMakers(h, 3)) == Since(h.relations, RelationMakers(h, 2))
  {
    var two, three := Since(h.relations, RelationMakers(h, 2)), Since(h.relations, RelationMakers(h, 3));
    if two == three {
      forall v, k: nat | v in h.relations && Known(RelationMakers(h, k), v.id, v.ts) ensures v in two {
        SettledIsAll(h, v, k);
      }
    } else {
      forall v | v in two ensures v in three { MorePassesKeepMore(h, 2, 3, v.id, v.ts); }
      var v :| v in three && v !in two;
      assert EverKnown(h, v.id, v.ts) && v !in Filtered(h).relations;
    }
  }

  // ---- the condition on the rows themselves ---------------------------------------------------

  predicate NodeSeen(h: Tables, id: int, t: int) {
    exists v :: v in h.nodes && v.id == id && v.visible && v.inside && v.ts <= t
  }

  predicate HasSeenNode(h: Tables, v: Version) { exists n :: n in v.nodes && NodeSeen(h, n, v.ts) }

  predicate WaySeen(h: Tables, id: int, t: int) {
    exists v :: v in h.ways && v.id == id && v.visible && v.ts <= t && HasSeenNode(h, v)
  }

  predicate HasSeenWay(h: Tables, v: Version) { exists w :: w in v.ways && WaySeen(h, w, v.ts) }

  // By t, a version of the relation has had a node in the extent or a way with one.
  predicate Direct(h: Tables, id: int, t: int) {
    exists v :: v in h.relations && v.id == id && v.visible && v.ts <= t && (HasSeenNode(h, v) || HasSeenWay(h, v))
  }

  predicate HasDirect(h: Tables, v: Version) { exists r :: r in v.relations && Direct(h, r, v.ts) }

  // By t, a version of the relation has had a direct relation as a member.
  predicate OneDeep(h: Tables, id: int, t: int) {
    exists v :: v in h.relations && v.id == id && v.visible && v.ts <= t && HasDirect(h, v)
  }

  // No relation depends on a deeper chain: whoever has a member that is known through a member of
  // its own is itself known by then, directly or one level deep.
  predicate NoDeeperNesting(h: Tables) {
    forall v, r :: v in h.relations && v.visible && r in v.relations && OneDeep(h, r, v.ts)
      ==> Direct(h, v.id, v.ts) || OneDeep(h, v.id, v.ts)
  }

  lemma NodeSeenIsKnown(h: Tables, id: int, t: int)
    ensures NodeSeen(h, id, t) <==> Known(NodeMakers(h), id, t)
  {
    KnownMeansMade(NodeMakers(h), id, t);
  }

  lemma SeenNodesAreKnown(h: Tables, v: Version)
    ensures HasSeenNode(h, v) <==> AnyKnown(NodeMakers(h), v.nodes, v.ts)
  {
    forall n ensures NodeSeen(h, n, v.ts) <==> Known(NodeMakers(h), n, v.ts) { NodeSeenIsKnown(h, n, v.ts); }
  }

  lemma WaySeenIsKnown(h: Tables, id: int, t: int)
    ensures WaySeen(h, id, t) <==> Known(WayMakers(h), id, t)
  {
    KnownMeansMade(WayMakers(h), id, t);
    forall v | v in h.ways ensures HasSeenNode(h, v) <==> AnyKnown(NodeMakers(h), v.nodes, v.ts) {
      SeenNodesAreKnown(h, v);
    }
  }

  lemma SeenWaysAreKnown(h: Tables, v: Version)
    ensures HasSeenWay(h, v) <==> AnyKnown(WayMakers(h), v.ways, v.ts)
  {
    forall w ensures WaySeen(h, w, v.ts) <==> Known(WayMakers(h), w, v.ts) { WaySeenIsKnown(h, w, v.ts); }
  }

  lemma FirstPassRows(h: Tables, v: Version)
    ensures v in RelationMakers(h, 1) <==> v in h.relations && v.visible && (HasSeenNode(h, v) || HasSeenWay(h, v))
  {
    SeenNodesAreKnown(h, v);
    SeenWaysAreKnown(h, v);
    assert RelationMakers(h, 1) == RelationPass(h, {});
    assert !AnyKnown({}, v.relations, v.ts);
  }

  lemma DirectIsKnown(h: Tables, id: int, t: int)
    ensures Direct(h, id, t) <==> Known(RelationMakers(h, 1), id, t)
  {
    KnownMeansMade(RelationMakers(h, 1), id, t);
    forall v ensures v in RelationMakers(h, 1)
      <==> v in h.relations && v.visible && (HasSeenNode(h, v) || HasSeenWay(h, v)) { FirstPassRows(h, v); }
  }

  lemma DirectMembersAreKnown(h: Tables, v: Version)
    ensures HasDirect(h, v) <==> AnyKnown(RelationMakers(h, 1), v.relations, v.ts)
  {
    forall r ensures Direct(h, r, v.ts) <==> Known(RelationMakers(h, 1), r, v.ts) { DirectIsKnown(h, r, v.ts); }
  }

  lemma SecondPassRows(h: Tables, v: Version)
    ensures v in RelationMakers(h, 2)
       <==> v in RelationMakers(h, 1) || (v in h.relations && v.visible && HasDirect(h, v))
  {
    FirstPassRows(h, v);
    SeenNodesAreKnown(h, v);
    SeenWaysAreKnown(h, v);
    DirectMembersAreKnown(h, v);
    assert RelationMakers(h, 2) == RelationPass(h, RelationMakers(h, 1));
  }

  lemma OneDeepIsKnown(h: Tables, id: int, t: int)
    ensures Direct(h, id, t) || OneDeep(h, id, t) <==> Known(RelationMakers(h, 2), id, t)
  {
    KnownMeansMade(RelationMakers(h, 1), id, t);
    KnownMeansMade(RelationMakers(h, 2), id, t);
    DirectIsKnown(h, id, t);
    forall v ensures v in RelationMakers(h, 2)
      <==> v in RelationMakers(h, 1) || (v in h.relations && v.visible && HasDirect(h, v)) { SecondPassRows(h, v); }
  }

  // A version is in the third pass when it is in the second, or has a member the second made known.
  lemma ThirdPassRows(h: Tables, v: Version)
    ensures v in RelationMakers(h, 3)
       <==> v in RelationMakers(h, 1) || (v in h.relations && v.visible && AnyKnown(RelationMakers(h, 2), v.relations, v.ts))
  {
    FirstPassRows(h, v);
    SeenNodesAreKnown(h, v);
    SeenWaysAreKnown(h, v);
    assert RelationMakers(h, 3) == RelationPass(h, RelationMakers(h, 2));
  }

  lemma DeepMemberKeepsNothingNew(h: Tables, v: Version)
    requires NoDeeperNesting(h) && v in RelationMakers(h, 3)
    ensures Known(RelationMakers(h, 2), v.id, v.ts)
  {
    ThirdPassRows(h, v);
    OneDeepIsKnown(h, v.id, v.ts);
    if v in RelationMakers(h, 1) {
      SecondPassRows(h, v);
      KnownMeansMade(RelationMakers(h, 2), v.id, v.ts);
    } else {
      var r :| r in v.relations && Known(RelationMakers(h, 2), r, v.ts);
      OneDeepIsKnown(h, r, v.ts);
      if Direct(h, r, v.ts) {
        assert HasDirect(h, v);
        assert OneDeep(h, v.id, v.ts);
      }
    }
  }

  lemma ThirdPassAddsNothing(h: Tables)
    requires NoDeeperNesting(h)
    ensures Since(h.relations, RelationMakers(h, 3)) == Since(h.relations, RelationMakers(h, 2))
  {
    var two, three := RelationMakers(h, 2), RelationMakers(h, 3);
    MorePassesKnowMore(h, 2);
    forall v | v in h.relations ensures Known(three, v.id, v.ts) <==> Known(two, v.id, v.ts) {
      KnownMeansMade(two, v.id, v.ts);
      KnownMeansMade(three, v.id, v.ts);
      if Known(three, v.id, v.ts) {
        var u :| u in three && u.id == v.id && u.ts <= v.ts;
        DeepMemberKeepsNothingNew(h, u);
        KnownMeansMade(two, u.id, u.ts);
      }
    }
  }

  // Exactly when one level of nesting is enough, as a condition on the versions read: no relation
  // is known through a chain of two relations before it is known through one or none.
  lemma OneLevelSufficesExactly(h: Tables)
    ensures (forall v :: v in h.relations ==> (EverKnown(h, v.id, v.ts) <==> v in Filtered(h).relations))
       <==> NoDeeperNesting(h)
  {
    ThirdPassDecides(h);
    var two, three := RelationMakers(h, 2), RelationMakers(h, 3);
    if NoDeeperNesting(h) {
      ThirdPassAddsNothing(h);
    } else {
      var v, r :| v in h.relations && v.visible && r in v.relations && OneDeep(h, r, v.ts)
        && !(Direct(h, v.id, v.ts) || OneDeep(h, v.id, v.ts));
      OneDeepIsKnown(h, r, v.ts);
      OneDeepIsKnown(h, v.id, v.ts);
      ThirdPassRows(h, v);
      KnownMeansMade(three, v.id, v.ts);
      assert v in Since(h.relations, three) && v !in Since(h.relations, two);
    }
  }

  // Three relations, each a member of the next, around one node.
  const NODE := Version(1, 1, 0, 10, true, true, {}, {}, {})
  const INNER := Version(1, 1, 1, 10, true, false, {1}, {}, {})
  const MIDDLE := Version(2, 1, 2, 10, true, false, {}, {}, {1})
  const OUTER := Version(3, 1, 3, 10, true, false, {}, {}, {2})
  const CHAIN := Tables({NODE}, {}, {INNER, MIDDLE, OUTER})

  lemma ChainPass(nested: set<Version>)
    ensures INNER in RelationPass(CHAIN, nested)
    ensures MIDDLE in RelationPass(CHAIN, nested) <==> Known(nested, 1, 10)
    ensures OUTER in RelationPass(CHAIN, nested) <==> Known(nested, 2, 10)
    ensures RelationPass(CHAIN, nested) <= CHAIN.relations
  {
    assert NODE in NodeMakers(CHAIN);
    KnownMeansMade(NodeMakers(CHAIN), 1, 10);
    assert 1 in INNER.nodes && AnyKnown(NodeMakers(CHAIN), INNER.nodes, 10);
    assert 1 in MIDDLE.relations && (AnyKnown(nested, MIDDLE.relations, 10) <==> Known(nested, 1, 10));
    assert 2 in OUTER.relations && (AnyKnown(nested, OUTER.relations, 10) <==> Known(nested, 2, 10));
  }

  lemma ChainKnown(makers: set<Version>)
    requires makers <= CHAIN.relations
    ensures Known(makers, 1, 10) <==> INNER in makers
    ensures Known(makers, 2, 10) <==> MIDDLE in makers
    ensures Known(makers, 3, 10) <==> OUTER in makers
  {
    KnownMeansMade(makers, 1, 10);
    KnownMeansMade(makers, 2, 10);
    KnownMeansMade(makers, 3, 10);
  }

  lemma ChainStep(nested: set<Version>)
    requires nested <= CHAIN.relations
    ensures INNER in RelationPass(CHAIN, nested) && RelationPass(CHAIN, nested) <= CHAIN.relations
    ensures MIDDLE in RelationPass(CHAIN, nested) <==> INNER in nested
    ensures OUTER in RelationPass(CHAIN, nested) <==> MIDDLE in nested
  {
    ChainPass(nested);
    ChainKnown(nested);
  }

  lemma ChainMakers()
    ensures RelationMakers(CHAIN, 2) <= CHAIN.relations && RelationMakers(CHAIN, 3) <= CHAIN.relations
    ensures OUTER !in RelationMakers(CHAIN, 2) && OUTER in RelationMakers(CHAIN, 3)
  {
    var one, two := RelationPass(CHAIN, {}), RelationPass(CHAIN, RelationPass(CHAIN, {}));
    ChainStep({});
    ChainStep(one);
    ChainStep(two);
    assert RelationMakers(CHAIN, 1) == one;
    assert RelationMakers(CHAIN, 2) == two;
    assert RelationMakers(CHAIN, 3) == RelationPass(CHAIN, two);
  }

  // The outermost is dropped, although its nested members are kept.
  lemma SecondLevelIsDropped()
    ensures OUTER in CHAIN.relations && EverKnown(CHAIN, OUTER.id, OUTER.ts) && OUTER !in Filtered(CHAIN).relations
  {
    ChainMakers();
    ChainKnown(RelationMakers(CHAIN, 2));
    ChainKnown(RelationMakers(CHAIN, 3));
    assert Known(RelationMakers(CHAIN, 3), 3, 10);
  }
}
