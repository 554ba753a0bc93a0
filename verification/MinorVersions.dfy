/** Minor versions of ways (src/osmpq/history/build.py, _compute_way_states): a way gets an
    extra state whenever a node it refers to changes inside the window of one of its versions.
    The states' geometry is stored; the question is when it equals recomputing it. */
module MinorVersions {
  import opened Options
  import opened Placement
  import Lookup

  datatype NodeState = NodeState(validFrom: int, visible: bool, at: Pt)
  type NodeTable = map<int, seq<NodeState>>
  datatype WayVersion = WayVersion(version: int, validFrom: int, visible: bool, refs: seq<int>)

  // The points are those of the refs, in ref order; None for a ref that does not resolve.
  datatype WayState = WayState(version: int, minor: nat, ts: int, visible: bool, points: seq<Option<Pt>>)

  ghost predicate WellFormed(nodes: NodeTable, versions: seq<WayVersion>) {
    && (forall id :: id in nodes ==> forall i, j :: 0 <= i < j < |nodes[id]| ==> nodes[id][i].validFrom < nodes[id][j].validFrom)
    && (forall i, j :: 0 <= i < j < |versions| ==> versions[i].validFrom < versions[j].validFrom)
  }

  // ---- positions at an instant -----------------------------------------------------------------

  // ASOF join: the state with the greatest valid_from <= ts.
  function AsOf(h: seq<NodeState>, ts: int): Option<NodeState> {
    if h == [] then None
    else if h[|h| - 1].validFrom <= ts then Some(h[|h| - 1])
    else AsOf(h[..|h| - 1], ts)
  }

  function PositionAt(nodes: NodeTable, ref: int, ts: int): Option<Pt> {
    if ref !in nodes then None
    else
      var s := AsOf(nodes[ref], ts);
      if s.Some? && s.value.visible then Some(s.value.at) else None
  }

  function PointsAt(nodes: NodeTable, refs: seq<int>, ts: int): (points: seq<Option<Pt>>)
    ensures |points| == |refs| && forall i :: 0 <= i < |refs| ==> points[i] == PositionAt(nodes, refs[i], ts)
  {
    seq(|refs|, i requires 0 <= i < |refs| => PositionAt(nodes, refs[i], ts))
  }

  // A node's position only changes at one of its own state starts.
  lemma {:induction false} AsOfUnchanged(h: seq<NodeState>, from: int, to: int)
    requires from <= to
    requires forall i :: 0 <= i < |h| ==> !(from < h[i].validFrom <= to)
    ensures AsOf(h, from) == AsOf(h, to)
  {
    if h != [] {
      AsOfUnchanged(h[..|h| - 1], from, to);
    }
  }

  // The position is that of the last state that started by then, if it is visible: none before the
  // first state, and none while the node is deleted.
  lemma {:induction false} LastStateCounts(h: seq<NodeState>, ts: int, i: nat)
    requires i < |h| && h[i].validFrom <= ts && forall j :: i < j < |h| ==> h[j].validFrom > ts
    ensures AsOf(h, ts) == Some(h[i])
  {
    if i < |h| - 1 { LastStateCounts(h[..|h| - 1], ts, i); }
  }

  lemma {:induction false} NoStateYet(h: seq<NodeState>, ts: int)
    requires forall j :: 0 <= j < |h| ==> h[j].validFrom > ts
    ensures AsOf(h, ts) == None
  {
    if h != [] { NoStateYet(h[..|h| - 1], ts); }
  }

  lemma PositionOfTheLastState(nodes: NodeTable, ref: int, ts: int, i: nat)
    requires ref in nodes && i < |nodes[ref]| && nodes[ref][i].validFrom <= ts
    requires forall j :: i < j < |nodes[ref]| ==> nodes[ref][j].validFrom > ts
    ensures PositionAt(nodes, ref, ts) == if nodes[ref][i].visible then Some(nodes[ref][i].at) else None
  {
    LastStateCounts(nodes[ref], ts, i);
  }

  lemma NoPositionBefore(nodes: NodeTable, ref: int, ts: int)
    requires ref in nodes ==> forall j :: 0 <= j < |nodes[ref]| ==> nodes[ref][j].validFrom > ts
    ensures PositionAt(nodes, ref, ts) == None
  {
    if ref in nodes { NoStateYet(nodes[ref], ts); }
  }

  // ---- events and states ---------------------------------------------------------------------------

  function WindowEnd(versions: seq<WayVersion>, v: nat): Option<int> {
    if v + 1 < |versions| then Some(versions[v + 1].validFrom) else None
  }

  predicate Inside(versions: seq<WayVersion>, v: nat, ts: int)
    requires v < |versions|
  {
    versions[v].validFrom < ts && (WindowEnd(versions, v).None? || ts < WindowEnd(versions, v).value)
  }

  // Only nodes with more than one known version enter the event join.
  ghost function Events(nodes: NodeTable, versions: seq<WayVersion>, v: nat): set<int>
    requires v < |versions|
  {
    set ref, k | ref in versions[v].refs && ref in nodes && 0 <= k < |nodes[ref]| && |nodes[ref]| > 1
                 && Inside(versions, v, nodes[ref][k].validFrom) :: nodes[ref][k].validFrom
  }

  // row_number() OVER (... ORDER BY event_ts)
  ghost function RowNumber(events: set<int>, e: int): nat {
    |set x | x in events && x < e| + 1
  }

  ghost function OwnState(nodes: NodeTable, versions: seq<WayVersion>, v: nat): WayState
    requires v < |versions|
  {
    var w := versions[v];
    WayState(w.version, 0, w.validFrom, w.visible, if w.visible then PointsAt(nodes, w.refs, w.validFrom) else [])
  }

  ghost function MinorState(nodes: NodeTable, versions: seq<WayVersion>, v: nat, e: int): WayState
    requires v < |versions|
  {
    var w := versions[v];
    WayState(w.version, RowNumber(Events(nodes, versions, v), e), e, true, PointsAt(nodes, w.refs, e))
  }

  ghost predicate StateOf(nodes: NodeTable, versions: seq<WayVersion>, v: nat, s: WayState)
    requires v < |versions|
  {
    || s == OwnState(nodes, versions, v)
    || (versions[v].visible && s.ts in Events(nodes, versions, v) && s == MinorState(nodes, versions, v, s.ts))
  }

  ghost predicate IsState(nodes: NodeTable, versions: seq<WayVersion>, s: WayState) {
    exists v :: 0 <= v < |versions| && StateOf(nodes, versions, v, s)
  }

  // The state at t: the one with the greatest start not after t.
  ghost predicate ChosenAt(nodes: NodeTable, versions: seq<WayVersion>, t: int, s: WayState) {
    && IsState(nodes, versions, s) && s.ts <= t
    && forall o :: IsState(nodes, versions, o) && o.ts <= t ==> o.ts <= s.ts
  }

  predicate InWindow(versions: seq<WayVersion>, v: nat, t: int)
    requires v < |versions|
  {
    versions[v].validFrom <= t && (WindowEnd(versions, v).None? || t < WindowEnd(versions, v).value)
  }

  lemma StateInWindow(nodes: NodeTable, versions: seq<WayVersion>, v: nat, s: WayState)
    requires WellFormed(nodes, versions) && v < |versions| && StateOf(nodes, versions, v, s)
    ensures InWindow(versions, v, s.ts)
  {
  }

  lemma OneWindow(versions: seq<WayVersion>, v: nat, w: nat, t: int)
    requires forall i, j :: 0 <= i < j < |versions| ==> versions[i].validFrom < versions[j].validFrom
    requires v < |versions| && w < |versions| && InWindow(versions, v, t) && InWindow(versions, w, t)
    ensures v == w
  {
  }

  // Every state starts inside its version's window, so no two states of a way start together.
  lemma StartsAreDistinct(nodes: NodeTable, versions: seq<WayVersion>, a: WayState, b: WayState)
    requires WellFormed(nodes, versions) && IsState(nodes, versions, a) && IsState(nodes, versions, b) && a.ts == b.ts
    ensures a == b
  {
    var v :| 0 <= v < |versions| && StateOf(nodes, versions, v, a);
    var w :| 0 <= w < |versions| && StateOf(nodes, versions, w, b);
    StateInWindow(nodes, versions, v, a);
    StateInWindow(nodes, versions, w, b);
    OneWindow(versions, v, w, a.ts);
    EventsAreInside(nodes, versions, v);
  }

  lemma EventsAreInside(nodes: NodeTable, versions: seq<WayVersion>, v: nat)
    requires v < |versions|
    ensures forall e :: e in Events(nodes, versions, v) ==> Inside(versions, v, e)
  {
  }

  // Minor numbers follow time within a version.
  lemma RowNumbersFollowTime(events: set<int>, a: int, b: int)
    requires a in events && a < b
    ensures RowNumber(events, a) < RowNumber(events, b)
  {
    var before, upTo := set x | x in events && x < a, set x | x in events && x < b;
    assert upTo == before + {a} + (upTo - (before + {a}));
  }

  // Minor numbers count from 1, without gaps.
  lemma RowNumbersCountFromOne(events: set<int>, e: int)
    requires e in events
    ensures 1 <= RowNumber(events, e) <= |events|
    ensures (forall x :: x in events ==> e <= x) ==> RowNumber(events, e) == 1
    ensures RowNumber(events, e) == |set x | x in events && x <= e|
    ensures forall b :: b in events && e < b && (forall x :: x in events ==> x <= e || x >= b) ==>
      RowNumber(events, b) == RowNumber(events, e) + 1
  {
    var before, upTo := set x | x in events && x < e, set x | x in events && x <= e;
    assert upTo == before + {e};
    Subset(upTo, events);
    if forall x :: x in events ==> e <= x { assert before == {}; }
    forall b | b in events && e < b && (forall x :: x in events ==> x <= e || x >= b)
      ensures RowNumber(events, b) == RowNumber(events, e) + 1
    {
      assert (set x | x in events && x < b) == upTo;
    }
  }

  lemma Subset(a: set<int>, b: set<int>)
    requires a <= b
    ensures |a| <= |b|
  {
    assert b == a + (b - a);
  }

  // An event is the start of a state of a node the version refers to, strictly inside its window,
  // where the node has at least two states.
  lemma EventsExactly(nodes: NodeTable, versions: seq<WayVersion>, v: nat, e: int)
    requires v < |versions|
    ensures e in Events(nodes, versions, v)
      <==> && versions[v].validFrom < e && (v + 1 < |versions| ==> e < versions[v + 1].validFrom)
           && exists ref, k :: ref in versions[v].refs && ref in nodes && 0 <= k < |nodes[ref]| && |nodes[ref]| >= 2
                && nodes[ref][k].validFrom == e
  {
  }

  lemma StartedLaterInWindow(nodes: NodeTable, versions: seq<WayVersion>, v: nat, t: int, o: WayState)
    requires WellFormed(nodes, versions) && v < |versions| && InWindow(versions, v, t)
    requires IsState(nodes, versions, o) && versions[v].validFrom <= o.ts <= t
    ensures StateOf(nodes, versions, v, o)
  {
    var w :| 0 <= w < |versions| && StateOf(nodes, versions, w, o);
    StateInWindow(nodes, versions, w, o);
    OneWindow(versions, v, w, o.ts);
  }

  // At an instant of a version's window, that version's own or minor states are chosen.
  lemma ChosenIsOfTheVersion(nodes: NodeTable, versions: seq<WayVersion>, v: nat, t: int, s: WayState)
    requires WellFormed(nodes, versions) && v < |versions| && InWindow(versions, v, t) && ChosenAt(nodes, versions, t, s)
    ensures StateOf(nodes, versions, v, s)
  {
    assert StateOf(nodes, versions, v, OwnState(nodes, versions, v));
    assert IsState(nodes, versions, OwnState(nodes, versions, v));
    StartedLaterInWindow(nodes, versions, v, t, s);
  }

  // The state in force at an instant of a visible version's window: its version, the number of
  // events up to then as minor number, and the nodes' positions at its start, which is the last event
  // or the start of the version.
  lemma ChosenCarries(nodes: NodeTable, versions: seq<WayVersion>, v: nat, t: int, s: WayState)
    requires WellFormed(nodes, versions) && v < |versions| && versions[v].visible
    requires InWindow(versions, v, t) && ChosenAt(nodes, versions, t, s)
    ensures s.version == versions[v].version && s.visible
    ensures s.minor == |set e | e in Events(nodes, versions, v) && e <= t|
    ensures s.ts == versions[v].validFrom || s.ts in Events(nodes, versions, v)
    ensures forall e :: e in Events(nodes, versions, v) && e <= t ==> e <= s.ts <= t
    ensures |s.points| == |versions[v].refs|
    ensures forall i :: 0 <= i < |s.points| ==> s.points[i] == PositionAt(nodes, versions[v].refs[i], s.ts)
  {
    ChosenIsOfTheVersion(nodes, versions, v, t, s);
    var events := Events(nodes, versions, v);
    forall e | e in events && e <= t ensures e <= s.ts {
      if s.ts < e { NoEventSince(nodes, versions, v, t, s, e); }
    }
    if s == OwnState(nodes, versions, v) {
      EventsAreInside(nodes, versions, v);
      assert (set e | e in events && e <= t) == {};
    } else {
      RowNumbersCountFromOne(events, s.ts);
      assert (set e | e in events && e <= t) == set e | e in events && e <= s.ts;
    }
  }

  // ---- stored equals recomputed -------------------------------------------------------------------------

  // The nodes the event join leaves out: a visible single-version node whose start lies strictly
  // inside the window must start together with some event.
  ghost predicate NoUnseenArrival(nodes: NodeTable, versions: seq<WayVersion>, v: nat)
    requires v < |versions|
  {
    forall ref ::
      (ref in versions[v].refs && ref in nodes && |nodes[ref]| == 1 && nodes[ref][0].visible
       && Inside(versions, v, nodes[ref][0].validFrom))
      ==> nodes[ref][0].validFrom in Events(nodes, versions, v)
  }

  ghost predicate StoredIsRecomputed(nodes: NodeTable, versions: seq<WayVersion>, v: nat)
    requires v < |versions|
  {
    forall t, s :: InWindow(versions, v, t) && ChosenAt(nodes, versions, t, s) ==>
      s.points == PointsAt(nodes, versions[v].refs, t)
  }

  lemma NoEventSince(nodes: NodeTable, versions: seq<WayVersion>, v: nat, t: int, s: WayState, e: int)
    requires WellFormed(nodes, versions) && v < |versions| && versions[v].visible && InWindow(versions, v, t)
    requires ChosenAt(nodes, versions, t, s) && s.ts < e <= t
    ensures e !in Events(nodes, versions, v)
  {
    if e in Events(nodes, versions, v) {
      assert StateOf(nodes, versions, v, MinorState(nodes, versions, v, e));
      assert IsState(nodes, versions, MinorState(nodes, versions, v, e));
    }
  }

  lemma PositionUnchangedSince(nodes: NodeTable, versions: seq<WayVersion>, v: nat, t: int, s: WayState, ref: int)
    requires WellFormed(nodes, versions) && v < |versions| && versions[v].visible && InWindow(versions, v, t)
    requires ChosenAt(nodes, versions, t, s) && versions[v].validFrom <= s.ts
    requires ref in versions[v].refs && NoUnseenArrival(nodes, versions, v)
    ensures PositionAt(nodes, ref, s.ts) == PositionAt(nodes, ref, t)
  {
    if ref in nodes {
      var h := nodes[ref];
      if i :| 0 <= i < |h| && s.ts < h[i].validFrom <= t {
        NoEventSince(nodes, versions, v, t, s, h[i].validFrom);
        assert |h| == 1 && !h[0].visible;
        assert AsOf(h[..0], s.ts) == None;
      } else {
        AsOfUnchanged(h, s.ts, t);
      }
    }
  }

  lemma RecomputedWhenNoneUnseen(nodes: NodeTable, versions: seq<WayVersion>, v: nat)
    requires WellFormed(nodes, versions) && v < |versions| && versions[v].visible && NoUnseenArrival(nodes, versions, v)
    ensures StoredIsRecomputed(nodes, versions, v)
  {
    forall t, s | InWindow(versions, v, t) && ChosenAt(nodes, versions, t, s)
      ensures s.points == PointsAt(nodes, versions[v].refs, t)
    {
      ChosenIsOfTheVersion(nodes, versions, v, t, s);
      StateInWindow(nodes, versions, v, s);
      forall i | 0 <= i < |versions[v].refs|
        ensures PositionAt(nodes, versions[v].refs[i], s.ts) == PositionAt(nodes, versions[v].refs[i], t)
      {
        PositionUnchangedSince(nodes, versions, v, t, s, versions[v].refs[i]);
      }
    }
  }

  lemma ChosenStartsBefore(nodes: NodeTable, versions: seq<WayVersion>, v: nat, e: int, s: WayState)
    requires WellFormed(nodes, versions) && v < |versions| && versions[v].visible
    requires Inside(versions, v, e) && e !in Events(nodes, versions, v) && ChosenAt(nodes, versions, e, s)
    ensures s.ts < e && StateOf(nodes, versions, v, s)
  {
    ChosenIsOfTheVersion(nodes, versions, v, e, s);
  }

  lemma StaleAfterUnseenArrival(nodes: NodeTable, versions: seq<WayVersion>, v: nat, ref: int, e: int, s: WayState)
    requires WellFormed(nodes, versions) && v < |versions| && versions[v].visible
    requires ref in versions[v].refs && ref in nodes && |nodes[ref]| == 1 && nodes[ref][0].visible
    requires nodes[ref][0].validFrom == e
    requires Inside(versions, v, e) && e !in Events(nodes, versions, v) && ChosenAt(nodes, versions, e, s)
    ensures s.points != PointsAt(nodes, versions[v].refs, e)
  {
    ChosenStartsBefore(nodes, versions, v, e, s);
    ArrivalChangesPoints(nodes, versions[v].refs, ref, s.ts, e);
  }

  // A node that first appears at e has no position before.
  lemma ArrivalChangesPoints(nodes: NodeTable, refs: seq<int>, ref: int, before: int, e: int)
    requires ref in refs && ref in nodes && |nodes[ref]| == 1 && nodes[ref][0].visible
    requires nodes[ref][0].validFrom == e && before < e
    ensures PointsAt(nodes, refs, before) != PointsAt(nodes, refs, e)
  {
    var i :| 0 <= i < |refs| && refs[i] == ref;
    assert PositionAt(nodes, ref, before) == None by { assert AsOf(nodes[ref][..0], before) == None; }
    assert PositionAt(nodes, ref, e).Some?;
    assert PointsAt(nodes, refs, before)[i] != PointsAt(nodes, refs, e)[i];
  }

  // Some state is chosen at every instant from the first version on.
  lemma {:induction false} SomeStateIsChosen(nodes: NodeTable, versions: seq<WayVersion>, v: nat, t: int, s: WayState) returns (c: WayState)
    requires WellFormed(nodes, versions) && v < |versions| && InWindow(versions, v, t)
    requires StateOf(nodes, versions, v, s) && s.ts <= t
    ensures ChosenAt(nodes, versions, t, c)
    decreases t - s.ts
  {
    if ChosenAt(nodes, versions, t, s) {
      c := s;
    } else {
      var o :| IsState(nodes, versions, o) && s.ts < o.ts <= t;
      StateInWindow(nodes, versions, v, s);
      StartedLaterInWindow(nodes, versions, v, t, o);
      c := SomeStateIsChosen(nodes, versions, v, t, o);
    }
  }

  // Over the whole window of a visible version, stored points equal recomputed ones exactly when
  // no visible single-version node arrives unseen.
  lemma StoredIsRecomputedExactly(nodes: NodeTable, versions: seq<WayVersion>, v: nat)
    requires WellFormed(nodes, versions) && v < |versions| && versions[v].visible
    ensures StoredIsRecomputed(nodes, versions, v) <==> NoUnseenArrival(nodes, versions, v)
  {
    if NoUnseenArrival(nodes, versions, v) {
      RecomputedWhenNoneUnseen(nodes, versions, v);
    } else {
      var ref :| ref in versions[v].refs && ref in nodes && |nodes[ref]| == 1 && nodes[ref][0].visible
        && Inside(versions, v, nodes[ref][0].validFrom) && nodes[ref][0].validFrom !in Events(nodes, versions, v);
      var e := nodes[ref][0].validFrom;
      var own := OwnState(nodes, versions, v);
      assert StateOf(nodes, versions, v, own);
      var c := SomeStateIsChosen(nodes, versions, v, e, own);
      StaleAfterUnseenArrival(nodes, versions, v, ref, e, c);
    }
  }

  // A way at time 0 whose only node first appears at time 5: the state stored for time 5 has no
  // point, the recomputed one has.
  lemma UnseenArrivalIsStale(at: Pt)
    ensures var nodes: NodeTable := map[7 := [NodeState(5, true, at)]];
      var versions := [WayVersion(1, 0, true, [7])];
      WellFormed(nodes, versions) && !StoredIsRecomputed(nodes, versions, 0)
  {
    var nodes: NodeTable := map[7 := [NodeState(5, true, at)]];
    var versions := [WayVersion(1, 0, true, [7])];
    assert 7 in versions[0].refs && Inside(versions, 0, nodes[7][0].validFrom);
    StoredIsRecomputedExactly(nodes, versions, 0);
  }

  // ---- the box ------------------------------------------------------------------------------------------------

  // The non-NULL points.
  function Known(points: seq<Option<Pt>>): seq<Pt> {
    if points == [] then []
    else
      var before, last := Known(points[..|points| - 1]), points[|points| - 1];
      if last.Some? then before + [last.value] else before
  }

  // min/max over the non-NULL coordinates, NULL when there are none.
  function BoxOf(points: seq<Option<Pt>>): (box: Option<BBox>)
    ensures box.None? <==> Known(points) == []
    ensures box.Some? ==> Lookup.Bounds(box.value, Known(points))
  {
    if points == [] then None
    else
      var before, last := BoxOf(points[..|points| - 1]), points[|points| - 1];
      if last.None? then before
      else
        var p := last.value;
        var box := match before
          case None => BBox(p.lat, p.lon, p.lat, p.lon)
          case Some(b) =>
            BBox(if p.lat < b.ymin then p.lat else b.ymin, if p.lon < b.xmin then p.lon else b.xmin,
                 if p.lat > b.ymax then p.lat else b.ymax, if p.lon > b.xmax then p.lon else b.xmax);
        Lookup.BoundsOneMore(if before.Some? then before.value else box, Known(points[..|points| - 1]), p, box);
        Some(box)
  }

  // The box stored with the state chosen at t is the least box around the nodes' positions at t.
  lemma StoredBoxBoundsPositions(nodes: NodeTable, versions: seq<WayVersion>, v: nat, t: int, s: WayState)
    requires WellFormed(nodes, versions) && v < |versions| && versions[v].visible && NoUnseenArrival(nodes, versions, v)
    requires InWindow(versions, v, t) && ChosenAt(nodes, versions, t, s)
    ensures var known := Known(PointsAt(nodes, versions[v].refs, t));
      if known == [] then BoxOf(s.points) == None else BoxOf(s.points).Some? && Lookup.Bounds(BoxOf(s.points).value, known)
  {
    RecomputedWhenNoneUnseen(nodes, versions, v);
  }
}
