/** The recursion statements `>>` and `<<` (src/osmpq/engine/recurse.py, recurse_transitive):
    a frontier is expanded one hop at a time against the table of everything seen, until nothing
    new turns up or the hop cap is hit. Graphs may be cyclic and may refer to missing elements. */
module Recurse {
  datatype Kind = Node | Way | Relation
  datatype Ref = Ref(kind: Kind, id: int)

  // The existing elements and what each refers to: a way its nodes, a relation its members.
  type Graph = map<Ref, seq<Ref>>

  datatype Direction = Forward | Backward

  predicate Edge(g: Graph, dir: Direction, a: Ref, b: Ref) {
    match dir
    case Forward => a in g && b in g[a]
    case Backward => b in g && a in g[b]
  }

  function Mentioned(g: Graph): set<Ref> {
    g.Keys + set a, b | a in g && b in g[a] :: b
  }

  // One hop, as a table of ids; a forward hop may name elements that do not exist.
  function Hop(g: Graph, dir: Direction, from: set<Ref>): set<Ref> {
    set b | b in Mentioned(g) && exists a :: a in from && Edge(g, dir, a, b)
  }

  lemma HopMember(g: Graph, dir: Direction, from: set<Ref>, b: Ref)
    ensures b in Hop(g, dir, from) <==> exists a :: a in from && Edge(g, dir, a, b)
  {
  }

  // Forward from an element to everything in its reference list, backward from an element to
  // everything that has it in its list; elements that do not exist have no list.
  lemma HopFollowsReferences(g: Graph, from: set<Ref>, b: Ref)
    ensures b in Hop(g, Forward, from) <==> exists a :: a in from && a in g && InList(g[a], b)
    ensures b in Hop(g, Backward, from) <==> b in g && exists a :: a in from && InList(g[b], a)
  {
    HopMember(g, Forward, from, b);
    HopMember(g, Backward, from, b);
    if a :| a in from && a in g && InList(g[a], b) { assert Edge(g, Forward, a, b); }
    if a :| a in from && b in g && InList(g[b], a) { assert Edge(g, Backward, a, b); }
    if a :| a in from && Edge(g, Forward, a, b) { assert InList(g[a], b); }
    if a :| a in from && Edge(g, Backward, a, b) { assert InList(g[b], a); }
  }

  predicate InList(refs: seq<Ref>, r: Ref) { exists i :: 0 <= i < |refs| && refs[i] == r }

  // ---- reachability -------------------------------------------------------------------------------

  // A walk through existing elements.
  predicate Walk(g: Graph, dir: Direction, p: seq<Ref>) {
    && p != []
    && (forall i :: 0 <= i < |p| ==> p[i] in g)
    && (forall i :: 0 <= i < |p| - 1 ==> Edge(g, dir, p[i], p[i + 1]))
  }

  ghost predicate WalkFrom(g: Graph, dir: Direction, input: set<Ref>, r: Ref, p: seq<Ref>) {
    Walk(g, dir, p) && p[0] in input && p[|p| - 1] == r
  }

  ghost predicate Reachable(g: Graph, dir: Direction, input: set<Ref>, r: Ref) {
    exists p :: WalkFrom(g, dir, input, r, p) && |p| >= 2
  }

  ghost predicate ReachableWithin(g: Graph, dir: Direction, input: set<Ref>, r: Ref, hops: nat) {
    exists p :: WalkFrom(g, dir, input, r, p) && |p| <= hops + 1
  }

  // Everything within n hops, layer by layer.
  function Within(g: Graph, dir: Direction, input: set<Ref>, n: nat): set<Ref> {
    if n == 0 then input
    else
      var before := Within(g, dir, input, n - 1);
      before + Hop(g, dir, before) * g.Keys
  }

  lemma {:induction false} WithinExists(g: Graph, dir: Direction, input: set<Ref>, n: nat)
    requires input <= g.Keys
    ensures Within(g, dir, input, n) <= g.Keys
  {
    if n > 0 { WithinExists(g, dir, input, n - 1); }
  }

  lemma {:induction false} WithinHasWalk(g: Graph, dir: Direction, input: set<Ref>, n: nat, r: Ref) returns (p: seq<Ref>)
    requires input <= g.Keys && r in Within(g, dir, input, n)
    ensures WalkFrom(g, dir, input, r, p) && |p| <= n + 1
  {
    if n == 0 {
      p := [r];
    } else if r in Within(g, dir, input, n - 1) {
      p := WithinHasWalk(g, dir, input, n - 1, r);
    } else {
      var a :| a in Within(g, dir, input, n - 1) && Edge(g, dir, a, r);
      var q := WithinHasWalk(g, dir, input, n - 1, a);
      p := q + [r];
    }
  }

  lemma {:induction false} WalkStaysWithin(g: Graph, dir: Direction, input: set<Ref>, r: Ref, p: seq<Ref>)
    requires WalkFrom(g, dir, input, r, p)
    ensures r in Within(g, dir, input, |p| - 1)
    decreases |p|
  {
    if |p| > 1 {
      var q, a := p[..|p| - 1], p[|p| - 2];
      assert WalkFrom(g, dir, input, a, q);
      WalkStaysWithin(g, dir, input, a, q);
      assert Edge(g, dir, p[|p| - 2], p[|p| - 1]);
      HopMember(g, dir, Within(g, dir, input, |q| - 1), r);
    }
  }

  lemma {:induction false} WithinGrows(g: Graph, dir: Direction, input: set<Ref>, m: nat, n: nat)
    requires m <= n
    ensures Within(g, dir, input, m) <= Within(g, dir, input, n)
  {
    if m < n { WithinGrows(g, dir, input, m, n - 1); }
  }

  lemma {:induction false} WithinStops(g: Graph, dir: Direction, input: set<Ref>, m: nat, n: nat)
    requires m <= n && Within(g, dir, input, m + 1) == Within(g, dir, input, m)
    ensures Within(g, dir, input, n) == Within(g, dir, input, m)
  {
    if m < n { WithinStops(g, dir, input, m, n - 1); }
  }

  lemma WithinIsReachableWithin(g: Graph, dir: Direction, input: set<Ref>, n: nat, r: Ref)
    requires input <= g.Keys
    ensures r in Within(g, dir, input, n) <==> ReachableWithin(g, dir, input, r, n)
  {
    if r in Within(g, dir, input, n) {
      var p := WithinHasWalk(g, dir, input, n, r);
    }
    if p :| WalkFrom(g, dir, input, r, p) && |p| <= n + 1 {
      WalkStaysWithin(g, dir, input, r, p);
      WithinGrows(g, dir, input, |p| - 1, n);
    }
  }

  // ---- the loop --------------------------------------------------------------------------------------

  // After h hops: what is seen exists within h hops or is missing, and every earlier layer is
  // already expanded.
  ghost predicate LoopOk(g: Graph, dir: Direction, input: set<Ref>, h: nat, seen: set<Ref>, frontier: set<Ref>, found: set<Ref>) {
    && input <= seen && seen <= Mentioned(g)
    && seen * g.Keys == Within(g, dir, input, h)
    && found == Within(g, dir, input, h) - input
    && frontier <= Within(g, dir, input, h)
    && Hop(g, dir, Within(g, dir, input, h) - frontier) <= seen
  }

  lemma HopOfParts(g: Graph, dir: Direction, all: set<Ref>, part: set<Ref>)
    requires part <= all
    ensures Hop(g, dir, all) == Hop(g, dir, all - part) + Hop(g, dir, part)
  {
    forall b ensures b in Hop(g, dir, all) <==> b in Hop(g, dir, all - part) + Hop(g, dir, part) {
      if a :| a in all && Edge(g, dir, a, b) {
        assert a in all - part || a in part;
      }
    }
  }

  lemma OneHop(g: Graph, dir: Direction, input: set<Ref>, h: nat, seen: set<Ref>, frontier: set<Ref>, found: set<Ref>)
    requires input <= g.Keys && LoopOk(g, dir, input, h, seen, frontier, found)
    ensures var fresh_ := Hop(g, dir, frontier) - seen;
      && Within(g, dir, input, h + 1) == Within(g, dir, input, h) + fresh_ * g.Keys
      && LoopOk(g, dir, input, h + 1, seen + fresh_, fresh_ * g.Keys, found + fresh_ * g.Keys)
  {
    var before := Within(g, dir, input, h);
    var fresh_ := Hop(g, dir, frontier) - seen;
    HopOfParts(g, dir, before, frontier);
    assert Hop(g, dir, before) * g.Keys <= before + fresh_ * g.Keys;
    var after := Within(g, dir, input, h + 1);
    assert after == before + fresh_ * g.Keys;
    assert (seen + fresh_) * g.Keys == after;
    assert after - fresh_ * g.Keys == before;
    assert Hop(g, dir, before) <= seen + fresh_;
  }

  const HOP_CAP: nat := 10000

  method RecurseTransitive(g: Graph, dir: Direction, input: set<Ref>) returns (result: set<Ref>, capped: bool)
    requires input <= g.Keys
    ensures result == (Within(g, dir, input, 10001) - input)
      + (if dir == Forward then set r | r in input && r.kind == Relation else {})
    ensures !capped ==> forall r :: r in Within(g, dir, input, 10001) - input <==> r !in input && Reachable(g, dir, input, r)
  {
    var seen, frontier, found: set<Ref> := input, input, {};
    var hop := 0;
    capped := false;
    assert Within(g, dir, input, 0) - frontier == {};
    while true
      invariant 0 <= hop <= HOP_CAP
      invariant LoopOk(g, dir, input, hop, seen, frontier, found)
      decreases Mentioned(g) - seen
    {
      ghost var h := hop;
      hop := hop + 1;
      OneHop(g, dir, input, h, seen, frontier, found);
      var newFrontier := Hop(g, dir, frontier) - seen;
      if newFrontier == {} {
        WithinStops(g, dir, input, h, HOP_CAP + 1);
        FixedPointIsReachability(g, dir, input, h);
        break;
      }
      seen := seen + newFrontier;
      var hydrated := newFrontier * g.Keys;
      found := found + hydrated;
      frontier := hydrated;
      if hop > HOP_CAP {
        capped := true;
        break;
      }
    }
    result := found + (if dir == Forward then set r | r in input && r.kind == Relation else {});
  }

  lemma WalkEndsInFixedPoint(g: Graph, dir: Direction, input: set<Ref>, h: nat, r: Ref, p: seq<Ref>)
    requires Within(g, dir, input, h + 1) == Within(g, dir, input, h) && WalkFrom(g, dir, input, r, p)
    ensures r in Within(g, dir, input, h)
  {
    WalkStaysWithin(g, dir, input, r, p);
    WithinGrows(g, dir, input, |p| - 1, h + |p|);
    WithinStops(g, dir, input, h, h + |p|);
  }

  lemma FixedPointIsReachability(g: Graph, dir: Direction, input: set<Ref>, h: nat)
    requires input <= g.Keys && Within(g, dir, input, h + 1) == Within(g, dir, input, h)
    ensures forall r :: r in Within(g, dir, input, h) - input <==> r !in input && Reachable(g, dir, input, r)
  {
    forall r | r in Within(g, dir, input, h) && r !in input ensures Reachable(g, dir, input, r) {
      var p := WithinHasWalk(g, dir, input, h, r);
      assert |p| >= 2;
    }
    forall r, p | WalkFrom(g, dir, input, r, p) && |p| >= 2 ensures r in Within(g, dir, input, h) {
      WalkEndsInFixedPoint(g, dir, input, h, r, p);
    }
  }
}
