/** The action list between two snapshot runs (src/osmpq/engine/attic.py:666-770), read as a patch. */
module DiffPatch {
  import opened Options

  type Key = (string, int)

  // E is a rendered element without its type and id.
  datatype Element<E> = Element(key: Key, body: E)

  // One run: the elements in output order, and the version of each where known.
  datatype Pass<E, V> = Pass(elements: seq<Element<E>>, versions: map<Key, V>)

  // A modify whose old side, and a delete whose new side, may be a stub made from the raw state.
  datatype Action<E> =
    | Create(key: Key, new_: E)
    | Modify(key: Key, old_: E, new_: E)
    | Delete(key: Key, old_: E, stub: Option<E>)

  // ---- the runs as keyed maps -----------------------------------------------------------------

  predicate Has<E>(els: seq<Element<E>>, k: Key) { exists i :: 0 <= i < |els| && els[i].key == k }

  // What an assignment loop over the elements leaves: the last element of each key.
  function LastMap<E>(els: seq<Element<E>>): (m: map<Key, E>)
    ensures forall k :: k in m <==> Has(els, k)
  {
    if els == [] then map[]
    else
      var last := els[|els| - 1];
      assert forall k :: Has(els, k) <==> k == last.key || Has(els[..|els| - 1], k);
      LastMap(els[..|els| - 1])[last.key := last.body]
  }

  // The first element of each key, in order.
  function FirstSeen<E>(els: seq<Element<E>>): (r: seq<Element<E>>)
    ensures forall k :: Has(r, k) <==> Has(els, k)
  {
    if els == [] then []
    else
      var front, last := FirstSeen(els[..|els| - 1]), els[|els| - 1];
      assert forall k :: Has(els, k) <==> k == last.key || Has(els[..|els| - 1], k);
      if Has(els[..|els| - 1], last.key) then front
      else
        assert forall k :: Has(front + [last], k) <==> k == last.key || Has(front, k) by {
          assert (front + [last])[|front|] == last;
          assert forall i :: 0 <= i < |front| ==> (front + [last])[i] == front[i];
        }
        front + [last]
  }

  predicate KeysDiffer<E>(els: seq<Element<E>>) { forall i, j :: 0 <= i < j < |els| ==> els[i].key != els[j].key }

  lemma {:induction false} FirstSeenDiffer<E>(els: seq<Element<E>>)
    ensures KeysDiffer(FirstSeen(els))
  {
    if els != [] {
      FirstSeenDiffer(els[..|els| - 1]);
      var front, last := FirstSeen(els[..|els| - 1]), els[|els| - 1];
      assert forall i :: 0 <= i < |front| ==> Has(front, front[i].key);
    }
  }

  // Without repeated keys nothing is dropped.
  lemma {:induction false} FirstSeenIsAll<E>(els: seq<Element<E>>)
    requires KeysDiffer(els)
    ensures FirstSeen(els) == els
  {
    if els != [] {
      FirstSeenIsAll(els[..|els| - 1]);
      assert els == els[..|els| - 1] + [els[|els| - 1]];
    }
  }

  lemma {:induction false} LastMapAt<E>(els: seq<Element<E>>, i: nat)
    requires KeysDiffer(els) && i < |els|
    ensures els[i].key in LastMap(els) && LastMap(els)[els[i].key] == els[i].body
  {
    if i < |els| - 1 { LastMapAt(els[..|els| - 1], i); }
  }

  // ---- the action list ------------------------------------------------------------------------

  // What the list is made from. raw holds the stub of each element that existed at the other
  // endpoint, whether or not the query selected it; it is empty for a plain diff.
  datatype Input<E, V> = Input(a: Pass<E, V>, b: Pass<E, V>, rawA: map<Key, E>, rawB: map<Key, E>)

  predicate Changed<E(==), V(==)>(inp: Input<E, V>, k: Key, old_: E, new_: E) {
    || (k in inp.a.versions <==> k !in inp.b.versions)
    || (k in inp.a.versions && k in inp.b.versions && inp.a.versions[k] != inp.b.versions[k])
    || old_ != new_
  }

  // The action for an element of the second run, if any.
  function Forward<E(==), V(==)>(inp: Input<E, V>, el: Element<E>): (r: Option<Action<E>>)
    ensures r.Some? ==> r.value.key == el.key && !r.value.Delete?
  {
    var before := LastMap(inp.a.elements);
    if el.key !in before then
      if el.key in inp.rawA then Some(Modify(el.key, inp.rawA[el.key], el.body))
      else Some(Create(el.key, el.body))
    else if Changed(inp, el.key, before[el.key], el.body) then Some(Modify(el.key, before[el.key], el.body))
    else None
  }

  // The action for an element of the first run, if any.
  function Backward<E(==), V(==)>(inp: Input<E, V>, el: Element<E>): (r: Option<Action<E>>)
    ensures r.Some? ==> r.value.key == el.key && r.value.Delete?
  {
    if Has(inp.b.elements, el.key) then None
    else Some(Delete(el.key, el.body, if el.key in inp.rawB then Some(inp.rawB[el.key]) else None))
  }

  // The actions for the elements of the second run, or of the first.
  function ActionFor<E(==), V(==)>(inp: Input<E, V>, second: bool, el: Element<E>): (r: Option<Action<E>>)
    ensures r.Some? ==> r.value.key == el.key && (r.value.Delete? <==> !second)
  {
    if second then Forward(inp, el) else Backward(inp, el)
  }

  function ActionsFor<E(==), V(==)>(inp: Input<E, V>, second: bool, els: seq<Element<E>>): seq<Action<E>> {
    if els == [] then []
    else
      var front := ActionsFor(inp, second, els[..|els| - 1]);
      match ActionFor(inp, second, els[|els| - 1]) case None => front case Some(x) => front + [x]
  }

  function Actions<E(==), V(==)>(inp: Input<E, V>): seq<Action<E>> {
    ActionsFor(inp, true, FirstSeen(inp.b.elements)) + ActionsFor(inp, false, FirstSeen(inp.a.elements))
  }

  // ---- the program ----------------------------------------------------------------------------

  method KeyedMap<E>(els: seq<Element<E>>) returns (m: map<Key, E>)
    ensures m == LastMap(els)
  {
    m := map[];
    for i := 0 to |els|
      invariant m == LastMap(els[..i])
    {
      assert els[..i + 1][..i] == els[..i];
      m := m[els[i].key := els[i].body];
    }
    assert els[..|els|] == els;
  }

  // The raw states at an endpoint, looked up for some keys only.
  function RawStates<E>(state: map<Key, E>, keys: set<Key>): map<Key, E> {
    map k | k in state && k in keys :: state[k]
  }

  // An augmented diff looks up each one-sided key at the other endpoint.
  function InputOf<E, V>(a: Pass<E, V>, b: Pass<E, V>, augmented: bool,
                         stateA: map<Key, E>, stateB: map<Key, E>): Input<E, V>
  {
    var ka, kb := LastMap(a.elements).Keys, LastMap(b.elements).Keys;
    if augmented then Input(a, b, RawStates(stateA, kb - ka), RawStates(stateB, ka - kb)) else Input(a, b, map[], map[])
  }

  method BuildDiffActions<E(==), V(==)>(a: Pass<E, V>, b: Pass<E, V>, augmented: bool,
                                        stateA: map<Key, E>, stateB: map<Key, E>)
    returns (actions: seq<Action<E>>)
    ensures actions == Actions(InputOf(a, b, augmented, stateA, stateB))
  {
    var byKeyA := KeyedMap(a.elements);
    var byKeyB := KeyedMap(b.elements);
    var rawA: map<Key, E>, rawB: map<Key, E> := map[], map[];
    if augmented {
      rawA := RawStates(stateA, byKeyB.Keys - byKeyA.Keys);
      rawB := RawStates(stateB, byKeyA.Keys - byKeyB.Keys);
    }
    ghost var inp := InputOf(a, b, augmented, stateA, stateB);
    var forwards := CreatesAndModifies(a, b, byKeyA, rawA, inp);
    var backwards := Deletes(a, byKeyB, rawB, inp);
    actions := forwards + backwards;
  }

  // The keys of the elements passed so far.
  ghost predicate Saw<E>(seen: set<Key>, els: seq<Element<E>>) { forall k :: k in seen <==> Has(els, k) }

  lemma SawMore<E>(seen: set<Key>, els: seq<Element<E>>, i: nat)
    requires i < |els| && Saw(seen, els[..i])
    ensures Saw(seen + {els[i].key}, els[..i + 1])
    ensures els[i].key in seen <==> Has(els[..i], els[i].key)
    ensures els[i].key in seen ==> Saw(seen, els[..i + 1])
  {
    Grow(els, i);
  }

  // The loop over the second run.
  method CreatesAndModifies<E(==), V(==)>(a: Pass<E, V>, b: Pass<E, V>, byKeyA: map<Key, E>, rawA: map<Key, E>,
                                          ghost inp: Input<E, V>)
    returns (actions: seq<Action<E>>)
    requires byKeyA == LastMap(a.elements) && inp.a == a && inp.b == b && inp.rawA == rawA
    ensures actions == ActionsFor(inp, true, FirstSeen(b.elements))
  {
    actions := [];
    var seen: set<Key> := {};
    for i := 0 to |b.elements|
      invariant Saw(seen, b.elements[..i])
      invariant actions == ActionsFor(inp, true, FirstSeen(b.elements[..i]))
    {
      var el := b.elements[i];
      SawMore(seen, b.elements, i);
      NextActions(inp, true, b.elements, i);
      if el.key !in seen {
        seen := seen + {el.key};
        var new_ := NewAction(a, b, byKeyA, rawA, el, inp);
        actions := actions + new_;
      }
    }
    assert b.elements[..|b.elements|] == b.elements;
  }

  // The loop over the first run.
  method Deletes<E(==), V(==)>(a: Pass<E, V>, byKeyB: map<Key, E>, rawB: map<Key, E>, ghost inp: Input<E, V>)
    returns (actions: seq<Action<E>>)
    requires byKeyB == LastMap(inp.b.elements) && inp.a == a && inp.rawB == rawB
    ensures actions == ActionsFor(inp, false, FirstSeen(a.elements))
  {
    actions := [];
    var seen: set<Key> := {};
    for i := 0 to |a.elements|
      invariant Saw(seen, a.elements[..i])
      invariant actions == ActionsFor(inp, false, FirstSeen(a.elements[..i]))
    {
      var el := a.elements[i];
      SawMore(seen, a.elements, i);
      NextActions(inp, false, a.elements, i);
      if el.key !in seen {
        seen := seen + {el.key};
        if el.key !in byKeyB {
          actions := actions + [Delete(el.key, el.body, if el.key in rawB then Some(rawB[el.key]) else None)];
        }
      }
    }
    assert a.elements[..|a.elements|] == a.elements;
  }

  // The branches taken for one element of the second run.
  method NewAction<E(==), V(==)>(a: Pass<E, V>, b: Pass<E, V>, byKeyA: map<Key, E>, rawA: map<Key, E>,
                                 el: Element<E>, ghost inp: Input<E, V>)
    returns (r: seq<Action<E>>)
    requires byKeyA == LastMap(a.elements) && inp.a == a && inp.b == b && inp.rawA == rawA
    ensures r == match Forward(inp, el) case None => [] case Some(x) => [x]
  {
    if el.key !in byKeyA {
      if el.key in rawA { return [Modify(el.key, rawA[el.key], el.body)]; }
      return [Create(el.key, el.body)];
    }
    var old_ := byKeyA[el.key];
    var va := if el.key in a.versions then Some(a.versions[el.key]) else None;
    var vb := if el.key in b.versions then Some(b.versions[el.key]) else None;
    if va != vb || old_ != el.body { return [Modify(el.key, old_, el.body)]; }
    return [];
  }

  lemma Grow<E>(els: seq<Element<E>>, i: nat)
    requires i < |els|
    ensures forall k :: Has(els[..i + 1], k) <==> k == els[i].key || Has(els[..i], k)
    ensures FirstSeen(els[..i + 1])
      == if Has(els[..i], els[i].key) then FirstSeen(els[..i]) else FirstSeen(els[..i]) + [els[i]]
  {
    var longer := els[..i + 1];
    assert longer[..i] == els[..i] && longer[i] == els[i];
    forall k ensures Has(longer, k) <==> k == els[i].key || Has(els[..i], k) {
      if n :| 0 <= n < i && els[..i][n].key == k { assert longer[n].key == k; }
      if n :| 0 <= n < i + 1 && longer[n].key == k { assert n < i ==> els[..i][n].key == k; }
    }
  }

  lemma OneMoreAction<E, V>(inp: Input<E, V>, second: bool, els: seq<Element<E>>, el: Element<E>)
    ensures ActionsFor(inp, second, els + [el]) == ActionsFor(inp, second, els)
      + match ActionFor(inp, second, el) case None => [] case Some(x) => [x]
  {
    assert (els + [el])[..|els|] == els;
  }

  // What one more element of a run adds to the list.
  lemma NextActions<E, V>(inp: Input<E, V>, second: bool, els: seq<Element<E>>, i: nat)
    requires i < |els|
    ensures ActionsFor(inp, second, FirstSeen(els[..i + 1])) == ActionsFor(inp, second, FirstSeen(els[..i]))
      + if Has(els[..i], els[i].key) || ActionFor(inp, second, els[i]).None? then []
        else [ActionFor(inp, second, els[i]).value]
  {
    Grow(els, i);
    if !Has(els[..i], els[i].key) { OneMoreAction(inp, second, FirstSeen(els[..i]), els[i]); }
  }

  // ---- applying and undoing -------------------------------------------------------------------

  function Apply<E>(actions: seq<Action<E>>, m: map<Key, E>): map<Key, E> {
    if actions == [] then m
    else
      var rest := Apply(actions[..|actions| - 1], m);
      match actions[|actions| - 1]
      case Create(k, v) => rest[k := v]
      case Modify(k, _, v) => rest[k := v]
      case Delete(k, _, _) => rest - {k}
  }

  function Undo<E>(actions: seq<Action<E>>, m: map<Key, E>): map<Key, E> {
    if actions == [] then m
    else
      var rest := Undo(actions[..|actions| - 1], m);
      match actions[|actions| - 1]
      case Create(k, _) => rest - {k}
      case Modify(k, v, _) => rest[k := v]
      case Delete(k, v, _) => rest[k := v]
  }

  predicate Mentions<E>(actions: seq<Action<E>>, k: Key) { exists i :: 0 <= i < |actions| && actions[i].key == k }

  predicate ActionKeysDiffer<E>(actions: seq<Action<E>>) {
    forall i, j :: 0 <= i < j < |actions| ==> actions[i].key != actions[j].key
  }

  function Value<E>(m: map<Key, E>, k: Key): Option<E> { if k in m then Some(m[k]) else None }

  // The two sides of an action, None where the element is absent.
  function NewSide<E>(x: Action<E>): Option<E> { if x.Delete? then None else Some(x.new_) }
  function OldSide<E>(x: Action<E>): Option<E> { if x.Create? then None else Some(x.old_) }

  lemma {:induction false} UntouchedKey<E>(actions: seq<Action<E>>, m: map<Key, E>, k: Key)
    requires !Mentions(actions, k)
    ensures Value(Apply(actions, m), k) == Value(m, k) == Value(Undo(actions, m), k)
  {
    if actions != [] {
      assert actions[|actions| - 1].key != k;
      UntouchedKey(actions[..|actions| - 1], m, k);
    }
  }

  lemma {:induction false} TouchedKey<E>(actions: seq<Action<E>>, m: map<Key, E>, i: nat)
    requires ActionKeysDiffer(actions) && i < |actions|
    ensures Value(Apply(actions, m), actions[i].key) == NewSide(actions[i])
    ensures Value(Undo(actions, m), actions[i].key) == OldSide(actions[i])
  {
    var n := |actions| - 1;
    if i < n { TouchedKey(actions[..n], m, i); }
  }

  // ---- what the list says ---------------------------------------------------------------------

  lemma {:induction false} Origin<E, V>(inp: Input<E, V>, second: bool, els: seq<Element<E>>, n: nat) returns (i: nat)
    requires n < |ActionsFor(inp, second, els)|
    ensures i < |els| && ActionFor(inp, second, els[i]) == Some(ActionsFor(inp, second, els)[n])
    ensures Has(els, ActionsFor(inp, second, els)[n].key)
  {
    var front := els[..|els| - 1];
    if n < |ActionsFor(inp, second, front)| {
      i := Origin(inp, second, front, n);
      assert els[i] == front[i];
    } else {
      i := |els| - 1;
    }
  }

  lemma {:induction false} Emitted<E, V>(inp: Input<E, V>, second: bool, els: seq<Element<E>>, i: nat)
    requires i < |els| && ActionFor(inp, second, els[i]).Some?
    ensures ActionFor(inp, second, els[i]).value in ActionsFor(inp, second, els)
  {
    var front := els[..|els| - 1];
    if i < |front| {
      assert front[i] == els[i];
      Emitted(inp, second, front, i);
    }
  }

  lemma {:induction false} ActionsForDiffer<E, V>(inp: Input<E, V>, second: bool, els: seq<Element<E>>)
    requires KeysDiffer(els)
    ensures ActionKeysDiffer(ActionsFor(inp, second, els))
  {
    if els != [] {
      var front, last := els[..|els| - 1], els[|els| - 1];
      ActionsForDiffer(inp, second, front);
      forall n | 0 <= n < |ActionsFor(inp, second, front)|
        ensures ActionsFor(inp, second, front)[n].key != last.key
      {
        var i := Origin(inp, second, front, n);
      }
    }
  }

  lemma OneSide<E, V>(inp: Input<E, V>, second: bool, els: seq<Element<E>>, n: nat)
    requires n < |ActionsFor(inp, second, FirstSeen(els))|
    ensures var x := ActionsFor(inp, second, FirstSeen(els))[n];
      Has(els, x.key) && (x.Delete? <==> !second) && (x.Delete? ==> !Has(inp.b.elements, x.key))
  {
    var i := Origin(inp, second, FirstSeen(els), n);
  }

  lemma InEither<E>(first: seq<Action<E>>, second: seq<Action<E>>, n: nat)
    requires n < |first + second|
    ensures (first + second)[n] == if n < |first| then first[n] else second[n - |first|]
  {
  }

  // Where each action of the list comes from.
  lemma Sides<E, V>(inp: Input<E, V>, n: nat)
    requires n < |Actions(inp)|
    ensures var x := Actions(inp)[n];
      && (x.Delete? <==> n >= |ActionsFor(inp, true, FirstSeen(inp.b.elements))|)
      && (x.Delete? ==> Has(inp.a.elements, x.key) && !Has(inp.b.elements, x.key))
      && (!x.Delete? ==> Has(inp.b.elements, x.key))
  {
    var first, second := ActionsFor(inp, true, FirstSeen(inp.b.elements)), ActionsFor(inp, false, FirstSeen(inp.a.elements));
    InEither(first, second, n);
    if n < |first| { OneSide(inp, true, inp.b.elements, n); } else { OneSide(inp, false, inp.a.elements, n - |first|); }
  }

  // No key occurs in two actions.
  lemma EachKeyOnce<E, V>(inp: Input<E, V>)
    ensures ActionKeysDiffer(Actions(inp))
  {
    var first, second := FirstSeen(inp.b.elements), FirstSeen(inp.a.elements);
    FirstSeenDiffer(inp.a.elements);
    FirstSeenDiffer(inp.b.elements);
    ActionsForDiffer(inp, true, first);
    ActionsForDiffer(inp, false, second);
    var xs, ys := ActionsFor(inp, true, first), ActionsFor(inp, false, second);
    forall i, j | 0 <= i < |xs| && 0 <= j < |ys| ensures xs[i].key != ys[j].key {
      var n := Origin(inp, true, first, i);
      var m := Origin(inp, false, second, j);
    }
    AppendDiffers(xs, ys);
  }

  lemma AppendDiffers<E>(xs: seq<Action<E>>, ys: seq<Action<E>>)
    requires ActionKeysDiffer(xs) && ActionKeysDiffer(ys)
    requires forall i, j :: 0 <= i < |xs| && 0 <= j < |ys| ==> xs[i].key != ys[j].key
    ensures ActionKeysDiffer(xs + ys)
  {
  }

  // The first element of each key, as a map.
  function FirstMap<E>(els: seq<Element<E>>): map<Key, E> { LastMap(FirstSeen(els)) }

  lemma FirstMapAt<E>(els: seq<Element<E>>, k: Key) returns (i: nat)
    requires Has(els, k)
    ensures i < |FirstSeen(els)| && FirstSeen(els)[i].key == k && k in FirstMap(els)
    ensures FirstMap(els)[k] == FirstSeen(els)[i].body
  {
    assert Has(FirstSeen(els), k);
    i :| 0 <= i < |FirstSeen(els)| && FirstSeen(els)[i].key == k;
    FirstSeenDiffer(els);
    LastMapAt(FirstSeen(els), i);
  }

  // The action a key should have, if any.
  function ActionOf<E(==), V(==)>(inp: Input<E, V>, k: Key): (r: Option<Action<E>>)
    ensures r.Some? ==> r.value.key == k
  {
    if Has(inp.b.elements, k) then
      var after := FirstMap(inp.b.elements);
      assert Has(FirstSeen(inp.b.elements), k);
      Forward(inp, Element(k, after[k]))
    else if Has(inp.a.elements, k) then
      var before := FirstMap(inp.a.elements);
      assert Has(FirstSeen(inp.a.elements), k);
      Backward(inp, Element(k, before[k]))
    else None
  }

  // It is in the list, and no other action of that key is.
  lemma ActionOfIsListed<E, V>(inp: Input<E, V>, k: Key)
    ensures ActionOf(inp, k).Some? ==> ActionOf(inp, k).value in Actions(inp)
  {
    if Has(inp.b.elements, k) {
      var i := FirstMapAt(inp.b.elements, k);
      if ActionOf(inp, k).Some? { Emitted(inp, true, FirstSeen(inp.b.elements), i); }
    } else if Has(inp.a.elements, k) {
      var i := FirstMapAt(inp.a.elements, k);
      if ActionOf(inp, k).Some? { Emitted(inp, false, FirstSeen(inp.a.elements), i); }
    }
  }

  lemma OriginIsFirst<E, V>(inp: Input<E, V>, second: bool, els: seq<Element<E>>, n: nat)
    requires n < |ActionsFor(inp, second, FirstSeen(els))|
    ensures var x := ActionsFor(inp, second, FirstSeen(els))[n];
      x.key in FirstMap(els) && Some(x) == ActionFor(inp, second, Element(x.key, FirstMap(els)[x.key]))
  {
    var i := Origin(inp, second, FirstSeen(els), n);
    FirstSeenDiffer(els);
    LastMapAt(FirstSeen(els), i);
  }

  lemma ListedIsActionOf<E, V>(inp: Input<E, V>, n: nat)
    requires n < |Actions(inp)|
    ensures ActionOf(inp, Actions(inp)[n].key) == Some(Actions(inp)[n])
  {
    Sides(inp, n);
    var first, second := ActionsFor(inp, true, FirstSeen(inp.b.elements)), ActionsFor(inp, false, FirstSeen(inp.a.elements));
    var x := Actions(inp)[n];
    if n < |first| {
      assert x == first[n];
      OriginIsFirst(inp, true, inp.b.elements, n);
      assert ActionOf(inp, x.key) == Forward(inp, Element(x.key, FirstMap(inp.b.elements)[x.key]));
    } else {
      assert x == second[n - |first|];
      OriginIsFirst(inp, false, inp.a.elements, n - |first|);
      assert ActionOf(inp, x.key) == Backward(inp, Element(x.key, FirstMap(inp.a.elements)[x.key]));
    }
  }

  lemma ListedIfActionOf<E, V>(inp: Input<E, V>, k: Key)
    ensures Mentions(Actions(inp), k) <==> ActionOf(inp, k).Some?
  {
    ActionOfIsListed(inp, k);
    if n :| 0 <= n < |Actions(inp)| && Actions(inp)[n].key == k { ListedIsActionOf(inp, n); }
    if ActionOf(inp, k).Some? {
      var n :| 0 <= n < |Actions(inp)| && Actions(inp)[n] == ActionOf(inp, k).value;
    }
  }

  // Main result: applied to the first run, the actions give the second.
  lemma PatchGivesSecondRun<E, V>(inp: Input<E, V>)
    ensures Apply(Actions(inp), LastMap(inp.a.elements)) == FirstMap(inp.b.elements)
  {
    var before, after := LastMap(inp.a.elements), FirstMap(inp.b.elements);
    var result := Apply(Actions(inp), before);
    forall k ensures Value(result, k) == Value(after, k) { PatchAt(inp, k); }
    SameValues(result, after);
  }

  lemma SameValues<E>(m: map<Key, E>, n: map<Key, E>)
    requires forall k :: Value(m, k) == Value(n, k)
    ensures m == n
  {
    forall k ensures k in m <==> k in n { assert Value(m, k) == Value(n, k); }
    forall k | k in m ensures m[k] == n[k] { assert Value(m, k) == Value(n, k); }
  }

  lemma PatchAt<E, V>(inp: Input<E, V>, k: Key)
    ensures Value(Apply(Actions(inp), LastMap(inp.a.elements)), k) == Value(FirstMap(inp.b.elements), k)
  {
    EachKeyOnce(inp);
    var before := LastMap(inp.a.elements);
    ActionOfIsListed(inp, k);
    ListedIfActionOf(inp, k);
    var x := ActionOf(inp, k);
    if x.Some? {
      var i :| 0 <= i < |Actions(inp)| && Actions(inp)[i] == x.value;
      TouchedKey(Actions(inp), before, i);
    } else {
      UntouchedKey(Actions(inp), before, k);
    }
    if Has(inp.b.elements, k) { var i := FirstMapAt(inp.b.elements, k); }
  }

  // Exactly the keys whose element appeared, disappeared or changed are in the list.
  lemma ListedExactly<E, V>(inp: Input<E, V>, k: Key)
    ensures Mentions(Actions(inp), k) <==>
      || Has(inp.a.elements, k) != Has(inp.b.elements, k)
      || (&& Has(inp.a.elements, k)
          && (|| LastMap(inp.a.elements)[k] != FirstMap(inp.b.elements)[k]
              || (k in inp.a.versions) != (k in inp.b.versions)
              || (k in inp.a.versions && k in inp.b.versions && inp.a.versions[k] != inp.b.versions[k])))
  {
    ListedIfActionOf(inp, k);
  }

  // An augmented diff creates only what did not exist before, and shows what still exists after
  // a delete.
  lemma AugmentedListing<E, V>(a: Pass<E, V>, b: Pass<E, V>, stateA: map<Key, E>, stateB: map<Key, E>, x: Action<E>)
    requires x in Actions(InputOf(a, b, true, stateA, stateB))
    ensures x.Create? <==> !Has(a.elements, x.key) && x.key !in stateA
    ensures x.Modify? && !Has(a.elements, x.key) ==> x.old_ == stateA[x.key]
    ensures x.Delete? ==> x.stub == Value(stateB, x.key)
  {
    var inp := InputOf(a, b, true, stateA, stateB);
    var n :| 0 <= n < |Actions(inp)| && Actions(inp)[n] == x;
    ListedIsActionOf(inp, n);
    Sides(inp, n);
  }

  // A plain diff undoes exactly when no disappearing key was repeated with different elements.
  predicate DeletedOnce<E(==), V>(inp: Input<E, V>) {
    forall k :: k in LastMap(inp.a.elements) && !Has(inp.b.elements, k) ==>
      FirstMap(inp.a.elements)[k] == LastMap(inp.a.elements)[k]
  }

  lemma UndoAt<E, V>(inp: Input<E, V>, k: Key)
    requires inp.rawA == map[]
    ensures Value(Undo(Actions(inp), FirstMap(inp.b.elements)), k)
      == if Has(inp.a.elements, k) && !Has(inp.b.elements, k) then Value(FirstMap(inp.a.elements), k)
         else Value(LastMap(inp.a.elements), k)
  {
    EachKeyOnce(inp);
    var after := FirstMap(inp.b.elements);
    ActionOfIsListed(inp, k);
    ListedIfActionOf(inp, k);
    var x := ActionOf(inp, k);
    if x.Some? {
      var i :| 0 <= i < |Actions(inp)| && Actions(inp)[i] == x.value;
      TouchedKey(Actions(inp), after, i);
    } else {
      UntouchedKey(Actions(inp), after, k);
    }
    if Has(inp.b.elements, k) { var i := FirstMapAt(inp.b.elements, k); }
    else if Has(inp.a.elements, k) { var i := FirstMapAt(inp.a.elements, k); }
  }

  lemma PlainDiffUndoesExactly<E, V>(inp: Input<E, V>)
    requires inp.rawA == map[]
    ensures Undo(Actions(inp), FirstMap(inp.b.elements)) == LastMap(inp.a.elements) <==> DeletedOnce(inp)
  {
    var result, before := Undo(Actions(inp), FirstMap(inp.b.elements)), LastMap(inp.a.elements);
    if DeletedOnce(inp) {
      forall k ensures Value(result, k) == Value(before, k) {
        UndoAt(inp, k);
        if Has(inp.a.elements, k) { var i := FirstMapAt(inp.a.elements, k); }
      }
      SameValues(result, before);
    } else {
      var k :| k in before && !Has(inp.b.elements, k) && FirstMap(inp.a.elements)[k] != before[k];
      UndoAt(inp, k);
      var i := FirstMapAt(inp.a.elements, k);
    }
  }

  // A first run that lists node 1 as x and then as y, and a second run without it: the delete
  // holds x, the map held y.
  lemma RepeatedDeleteIsNotUndone(x: string, y: string)
    requires x != y
    ensures var k := ("node", 1);
      var inp := Input(Pass([Element(k, x), Element(k, y)], map[k := 1]), Pass([], map[]), map[], map[]);
      Actions(inp) == [Delete(k, x, None)] && Undo(Actions(inp), FirstMap(inp.b.elements)) == map[k := x]
      && LastMap(inp.a.elements) == map[k := y]
  {
    var k := ("node", 1);
    var one, two := [Element(k, x)], [Element(k, x), Element(k, y)];
    assert two[..1] == one && one[..0] == [];
    assert one[0].key == k;
    assert LastMap(one) == map[k := x] && LastMap(two) == map[k := y];
    assert FirstSeen(one) == one && FirstSeen(two) == one;
    var inp := Input(Pass(two, map[k := 1]), Pass([], map[]), map[], map[]);
    assert ActionsFor(inp, false, one) == [Delete(k, x, None)];
    assert Actions(inp) == [Delete(k, x, None)];
  }

  // Runs without repeated keys: patch and undo are inverse on the plain maps.
  lemma PatchAndUndo<E, V>(inp: Input<E, V>)
    requires KeysDiffer(inp.a.elements) && KeysDiffer(inp.b.elements)
    ensures Apply(Actions(inp), LastMap(inp.a.elements)) == LastMap(inp.b.elements)
    ensures inp.rawA == map[] ==> Undo(Actions(inp), LastMap(inp.b.elements)) == LastMap(inp.a.elements)
  {
    FirstSeenIsAll(inp.a.elements);
    FirstSeenIsAll(inp.b.elements);
    PatchGivesSecondRun(inp);
    if inp.rawA == map[] { PlainDiffUndoesExactly(inp); }
  }

  // ---- order ----------------------------------------------------------------------------------

  // The position of the first element with a key.
  function Position<E>(els: seq<Element<E>>, k: Key): (i: nat)
    requires Has(els, k)
    ensures i < |els| && els[i].key == k && forall j :: 0 <= j < i ==> els[j].key != k
  {
    if Has(els[..|els| - 1], k) then
      var i := Position(els[..|els| - 1], k);
      assert forall j :: 0 <= j < i ==> els[j] == els[..|els| - 1][j];
      i
    else
      assert forall j :: 0 <= j < |els| - 1 ==> els[..|els| - 1][j] == els[j];
      |els| - 1
  }

  ghost predicate InOrderOf<E>(keys: seq<Key>, els: seq<Element<E>>) {
    && (forall i :: 0 <= i < |keys| ==> Has(els, keys[i]))
    && forall i, j :: 0 <= i < j < |keys| ==> Position(els, keys[i]) < Position(els, keys[j])
  }

  function KeysOf<E>(actions: seq<Action<E>>): (r: seq<Key>)
    ensures |r| == |actions| && forall i :: 0 <= i < |r| ==> r[i] == actions[i].key
  {
    seq(|actions|, i requires 0 <= i < |actions| => actions[i].key)
  }

  lemma KeysOfOneMore<E>(actions: seq<Action<E>>, x: Action<E>)
    ensures KeysOf(actions + [x]) == KeysOf(actions) + [x.key]
  {
  }

  lemma PositionStable<E>(els: seq<Element<E>>, k: Key)
    requires els != [] && Has(els[..|els| - 1], k)
    ensures Has(els, k) && Position(els, k) == Position(els[..|els| - 1], k)
  {
    var i := Position(els[..|els| - 1], k);
    assert els[i].key == k;
  }

  // A list built by appending at most one action for each element of a run as it is first seen
  // follows the order of that run.
  lemma OrderGrows<E>(keys: seq<Key>, els: seq<Element<E>>, k: Option<Key>)
    requires els != [] && InOrderOf(keys, els[..|els| - 1])
    requires k.Some? ==> k.value == els[|els| - 1].key && !Has(els[..|els| - 1], k.value)
    ensures InOrderOf(if k.Some? then keys + [k.value] else keys, els)
  {
    forall i | 0 <= i < |keys| ensures Has(els, keys[i]) && Position(els, keys[i]) == Position(els[..|els| - 1], keys[i]) {
      PositionStable(els, keys[i]);
    }
    if k.Some? {
      assert Has(els, k.value) by { assert els[|els| - 1].key == k.value; }
    }
  }

  lemma {:induction false} ActionsInOrder<E, V>(inp: Input<E, V>, second: bool, els: seq<Element<E>>)
    ensures InOrderOf(KeysOf(ActionsFor(inp, second, FirstSeen(els))), els)
  {
    if els != [] {
      var front, last := els[..|els| - 1], els[|els| - 1];
      ActionsInOrder(inp, second, front);
      var listed := ActionsFor(inp, second, FirstSeen(front));
      var x := if Has(front, last.key) then None else ActionFor(inp, second, last);
      OrderGrows(KeysOf(listed), els, if x.Some? then Some(last.key) else None);
      OneMoreAction(inp, second, FirstSeen(front), last);
      if x.Some? { KeysOfOneMore(listed, x.value); }
    }
  }

  // Creates and modifies come first, in the order of the second run; deletes follow, in the order
  // of the first.
  lemma ActionsFollowTheRuns<E, V>(inp: Input<E, V>) returns (m: nat)
    ensures m <= |Actions(inp)|
    ensures InOrderOf(KeysOf(Actions(inp)[..m]), inp.b.elements)
    ensures InOrderOf(KeysOf(Actions(inp)[m..]), inp.a.elements)
    ensures forall i :: 0 <= i < |Actions(inp)| ==> (Actions(inp)[i].Delete? <==> i >= m)
  {
    ActionsInOrder(inp, true, inp.b.elements);
    ActionsInOrder(inp, false, inp.a.elements);
    var first, second := ActionsFor(inp, true, FirstSeen(inp.b.elements)), ActionsFor(inp, false, FirstSeen(inp.a.elements));
    m := |first|;
    assert Actions(inp)[..m] == first && Actions(inp)[m..] == second;
    forall i | 0 <= i < |Actions(inp)| ensures Actions(inp)[i].Delete? <==> i >= m { Sides(inp, i); }
  }
}
