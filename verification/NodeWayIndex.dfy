/** The node-to-way index (rust/osmpq-raw/src/index.rs).

    Each reference of a way gives a (node, way) pair. The pairs are spilled to 256 bucket files by
    bits 26 to 33 of the node id, each bucket is sorted, and the buckets are concatenated and cut
    into batches with their id ranges. This is a sort of all pairs as long as the buckets follow
    the ids, which they do for ids from 0 to 2^34 - 1; when exactly is stated below. Pairs are
    distinct rows of sixteen bytes, and equal pairs are indistinguishable, so the order within a
    bucket is unique whatever sort the library uses. */
module NodeWayIndex {
  import opened Options
  import opened Spill
  import NodeStores

  datatype Pair = Pair(node: i64, way: i64)

  // A way's id and its node references; the column and its items may be null.
  datatype WayRefs = WayRefs(id: i64, refs: Option<seq<Option<i64>>>)

  const N_BUCKETS := 256
  const BUCKET_SPAN := 0x400_0000        // 2^26 consecutive ids
  const BATCH_ROWS := 64000

  function BucketFor(nodeId: i64): (b: nat)
    ensures b < N_BUCKETS
  {
    (if nodeId < 0 then nodeId + 0x1_0000_0000_0000_0000 else nodeId) / BUCKET_SPAN % N_BUCKETS
  }

  // Bits 26 to 33 of the id, negative ids in two's complement.
  lemma BucketIsBits(nodeId: i64)
    ensures BucketFor(nodeId) == nodeId / 67108864 % 256
  {
    assert (nodeId + 0x1_0000_0000_0000_0000) / 67108864 == nodeId / 67108864 + 274877906944;
    assert (nodeId / 67108864 + 274877906944) % 256 == nodeId / 67108864 % 256;
  }

  // ---- the pairs ------------------------------------------------------------------------------

  function PairsOfRefs(way: i64, refs: seq<Option<i64>>): seq<Pair> {
    if refs == [] then []
    else
      var front, last := PairsOfRefs(way, refs[..|refs| - 1]), refs[|refs| - 1];
      if last.Some? then front + [Pair(last.value, way)] else front
  }

  function PairsOf(ways: seq<WayRefs>): seq<Pair> {
    if ways == [] then []
    else
      var w := ways[|ways| - 1];
      PairsOf(ways[..|ways| - 1]) + if w.refs.Some? then PairsOfRefs(w.id, w.refs.value) else []
  }

  // A pair for each reference of each way that is not null, and no other.
  lemma {:induction false} PairsOfOneWay(way: i64, refs: seq<Option<i64>>, p: Pair)
    ensures p in PairsOfRefs(way, refs) <==> p.way == way && exists k :: 0 <= k < |refs| && refs[k] == Some(p.node)
  {
    if refs != [] {
      var n := |refs| - 1;
      PairsOfOneWay(way, refs[..n], p);
      if k :| 0 <= k < n && refs[..n][k] == Some(p.node) { assert refs[k] == Some(p.node); }
      if k :| 0 <= k < |refs| && refs[k] == Some(p.node) { assert k < n ==> refs[..n][k] == Some(p.node); }
    }
  }

  predicate References(w: WayRefs, node: i64) {
    w.refs.Some? && exists k :: 0 <= k < |w.refs.value| && w.refs.value[k] == Some(node)
  }

  lemma {:induction false} PairsExactly(ways: seq<WayRefs>, p: Pair)
    ensures p in PairsOf(ways) <==> exists i :: 0 <= i < |ways| && ways[i].id == p.way && References(ways[i], p.node)
  {
    if ways != [] {
      var n := |ways| - 1;
      PairsExactly(ways[..n], p);
      if ways[n].refs.Some? { PairsOfOneWay(ways[n].id, ways[n].refs.value, p); }
      assert forall i :: 0 <= i < n ==> ways[..n][i] == ways[i];
    }
  }

  function InBucket(pairs: seq<Pair>, b: int): seq<Pair> {
    if pairs == [] then []
    else
      var front, last := InBucket(pairs[..|pairs| - 1], b), pairs[|pairs| - 1];
      if BucketFor(last.node) == b then front + [last] else front
  }

  // The sixteen bytes of a pair.
  function Decode(b: bytes): Pair {
    if |b| == 16 then Pair(NodeStores.ReadI64(b[..8]), NodeStores.ReadI64(b[8..])) else Pair(0, 0)
  }

  function Encode(p: Pair): (bs: bytes)
    ensures |bs| == 16
  {
    PutI64(p.node) + PutI64(p.way)
  }

  lemma DecodeOfEncode(p: Pair)
    ensures Decode(Encode(p)) == p
  {
    NodeStores.ReadOfPutI64(p.node);
    NodeStores.ReadOfPutI64(p.way);
    assert Encode(p)[..8] == PutI64(p.node) && Encode(p)[8..] == PutI64(p.way);
  }

  // ---- the order of the index: by node, then way ----------------------------------------------

  predicate PairLess(x: Pair, y: Pair) { x.node < y.node || (x.node == y.node && x.way < y.way) }

  predicate InOrder(s: seq<Pair>) { forall i, j :: 0 <= i < j < |s| ==> !PairLess(s[j], s[i]) }

  // The library sort on (node, way).
  function InsertPair(x: Pair, s: seq<Pair>): seq<Pair> {
    if s == [] || !PairLess(s[0], x) then [x] + s else [s[0]] + InsertPair(x, s[1..])
  }

  function SortPairs(s: seq<Pair>): seq<Pair> {
    if s == [] then [] else InsertPair(s[0], SortPairs(s[1..]))
  }

  lemma {:induction false} InsertKeepsOrder(x: Pair, s: seq<Pair>)
    requires InOrder(s)
    ensures InOrder(InsertPair(x, s)) && multiset(InsertPair(x, s)) == multiset{x} + multiset(s)
  {
    if s != [] && PairLess(s[0], x) {
      InsertKeepsOrder(x, s[1..]);
      var rest := InsertPair(x, s[1..]);
      assert s == [s[0]] + s[1..];
      forall k | 0 <= k < |rest| ensures !PairLess(rest[k], s[0]) {
        assert rest[k] in multiset(rest);
        assert rest[k] == x || rest[k] in s[1..];
      }
    }
  }

  lemma {:induction false} SortPairsSorts(s: seq<Pair>)
    ensures InOrder(SortPairs(s)) && multiset(SortPairs(s)) == multiset(s)
  {
    if s != [] {
      assert s == [s[0]] + s[1..];
      SortPairsSorts(s[1..]);
      InsertKeepsOrder(s[0], SortPairs(s[1..]));
    }
  }

  // By node, then by way.
  lemma OrderIsNodeThenWay(s: seq<Pair>)
    ensures InOrder(s) <==> forall i, j :: 0 <= i < j < |s| ==>
      s[i].node < s[j].node || (s[i].node == s[j].node && s[i].way <= s[j].way)
  {
    forall i, j | 0 <= i < j < |s|
      ensures !PairLess(s[j], s[i]) <==> s[i].node < s[j].node || (s[i].node == s[j].node && s[i].way <= s[j].way)
    {
    }
  }

  // Pairs have one sorted order.
  lemma {:induction false} OrderIsUnique(a: seq<Pair>, b: seq<Pair>)
    requires InOrder(a) && InOrder(b) && multiset(a) == multiset(b)
    ensures a == b
  {
    assert |a| == |multiset(a)| == |multiset(b)| == |b|;
    if a != [] {
      SameFirst(a, b);
      assert a == [a[0]] + a[1..] && b == [b[0]] + b[1..];
      assert multiset(a[1..]) == multiset(a) - multiset{a[0]};
      assert multiset(b[1..]) == multiset(b) - multiset{b[0]};
      OrderIsUnique(a[1..], b[1..]);
    }
  }

  lemma SameFirst(a: seq<Pair>, b: seq<Pair>)
    requires a != [] && b != [] && InOrder(a) && InOrder(b) && multiset(a) == multiset(b)
    ensures a[0] == b[0]
  {
    assert a[0] in multiset(b) && b[0] in multiset(a);
    assert a[0] in b && b[0] in a;
  }

  // ---- spilling to buckets --------------------------------------------------------------------

  function BytesOf(pairs: seq<Pair>): (bs: bytes)
    ensures |bs| == 16 * |pairs|
  {
    if pairs == [] then [] else BytesOf(pairs[..|pairs| - 1]) + Encode(pairs[|pairs| - 1])
  }

  ghost predicate Holds(files: seq<bytes>, pairs: seq<Pair>) {
    |files| == N_BUCKETS && forall b :: 0 <= b < N_BUCKETS ==> files[b] == BytesOf(InBucket(pairs, b))
  }

  lemma OneMorePair(files: seq<bytes>, pairs: seq<Pair>, p: Pair)
    requires Holds(files, pairs)
    ensures var b := BucketFor(p.node); Holds(files[b := files[b] + Encode(p)], pairs + [p])
  {
    assert (pairs + [p])[..|pairs|] == pairs;
    var b := BucketFor(p.node);
    assert (InBucket(pairs, b) + [p])[..|InBucket(pairs, b)|] == InBucket(pairs, b);
  }

  method FillBuckets(ways: seq<WayRefs>) returns (files: seq<bytes>)
    ensures Holds(files, PairsOf(ways))
  {
    files := seq(N_BUCKETS, _ => []);
    for i := 0 to |ways|
      invariant Holds(files, PairsOf(ways[..i]))
    {
      var w := ways[i];
      assert ways[..i + 1][..i] == ways[..i];
      if w.refs.Some? {
        var refs := w.refs.value;
        assert PairsOf(ways[..i]) + PairsOfRefs(w.id, []) == PairsOf(ways[..i]);
        for j := 0 to |refs|
          invariant Holds(files, PairsOf(ways[..i]) + PairsOfRefs(w.id, refs[..j]))
        {
          assert refs[..j + 1][..j] == refs[..j];
          if refs[j].Some? {
            var p := Pair(refs[j].value, w.id);
            var b := BucketFor(p.node);
            OneMorePair(files, PairsOf(ways[..i]) + PairsOfRefs(w.id, refs[..j]), p);
            assert PairsOf(ways[..i]) + PairsOfRefs(w.id, refs[..j + 1])
              == PairsOf(ways[..i]) + PairsOfRefs(w.id, refs[..j]) + [p];
            files := files[b := files[b] + Encode(p)];
          }
        }
        assert refs[..|refs|] == refs;
      } else {
        assert PairsOf(ways[..i]) + [] == PairsOf(ways[..i]);
      }
    }
    assert ways[..|ways|] == ways;
  }

  // ---- sorting a bucket -----------------------------------------------------------------------

  lemma {:induction false} RecordAt(pairs: seq<Pair>, i: nat)
    requires i < |pairs|
    ensures BytesOf(pairs)[i * 16..i * 16 + 16] == Encode(pairs[i])
  {
    var front := pairs[..|pairs| - 1];
    if i < |front| {
      RecordAt(front, i);
      assert BytesOf(pairs)[..16 * |front|] == BytesOf(front);
      assert BytesOf(pairs)[i * 16..i * 16 + 16] == BytesOf(front)[i * 16..i * 16 + 16];
    }
  }

  method SortBucket(file: bytes, ghost pairs: seq<Pair>) returns (sorted: seq<Pair>)
    requires file == BytesOf(pairs)
    ensures sorted == SortPairs(pairs)
  {
    var n := |file| / 16;
    var read: seq<Pair> := [];
    for i := 0 to n
      invariant read == pairs[..i]
    {
      var off := i * 16;
      RecordAt(pairs, i);
      DecodeOfEncode(pairs[i]);
      read := read + [Decode(file[off..off + 16])];
    }
    assert pairs[..n] == pairs;
    sorted := SortPairs(read);
  }

  // ---- the whole index ------------------------------------------------------------------------

  // The sorted buckets from b on, concatenated.
  function Concatenated(pairs: seq<Pair>, b: nat): seq<Pair>
    requires b <= N_BUCKETS
    decreases N_BUCKETS - b
  {
    if b == N_BUCKETS then [] else SortPairs(InBucket(pairs, b)) + Concatenated(pairs, b + 1)
  }

  // No row with a smaller node id falls in a later bucket.
  predicate BucketsFollowIds(pairs: seq<Pair>) {
    forall x, y :: x in pairs && y in pairs && BucketFor(x.node) < BucketFor(y.node) ==> x.node < y.node
  }

  lemma {:induction false} BucketMembers(pairs: seq<Pair>, b: int)
    ensures forall p :: p in InBucket(pairs, b) <==> p in pairs && BucketFor(p.node) == b
  {
    if pairs != [] {
      BucketMembers(pairs[..|pairs| - 1], b);
      assert pairs == pairs[..|pairs| - 1] + [pairs[|pairs| - 1]];
    }
  }

  lemma {:induction false} BucketCounts(pairs: seq<Pair>, b: int, p: Pair)
    ensures multiset(InBucket(pairs, b))[p] == if BucketFor(p.node) == b then multiset(pairs)[p] else 0
  {
    if pairs != [] {
      BucketCounts(pairs[..|pairs| - 1], b, p);
      assert pairs == pairs[..|pairs| - 1] + [pairs[|pairs| - 1]];
    }
  }

  lemma {:induction false} ConcatenatedCounts(pairs: seq<Pair>, b: nat, p: Pair)
    requires b <= N_BUCKETS
    ensures multiset(Concatenated(pairs, b))[p] == if BucketFor(p.node) >= b then multiset(pairs)[p] else 0
    decreases N_BUCKETS - b
  {
    if b < N_BUCKETS {
      ConcatenatedCounts(pairs, b + 1, p);
      BucketCounts(pairs, b, p);
      SortPairsSorts(InBucket(pairs, b));
    }
  }

  lemma ConcatenatedMembers(pairs: seq<Pair>, b: nat, p: Pair)
    requires b <= N_BUCKETS
    ensures p in Concatenated(pairs, b) <==> p in pairs && BucketFor(p.node) >= b
  {
    ConcatenatedCounts(pairs, b, p);
    assert p in Concatenated(pairs, b) <==> p in multiset(Concatenated(pairs, b));
    assert p in pairs <==> p in multiset(pairs);
  }

  lemma AppendInOrder(a: seq<Pair>, b: seq<Pair>)
    requires InOrder(a) && InOrder(b)
    requires forall x, y :: x in a && y in b ==> x.node < y.node
    ensures InOrder(a + b)
  {
    forall i, j | 0 <= i < j < |a + b| ensures !PairLess((a + b)[j], (a + b)[i]) {
      if i < |a| <= j { assert a[i] in a && b[j - |a|] in b; }
    }
  }

  lemma SortedBucketMembers(pairs: seq<Pair>, b: int)
    ensures forall p :: p in SortPairs(InBucket(pairs, b)) <==> p in pairs && BucketFor(p.node) == b
  {
    BucketMembers(pairs, b);
    var bucket := InBucket(pairs, b);
    SortPairsSorts(bucket);
    forall p ensures p in SortPairs(bucket) <==> p in bucket {
      assert p in SortPairs(bucket) <==> p in multiset(SortPairs(bucket));
      assert p in bucket <==> p in multiset(bucket);
    }
  }

  lemma {:induction false} ConcatenatedIsSorted(pairs: seq<Pair>, b: nat)
    requires b <= N_BUCKETS && BucketsFollowIds(pairs)
    ensures InOrder(Concatenated(pairs, b))
    decreases N_BUCKETS - b
  {
    if b < N_BUCKETS {
      ConcatenatedIsSorted(pairs, b + 1);
      BucketBeforeLater(pairs, b);
      SortPairsSorts(InBucket(pairs, b));
      AppendInOrder(SortPairs(InBucket(pairs, b)), Concatenated(pairs, b + 1));
    }
  }

  lemma BucketBeforeLater(pairs: seq<Pair>, b: nat)
    requires b < N_BUCKETS && BucketsFollowIds(pairs)
    ensures forall x, y :: x in SortPairs(InBucket(pairs, b)) && y in Concatenated(pairs, b + 1) ==> x.node < y.node
  {
    SortedBucketMembers(pairs, b);
    forall y | y in Concatenated(pairs, b + 1) ensures y in pairs && BucketFor(y.node) > b {
      ConcatenatedMembers(pairs, b + 1, y);
    }
  }

  ghost predicate Before(s: seq<Pair>, x: Pair, y: Pair) {
    exists i, j :: 0 <= i < j < |s| && s[i] == x && s[j] == y
  }

  lemma BeforeAcross(a: seq<Pair>, b: seq<Pair>, x: Pair, y: Pair)
    requires x in a && y in b
    ensures Before(a + b, x, y)
  {
    var i :| 0 <= i < |a| && a[i] == x;
    var j :| 0 <= j < |b| && b[j] == y;
    assert (a + b)[i] == x && (a + b)[|a| + j] == y;
  }

  lemma BeforeLater(a: seq<Pair>, b: seq<Pair>, x: Pair, y: Pair)
    requires Before(b, x, y)
    ensures Before(a + b, x, y)
  {
    var i, j :| 0 <= i < j < |b| && b[i] == x && b[j] == y;
    assert (a + b)[|a| + i] == x && (a + b)[|a| + j] == y;
  }

  lemma SortedBucketHas(pairs: seq<Pair>, b: int, p: Pair)
    requires p in pairs && BucketFor(p.node) == b
    ensures p in SortPairs(InBucket(pairs, b))
  {
    SortedBucketMembers(pairs, b);
  }

  lemma BeforeFromBucket(pairs: seq<Pair>, b: nat, x: Pair, y: Pair)
    requires b < N_BUCKETS && x in pairs && y in pairs && b == BucketFor(x.node) < BucketFor(y.node)
    ensures Before(SortPairs(InBucket(pairs, b)) + Concatenated(pairs, b + 1), x, y)
  {
    SortedBucketHas(pairs, b, x);
    ConcatenatedMembers(pairs, b + 1, y);
    BeforeAcross(SortPairs(InBucket(pairs, b)), Concatenated(pairs, b + 1), x, y);
  }

  // One bucket unfolded.
  lemma OneBucket(pairs: seq<Pair>, b: nat)
    requires b < N_BUCKETS
    ensures Concatenated(pairs, b) == SortPairs(InBucket(pairs, b)) + Concatenated(pairs, b + 1)
  {
  }

  lemma {:induction false} EarlierBucketComesFirst(pairs: seq<Pair>, b: nat, x: Pair, y: Pair)
    requires b < N_BUCKETS && x in pairs && y in pairs && b <= BucketFor(x.node) < BucketFor(y.node)
    ensures Before(Concatenated(pairs, b), x, y)
    decreases N_BUCKETS - b
  {
    OneBucket(pairs, b);
    if BucketFor(x.node) == b {
      BeforeFromBucket(pairs, b, x, y);
    } else {
      EarlierBucketComesFirst(pairs, b + 1, x, y);
      BeforeLater(SortPairs(InBucket(pairs, b)), Concatenated(pairs, b + 1), x, y);
    }
  }

  // Main result: the concatenated buckets are the (node, way) sort of all pairs exactly when no
  // smaller node id falls in a later bucket.
  lemma IndexIsSortedExactly(pairs: seq<Pair>)
    ensures Concatenated(pairs, 0) == SortPairs(pairs) <==> BucketsFollowIds(pairs)
  {
    if BucketsFollowIds(pairs) {
      ConcatenatedIsSorted(pairs, 0);
      forall p ensures multiset(Concatenated(pairs, 0))[p] == multiset(pairs)[p] { ConcatenatedCounts(pairs, 0, p); }
      assert multiset(Concatenated(pairs, 0)) == multiset(pairs);
      SortPairsSorts(pairs);
      OrderIsUnique(Concatenated(pairs, 0), SortPairs(pairs));
    } else {
      var x, y :| x in pairs && y in pairs && BucketFor(x.node) < BucketFor(y.node) && x.node >= y.node;
      EarlierBucketComesFirst(pairs, 0, x, y);
      SortPairsSorts(pairs);
      assert PairLess(y, x);
    }
  }

  // Ids from 0 to 2^34 - 1 always meet the condition; the id after them starts over at bucket 0.
  lemma NonNegativeIdsFollow(pairs: seq<Pair>)
    requires forall p :: p in pairs ==> 0 <= p.node < 0x4_0000_0000
    ensures BucketsFollowIds(pairs)
  {
    forall x, y | x in pairs && y in pairs && BucketFor(x.node) < BucketFor(y.node) ensures x.node < y.node {
      assert BucketFor(x.node) == x.node / BUCKET_SPAN && BucketFor(y.node) == y.node / BUCKET_SPAN;
    }
  }

  lemma LargerIdsWrap()
    ensures !BucketsFollowIds([Pair(0x4_0000_0000, 1), Pair(0x400_0000, 1)])
  {
    var pairs := [Pair(0x4_0000_0000, 1), Pair(0x400_0000, 1)];
    assert BucketFor(0x4_0000_0000) == 0 && BucketFor(0x400_0000) == 1;
    assert pairs[0] in pairs && pairs[1] in pairs;
  }

  // ---- batches --------------------------------------------------------------------------------

  datatype Batch = Batch(rows: seq<Pair>, lo: int, hi: int)

  // The id range written beside a batch is exact.
  predicate RangeIsExact(b: Batch) {
    && (forall p :: p in b.rows ==> b.lo <= p.node <= b.hi)
    && (b.rows != [] ==> (exists p :: p in b.rows && p.node == b.lo) && (exists p :: p in b.rows && p.node == b.hi))
  }

  predicate IsProper(b: Batch) { 0 < |b.rows| <= BATCH_ROWS && RangeIsExact(b) }

  predicate IsFull(b: Batch) { |b.rows| == BATCH_ROWS && RangeIsExact(b) }

  function AllRows(batches: seq<Batch>): seq<Pair> {
    if batches == [] then [] else AllRows(batches[..|batches| - 1]) + batches[|batches| - 1].rows
  }

  lemma AllRowsAppend(batches: seq<Batch>, b: Batch)
    ensures AllRows(batches + [b]) == AllRows(batches) + b.rows
  {
    assert (batches + [b])[..|batches|] == batches;
  }

  function Widen(b: Batch, p: Pair): Batch {
    Batch(b.rows + [p], if p.node < b.lo then p.node else b.lo, if p.node > b.hi then p.node else b.hi)
  }

  const EMPTY := Batch([], 0x7fff_ffff_ffff_ffff, -0x8000_0000_0000_0000)

  lemma WidenKeepsRange(b: Batch, p: Pair)
    requires RangeIsExact(b) && (b.rows == [] ==> b == EMPTY)
    ensures RangeIsExact(Widen(b, p))
  {
    var w := Widen(b, p);
    assert p in w.rows;
    forall q | q in w.rows ensures w.lo <= q.node <= w.hi { assert q == p || q in b.rows; }
    if b.rows != [] {
      var low :| low in b.rows && low.node == b.lo;
      var high :| high in b.rows && high.node == b.hi;
      assert low in w.rows && high in w.rows;
    }
  }

  lemma Regroup(a: seq<Pair>, b: seq<Pair>, c: seq<Pair>)
    ensures a + (b + c) == (a + b) + c
  {
  }

  predicate AllFull(batches: seq<Batch>) { forall i :: 0 <= i < |batches| ==> IsFull(batches[i]) && IsProper(batches[i]) }

  lemma OneMoreFull(batches: seq<Batch>, b: Batch)
    requires AllFull(batches) && IsFull(b)
    ensures AllFull(batches + [b])
  {
  }

  // Full batches and an open one, holding some rows between them.
  ghost predicate Holding(batches: seq<Batch>, batch: Batch, rows: seq<Pair>) {
    && AllRows(batches) + batch.rows == rows && AllFull(batches)
    && RangeIsExact(batch) && |batch.rows| < BATCH_ROWS && (batch.rows == [] ==> batch == EMPTY)
  }

  lemma OneMoreRow(batches: seq<Batch>, batch: Batch, rows: seq<Pair>, p: Pair)
    requires Holding(batches, batch, rows)
    ensures var w := Widen(batch, p);
      if |w.rows| >= BATCH_ROWS then Holding(batches + [w], EMPTY, rows + [p]) else Holding(batches, w, rows + [p])
  {
    var w := Widen(batch, p);
    WidenKeepsRange(batch, p);
    Regroup(AllRows(batches), batch.rows, [p]);
    if |w.rows| >= BATCH_ROWS {
      AllRowsAppend(batches, w);
      OneMoreFull(batches, w);
    }
  }

  lemma NothingYet()
    ensures Holding([], EMPTY, [])
  {
  }

  lemma LastBatch(batches: seq<Batch>, batch: Batch, rows: seq<Pair>)
    requires Holding(batches, batch, rows)
    ensures var all := if |batch.rows| > 0 then batches + [batch] else batches;
      && AllRows(all) == rows
      && (forall i :: 0 <= i < |all| ==> IsProper(all[i]))
      && (forall i :: 0 <= i < |all| - 1 ==> IsFull(all[i]))
  {
    AllRowsAppend(batches, batch);
  }

  // One row into the open batch, which is closed when full.
  method AddRow(batches: seq<Batch>, batch: Batch, p: Pair, ghost rows: seq<Pair>) returns (batches': seq<Batch>, batch': Batch)
    requires Holding(batches, batch, rows)
    ensures Holding(batches', batch', rows + [p])
  {
    OneMoreRow(batches, batch, rows, p);
    batches', batch' := batches, Widen(batch, p);
    if |batch'.rows| >= BATCH_ROWS {
      batches', batch' := batches + [batch'], EMPTY;
    }
  }

  method WriteBatches(pairs: seq<Pair>) returns (batches: seq<Batch>)
    ensures AllRows(batches) == pairs
    ensures forall i :: 0 <= i < |batches| ==> IsProper(batches[i])
    ensures forall i :: 0 <= i < |batches| - 1 ==> IsFull(batches[i]) && |batches[i].rows| == 64000
  {
    batches := [];
    var batch := EMPTY;
    NothingYet();
    assert pairs[..0] == [];
    for k := 0 to |pairs|
      invariant Holding(batches, batch, pairs[..k])
    {
      batches, batch := AddRow(batches, batch, pairs[k], pairs[..k]);
      assert pairs[..k + 1] == pairs[..k] + [pairs[k]];
    }
    assert pairs[..|pairs|] == pairs;
    LastBatch(batches, batch, pairs);
    if |batch.rows| > 0 {
      batches := batches + [batch];
    }
  }

  method SortBuckets(files: seq<bytes>, ghost pairs: seq<Pair>) returns (all: seq<Pair>)
    requires Holds(files, pairs)
    ensures all == Concatenated(pairs, 0)
  {
    all := [];
    for b := 0 to N_BUCKETS
      invariant all + Concatenated(pairs, b) == Concatenated(pairs, 0)
    {
      var bucket := SortBucket(files[b], InBucket(pairs, b));
      OneBucket(pairs, b);
      Regroup(all, bucket, Concatenated(pairs, b + 1));
      all := all + bucket;
    }
  }

  // The index as built: sorted whenever the ids are in range.
  method BuildNodeWayIndex(ways: seq<WayRefs>) returns (batches: seq<Batch>)
    ensures AllRows(batches) == Concatenated(PairsOf(ways), 0)
    ensures AllRows(batches) == SortPairs(PairsOf(ways)) <==> BucketsFollowIds(PairsOf(ways))
    ensures forall i :: 0 <= i < |batches| ==> IsProper(batches[i])
  {
    var files := FillBuckets(ways);
    var all := SortBuckets(files, PairsOf(ways));
    batches := WriteBatches(all);
    IndexIsSortedExactly(PairsOf(ways));
  }
}
