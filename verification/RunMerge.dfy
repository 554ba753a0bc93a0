/** The k-way merge of sorted run files (rust/osmpq-raw/src/ways.rs, WayRunMerge), and the result
    that the external sort of a spill file is the sort of its rows. */
module RunMerge {
  import opened Options
  import opened Spill
  import opened ExternalSort

  // The next not yet emitted row of one run.
  datatype HeapItem<R> = HeapItem(hilbert: int, id: int, runIdx: nat, row: R)

  function ItemFor<R>(c: Codec<R>, idx: nat, row: R): HeapItem<R> {
    HeapItem(c.hilbert(row), c.id(row), idx, row)
  }

  predicate ItemLess<R>(a: HeapItem<R>, b: HeapItem<R>) {
    a.hilbert < b.hilbert || (a.hilbert == b.hilbert && a.id < b.id)
  }

  // ---- what is still to be emitted, run by run -----------------------------------------------

  ghost function Union<R>(runs: seq<seq<R>>): multiset<R> {
    if runs == [] then multiset{} else Union(runs[..|runs| - 1]) + multiset(runs[|runs| - 1])
  }

  lemma {:induction false} UnionUpdate<R>(runs: seq<seq<R>>, i: nat, s: seq<R>)
    requires i < |runs|
    ensures Union(runs[i := s]) + multiset(runs[i]) == Union(runs) + multiset(s)
  {
    var n := |runs| - 1;
    var updated := runs[i := s];
    if i == n {
      assert updated[..n] == runs[..n];
    } else {
      assert updated[..n] == runs[..n][i := s] && updated[n] == runs[n] && runs[..n][i] == runs[i];
      UnionUpdate(runs[..n], i, s);
      AddBoth(Union(updated[..n]), multiset(runs[i]), Union(runs[..n]), multiset(s), multiset(runs[n]));
    }
  }

  lemma AddBoth<R>(a: multiset<R>, b: multiset<R>, d: multiset<R>, e: multiset<R>, m: multiset<R>)
    requires a + b == d + e
    ensures (a + m) + b == (d + m) + e
  {
    assert (a + m) + b == (a + b) + m;
    assert (d + m) + e == (d + e) + m;
  }

  lemma {:induction false} UnionMember<R>(runs: seq<seq<R>>, y: R)
    requires y in Union(runs)
    ensures exists i :: 0 <= i < |runs| && y in runs[i]
  {
    var n := |runs| - 1;
    if y in multiset(runs[n]) {
      assert y in runs[n];
    } else {
      UnionMember(runs[..n], y);
      var i :| 0 <= i < |runs[..n]| && y in runs[..n][i];
      assert y in runs[i];
    }
  }

  lemma {:induction false} UnionOfEmpty<R>(runs: seq<seq<R>>)
    requires forall i :: 0 <= i < |runs| ==> runs[i] == []
    ensures Union(runs) == multiset{}
  {
    if runs != [] { UnionOfEmpty(runs[..|runs| - 1]); }
  }

  // ---- one heap entry per unexhausted run -------------------------------------------------------

  ghost predicate IsHeadOf<R>(c: Codec<R>, item: HeapItem<R>, pending: seq<seq<R>>) {
    && item.runIdx < |pending| && pending[item.runIdx] != []
    && item == ItemFor(c, item.runIdx, pending[item.runIdx][0])
  }

  ghost predicate HeapOk<R>(c: Codec<R>, heap: seq<HeapItem<R>>, pending: seq<seq<R>>) {
    && (forall h :: 0 <= h < |heap| ==> IsHeadOf(c, heap[h], pending))
    && (forall g, h :: 0 <= g < h < |heap| ==> heap[g].runIdx != heap[h].runIdx)
    && (forall i :: 0 <= i < |pending| && pending[i] != [] ==> exists h :: 0 <= h < |heap| && heap[h].runIdx == i)
  }

  // Removing entry m leaves one entry for every other unexhausted run.
  lemma HeapWithout<R>(c: Codec<R>, heap: seq<HeapItem<R>>, pending: seq<seq<R>>, m: nat, kept: seq<HeapItem<R>>)
    requires HeapOk(c, heap, pending) && m < |heap| && kept == heap[..m] + heap[m + 1..]
    ensures forall h :: 0 <= h < |kept| ==> IsHeadOf(c, kept[h], pending) && kept[h].runIdx != heap[m].runIdx
    ensures forall g, h :: 0 <= g < h < |kept| ==> kept[g].runIdx != kept[h].runIdx
    ensures forall i :: 0 <= i < |pending| && pending[i] != [] && i != heap[m].runIdx ==>
      exists h :: 0 <= h < |kept| && kept[h].runIdx == i
  {
    forall i | 0 <= i < |pending| && pending[i] != [] && i != heap[m].runIdx
      ensures exists h :: 0 <= h < |kept| && kept[h].runIdx == i
    {
      var h :| 0 <= h < |heap| && heap[h].runIdx == i;
      assert kept[if h < m then h else h - 1] == heap[h];
    }
  }

  lemma HeapAfterPop<R>(c: Codec<R>, heap: seq<HeapItem<R>>, pending: seq<seq<R>>, m: nat, heap': seq<HeapItem<R>>)
    requires HeapOk(c, heap, pending) && m < |heap|
    requires var idx := heap[m].runIdx;
      var rest := pending[idx][1..];
      heap' == heap[..m] + heap[m + 1..] + (if rest == [] then [] else [ItemFor(c, idx, rest[0])])
    ensures var idx := heap[m].runIdx; HeapOk(c, heap', pending[idx := pending[idx][1..]])
  {
    var idx, kept := heap[m].runIdx, heap[..m] + heap[m + 1..];
    var after := pending[idx := pending[idx][1..]];
    HeapWithout(c, heap, pending, m, kept);
    forall h | 0 <= h < |heap'| ensures IsHeadOf(c, heap'[h], after) {
      if h < |kept| { assert IsHeadOf(c, kept[h], pending); }
    }
    forall i | 0 <= i < |after| && after[i] != [] ensures exists h :: 0 <= h < |heap'| && heap'[h].runIdx == i {
      if i == idx {
        assert heap'[|kept|].runIdx == idx;
      } else {
        assert pending[i] != [];
        var h :| 0 <= h < |kept| && kept[h].runIdx == i;
        assert heap'[h].runIdx == i;
      }
    }
  }

  lemma HeapOneMore<R>(c: Codec<R>, heap: seq<HeapItem<R>>, runs: seq<seq<R>>, k: nat, heap': seq<HeapItem<R>>)
    requires k < |runs| && HeapOk(c, heap, runs[..k])
    requires heap' == heap + (if runs[k] == [] then [] else [ItemFor(c, k, runs[k][0])])
    ensures HeapOk(c, heap', runs[..k + 1])
  {
    forall h | 0 <= h < |heap'| ensures IsHeadOf(c, heap'[h], runs[..k + 1]) {
      if h < |heap| { assert IsHeadOf(c, heap[h], runs[..k]); }
    }
    forall i | 0 <= i < k + 1 && runs[i] != [] ensures exists h :: 0 <= h < |heap'| && heap'[h].runIdx == i {
      if i < k {
        assert runs[..k][i] != [];
        var h :| 0 <= h < |heap| && heap[h].runIdx == i;
        assert heap'[h].runIdx == i;
      } else {
        assert heap'[|heap|].runIdx == i;
      }
    }
  }

  lemma LeastItemIsLeast<R>(c: Codec<R>, heap: seq<HeapItem<R>>, pending: seq<seq<R>>, m: nat)
    requires HeapOk(c, heap, pending) && m < |heap|
    requires forall h :: 0 <= h < |heap| ==> !ItemLess(heap[h], heap[m])
    requires forall i :: 0 <= i < |pending| ==> Sorted(c, pending[i])
    ensures Least(c, heap[m].row, Union(pending))
  {
    forall y | y in Union(pending) ensures !KeyLess(c, y, heap[m].row) {
      UnionMember(pending, y);
      var i :| 0 <= i < |pending| && y in pending[i];
      var h :| 0 <= h < |heap| && heap[h].runIdx == i;
      assert !ItemLess(heap[h], heap[m]);
      var k :| 0 <= k < |pending[i]| && pending[i][k] == y;
      assert k > 0 ==> !KeyLess(c, y, pending[i][0]);
    }
  }

  lemma {:induction false} LeastExists<R>(heap: seq<HeapItem<R>>) returns (m: nat)
    requires heap != []
    ensures m < |heap| && forall h :: 0 <= h < |heap| ==> !ItemLess(heap[h], heap[m])
  {
    m := 0;
    for k := 1 to |heap|
      invariant m < |heap| && forall h :: 0 <= h < k ==> !ItemLess(heap[h], heap[m])
    {
      if ItemLess(heap[k], heap[m]) { m := k; }
    }
  }

  lemma CancelMultiset<R>(a: multiset<R>, b: multiset<R>, m: multiset<R>)
    requires a + m == b + m
    ensures a == b
  {
    forall x ensures a[x] == b[x] {
      assert (a + m)[x] == (b + m)[x];
    }
  }

  // An open reader stands behind the row its run has in the heap.
  ghost predicate ReaderOk<R>(c: Codec<R>, file: bytes, reader: Option<nat>, pending: seq<R>) {
    && (reader.Some? <==> pending != [])
    && (reader.Some? ==> reader.value <= |file| && file[reader.value..] == FileOf(c, pending[1..]))
    && AllClean(c, pending) && Sorted(c, pending)
  }

  lemma TakeHead<R>(runs: seq<seq<R>>, i: nat)
    requires i < |runs| && runs[i] != []
    ensures Union(runs) == Union(runs[i := runs[i][1..]]) + multiset{runs[i][0]}
  {
    var tail := runs[i][1..];
    assert runs[i] == [runs[i][0]] + tail;
    UnionUpdate(runs, i, tail);
    CancelMultiset(Union(runs), Union(runs[i := tail]) + multiset{runs[i][0]}, multiset(tail));
  }

  ghost predicate MergeOk<R>(c: Codec<R>, files: seq<bytes>, readers: seq<Option<nat>>, heap: seq<HeapItem<R>>, pending: seq<seq<R>>) {
    && |files| == |readers| == |pending|
    && (forall i :: 0 <= i < |files| ==> ReaderOk(c, files[i], readers[i], pending[i]))
    && HeapOk(c, heap, pending)
  }

  // What opening one more run leaves behind.
  lemma OpenOneMore<R>(c: Codec<R>, files: seq<bytes>, readers: seq<Option<nat>>, heap: seq<HeapItem<R>>, runs: seq<seq<R>>,
                       k: nat, row: Option<R>, at: nat)
    requires k < |files| == |runs| && MergeOk(c, files[..k], readers, heap, runs[..k])
    requires AllClean(c, runs[k]) && Sorted(c, runs[k])
    requires if runs[k] == [] then row == None
      else row == Some(runs[k][0]) && at <= |files[k]| && files[k][at..] == FileOf(c, runs[k][1..])
    ensures MergeOk(c, files[..k + 1], readers + [if row.Some? then Some(at) else None],
                    heap + (if row.Some? then [ItemFor(c, k, row.value)] else []), runs[..k + 1])
  {
    HeapOneMore(c, heap, runs, k, heap + (if row.Some? then [ItemFor(c, k, row.value)] else []));
    assert ReaderOk(c, files[k], if row.Some? then Some(at) else None, runs[k]);
    forall i | 0 <= i < k ensures ReaderOk(c, files[i], readers[i], runs[i]) {
      assert ReaderOk(c, files[..k][i], readers[i], runs[..k][i]);
    }
  }

  // What popping entry m and reading the next row of its run leaves behind.
  lemma PopKeepsMerge<R>(c: Codec<R>, files: seq<bytes>, readers: seq<Option<nat>>, heap: seq<HeapItem<R>>, pending: seq<seq<R>>,
                         m: nat, next: Option<R>, at: nat)
    requires MergeOk(c, files, readers, heap, pending) && m < |heap|
    requires var idx := heap[m].runIdx; var rest := pending[idx][1..];
      if rest == [] then next == None
      else next == Some(rest[0]) && at <= |files[idx]| && files[idx][at..] == FileOf(c, rest[1..])
    ensures var idx := heap[m].runIdx;
      MergeOk(c, files, readers[idx := if next.Some? then Some(at) else None],
              heap[..m] + heap[m + 1..] + (if next.Some? then [ItemFor(c, idx, next.value)] else []),
              pending[idx := pending[idx][1..]])
  {
    var idx := heap[m].runIdx;
    var rest := pending[idx][1..];
    var heap' := heap[..m] + heap[m + 1..] + (if next.Some? then [ItemFor(c, idx, next.value)] else []);
    HeapAfterPop(c, heap, pending, m, heap');
    assert ReaderOk(c, files[idx], readers[idx], pending[idx]);
    assert ReaderOk(c, files[idx], if next.Some? then Some(at) else None, rest);
  }

  lemma PopIsLeast<R>(c: Codec<R>, files: seq<bytes>, readers: seq<Option<nat>>, heap: seq<HeapItem<R>>, pending: seq<seq<R>>, m: nat)
    requires MergeOk(c, files, readers, heap, pending) && m < |heap|
    requires forall h :: 0 <= h < |heap| ==> !ItemLess(heap[h], heap[m])
    ensures var idx := heap[m].runIdx;
      && idx < |pending| && pending[idx] != [] && readers[idx].Some?
      && Union(pending) == Union(pending[idx := pending[idx][1..]]) + multiset{heap[m].row}
      && Least(c, heap[m].row, Union(pending))
  {
    assert IsHeadOf(c, heap[m], pending);
    var idx := heap[m].runIdx;
    assert ReaderOk(c, files[idx], readers[idx], pending[idx]);
    forall i | 0 <= i < |pending| ensures Sorted(c, pending[i]) {
      assert ReaderOk(c, files[i], readers[i], pending[i]);
    }
    TakeHead(pending, idx);
    LeastItemIsLeast(c, heap, pending, m);
  }

  lemma NothingPending<R>(c: Codec<R>, files: seq<bytes>, readers: seq<Option<nat>>, heap: seq<HeapItem<R>>, pending: seq<seq<R>>)
    requires MergeOk(c, files, readers, heap, pending) && heap == []
    ensures Union(pending) == multiset{}
  {
    UnionOfEmpty(pending);
  }

  lemma PendingNotEmpty<R>(c: Codec<R>, files: seq<bytes>, readers: seq<Option<nat>>, heap: seq<HeapItem<R>>, pending: seq<seq<R>>)
    requires MergeOk(c, files, readers, heap, pending) && heap != []
    ensures Union(pending) != multiset{}
  {
    assert IsHeadOf(c, heap[0], pending);
    TakeHead(pending, heap[0].runIdx);
    assert heap[0].row in Union(pending);
  }

  // Pop a least entry and put the next row of its run, if any, in its place.
  method PopAndRefill<R(==)>(c: Codec<R>, files: seq<bytes>, readers: seq<Option<nat>>, heap: seq<HeapItem<R>>, ghost pending: seq<seq<R>>)
    returns (row: Option<R>, readers': seq<Option<nat>>, heap': seq<HeapItem<R>>, ghost pending': seq<seq<R>>)
    requires MergeOk(c, files, readers, heap, pending) && heap != []
    ensures MergeOk(c, files, readers', heap', pending')
    ensures row.Some? && Union(pending) == Union(pending') + multiset{row.value} && Least(c, row.value, Union(pending))
  {
    ghost var _ := LeastExists(heap);
    var m :| 0 <= m < |heap| && forall h :: 0 <= h < |heap| ==> !ItemLess(heap[h], heap[m]);
    PopIsLeast(c, files, readers, heap, pending, m);
    var item := heap[m];
    var idx := item.runIdx;
    assert ReaderOk(c, files[idx], readers[idx], pending[idx]);
    ghost var rest := pending[idx][1..];
    var next, at := ReadOneRecord(c, files[idx], readers[idx].value, rest);
    PopKeepsMerge(c, files, readers, heap, pending, m, next, at);
    heap' := heap[..m] + heap[m + 1..] + (if next.Some? then [ItemFor(c, idx, next.value)] else []);
    readers' := readers[idx := if next.Some? then Some(at) else None];
    pending' := pending[idx := rest];
    row := Some(item.row);
  }

  class WayRunMerge<R(==)> {
    const c: Codec<R>
    const files: seq<bytes>
    var readers: seq<Option<nat>>
    var heap: seq<HeapItem<R>>
    ghost var pending: seq<seq<R>>

    ghost predicate Valid()
      reads this
    {
      MergeOk(c, files, readers, heap, pending)
    }

    ghost function Remaining(): multiset<R>
      reads this
    {
      Union(pending)
    }

    constructor (codec: Codec<R>, paths: seq<bytes>, ghost runs: seq<seq<R>>)
      requires |paths| == |runs|
      requires forall i :: 0 <= i < |paths| ==> paths[i] == FileOf(codec, runs[i]) && AllClean(codec, runs[i]) && Sorted(codec, runs[i])
      ensures Valid() && c == codec && Remaining() == Union(runs)
    {
      c, files := codec, paths;
      readers, heap, pending := [], [], runs;
      new;
      for k := 0 to |files|
        invariant pending == runs
        invariant MergeOk(c, files[..k], readers, heap, runs[..k])
      {
        assert files[k][0..] == files[k];
        var row, next := ReadOneRecord(c, files[k], 0, runs[k]);
        OpenOneMore(c, files, readers, heap, runs, k, row, next);
        if row.Some? {
          heap := heap + [ItemFor(c, k, row.value)];
          readers := readers + [Some(next)];
        } else {
          readers := readers + [None];
        }
      }
      assert files[..|files|] == files && runs[..|files|] == runs;
    }

    method Next() returns (row: Option<R>)
      requires Valid()
      modifies this
      ensures Valid()
      ensures row.None? <==> old(Remaining()) == multiset{}
      ensures row.None? ==> Remaining() == multiset{}
      ensures row.Some? ==> old(Remaining()) == Remaining() + multiset{row.value} && Least(c, row.value, old(Remaining()))
    {
      if heap == [] {
        NothingPending(c, files, readers, heap, pending);
        return None;
      }
      PendingNotEmpty(c, files, readers, heap, pending);
      row, readers, heap, pending := PopAndRefill(c, files, readers, heap, pending);
    }
  }

  // ---- the whole sort ----------------------------------------------------------------------------

  lemma {:induction false} UnionOfChunks<R>(c: Codec<R>, chunks: seq<seq<R>>, runs: seq<seq<R>>)
    requires |runs| == |chunks| && forall i :: 0 <= i < |runs| ==> runs[i] == SortRows(c, chunks[i])
    ensures Union(runs) == multiset(Flatten(chunks))
  {
    if chunks != [] {
      var n := |chunks| - 1;
      UnionOfChunks(c, chunks[..n], runs[..n]);
      SortSorts(c, chunks[n]);
    }
  }

  lemma CleanMembers<R>(c: Codec<R>, rows: seq<R>, part: seq<R>)
    requires AllClean(c, rows) && forall x :: x in part ==> x in rows
    ensures AllClean(c, part)
  {
    forall i | 0 <= i < |part| ensures Clean(c, part[i]) {
      assert part[i] in rows;
    }
  }

  lemma {:induction false} ChunkMembers<R>(chunks: seq<seq<R>>, i: nat)
    requires i < |chunks|
    ensures forall x :: x in chunks[i] ==> x in Flatten(chunks)
  {
    if i < |chunks| - 1 { ChunkMembers(chunks[..|chunks| - 1], i); }
  }

  lemma RunsAreSortedAndClean<R>(c: Codec<R>, rows: seq<R>, chunks: seq<seq<R>>, i: nat)
    requires AllClean(c, rows) && Flatten(chunks) == rows && i < |chunks|
    ensures AllClean(c, SortRows(c, chunks[i])) && Sorted(c, SortRows(c, chunks[i]))
  {
    SortSorts(c, chunks[i]);
    ChunkMembers(chunks, i);
    forall x | x in SortRows(c, chunks[i]) ensures x in rows {
      assert x in multiset(SortRows(c, chunks[i]));
      assert x in chunks[i];
    }
    CleanMembers(c, rows, SortRows(c, chunks[i]));
  }

  lemma EmitOne<R>(c: Codec<R>, out: seq<R>, row: R, before: multiset<R>, after: multiset<R>)
    requires Sorted(c, out) && before == after + multiset{row} && Least(c, row, before)
    requires forall k, y :: 0 <= k < |out| && y in before ==> !KeyLess(c, y, out[k])
    ensures Sorted(c, out + [row])
    ensures forall k, y :: 0 <= k < |out + [row]| && y in after ==> !KeyLess(c, y, (out + [row])[k])
    ensures multiset(out + [row]) + after == multiset(out) + before
  {
    assert row in before;
    assert forall y :: y in after ==> y in before;
  }

  // Chunk, sort the runs, merge: a sorted permutation of the rows of the spill file; and, when no
  // two rows share a key, the very order the in-memory path produces.
  method SortThroughRuns<R(==)>(c: Codec<R>, file: bytes, chunkBytes: nat, ghost rows: seq<R>) returns (out: seq<R>)
    requires file == FileOf(c, rows) && AllClean(c, rows)
    ensures Sorted(c, out) && multiset(out) == multiset(rows)
    ensures DistinctKeys(c, rows) ==> out == SortRows(c, rows)
  {
    var files; ghost var chunks;
    files, chunks := SpillToSortedRuns(c, file, chunkBytes, rows);
    ghost var runs := seq(|chunks|, i requires 0 <= i < |chunks| => SortRows(c, chunks[i]));
    forall i | 0 <= i < |chunks| ensures AllClean(c, runs[i]) && Sorted(c, runs[i]) {
      RunsAreSortedAndClean(c, rows, chunks, i);
    }
    UnionOfChunks(c, chunks, runs);
    out := MergeAll(c, files, runs);
    if DistinctKeys(c, rows) {
      SortSorts(c, rows);
      DistinctRows(c, rows);
      SortedOrderUnique(c, out, SortRows(c, rows));
    }
  }

  method MergeAll<R(==)>(c: Codec<R>, files: seq<bytes>, ghost runs: seq<seq<R>>) returns (out: seq<R>)
    requires |files| == |runs|
    requires forall i :: 0 <= i < |files| ==> files[i] == FileOf(c, runs[i]) && AllClean(c, runs[i]) && Sorted(c, runs[i])
    ensures Sorted(c, out) && multiset(out) == Union(runs)
  {
    var merge := new WayRunMerge(c, files, runs);
    out := [];
    while true
      invariant fresh(merge) && merge.Valid() && merge.c == c
      invariant Sorted(c, out) && multiset(out) + merge.Remaining() == Union(runs)
      invariant forall k, y :: 0 <= k < |out| && y in merge.Remaining() ==> !KeyLess(c, y, out[k])
      decreases |merge.Remaining()|
    {
      ghost var before := merge.Remaining();
      var row := merge.Next();
      if row.None? { break; }
      EmitOne(c, out, row.value, before, merge.Remaining());
      out := out + [row.value];
    }
  }

  // ---- the in-memory path ---------------------------------------------------------------------------

  function Encoded<R>(c: Codec<R>, rows: seq<R>): seq<bytes> {
    if rows == [] then [] else [c.encode(rows[0])] + Encoded(c, rows[1..])
  }

  lemma {:induction false} FileIsFrames<R>(c: Codec<R>, rows: seq<R>)
    requires AllClean(c, rows)
    ensures FileOf(c, rows) == Frames(Encoded(c, rows)) && AllFit(Encoded(c, rows))
    ensures |Encoded(c, rows)| == |rows| && forall i :: 0 <= i < |rows| ==> Encoded(c, rows)[i] == c.encode(rows[i])
  {
    if rows != [] {
      assert forall i :: 0 <= i < |rows| - 1 ==> rows[1..][i] == rows[i + 1];
      FileIsFrames(c, rows[1..]);
      assert Clean(c, rows[0]);
    }
  }

  method DecodeAndSortInMemory<R(==)>(c: Codec<R>, file: bytes, ghost rows: seq<R>) returns (out: seq<R>)
    requires file == FileOf(c, rows) && AllClean(c, rows)
    ensures out == SortRows(c, rows)
  {
    ghost var _ := EncodedFile(c, file, rows);
    var records := ReadRecords(file);
    var decoded: seq<R> := [];
    for i := 0 to |records.value|
      invariant decoded == rows[..i]
    {
      decoded := decoded + [c.decode(records.value[i])];
    }
    assert rows[..|rows|] == rows;
    out := SortRows(c, decoded);
  }

  lemma EncodedFile<R>(c: Codec<R>, file: bytes, rows: seq<R>) returns (payloads: seq<bytes>)
    requires file == FileOf(c, rows) && AllClean(c, rows)
    ensures Records(file) == Some(payloads) && |payloads| == |rows|
    ensures forall i :: 0 <= i < |rows| ==> c.decode(payloads[i]) == rows[i]
  {
    FileIsFrames(c, rows);
    payloads := Encoded(c, rows);
    RecordsOfFrames(payloads);
    forall i | 0 <= i < |rows| ensures c.decode(payloads[i]) == rows[i] { assert Clean(c, rows[i]); }
  }

  // ---- way records ----------------------------------------------------------------------------------

  function DecodeOr(b: bytes): WayRow {
    match DecodeWay(b)
    case Got(r, _) => r
    case Short => WayRow(0, [], [], Meta(None, None, None, None, None), Geo(None, None, None, None, None, false, false, None, None, 0))
  }

  function WayCodec(): Codec<WayRow> {
    Codec(r => EncodeWay(r, []), DecodeOr, (r: WayRow) => r.geo.hilbert, (r: WayRow) => r.id)
  }

  // What is spilled and read back of a way that fits is the way with Some(MIN) fields as None.
  predicate Spillable(r: WayRow) { WayFits(r) && |EncodeWay(r, [])| < U32_LIMIT }

  lemma CleanWay(r: WayRow)
    requires Spillable(r)
    ensures Clean(WayCodec(), NormWay(r)) && EncodeWay(r, []) == EncodeWay(NormWay(r), [])
  {
    EncodeForgetsMin(r, []);
    WayRoundTrip(r, []);
  }

  function NormWays(rows: seq<WayRow>): (r: seq<WayRow>)
    ensures |r| == |rows| && forall i :: 0 <= i < |r| ==> r[i] == NormWay(rows[i])
  {
    if rows == [] then [] else [NormWay(rows[0])] + NormWays(rows[1..])
  }

  lemma NormWaysAreClean(rows: seq<WayRow>)
    requires forall i :: 0 <= i < |rows| ==> Spillable(rows[i])
    ensures AllClean(WayCodec(), NormWays(rows))
  {
    forall i | 0 <= i < |rows| ensures Clean(WayCodec(), NormWays(rows)[i]) { CleanWay(rows[i]); }
  }

  // The bytes of a spill file of ways are those of the rows that come back.
  lemma {:induction false} SameWayFile(rows: seq<WayRow>)
    requires forall i :: 0 <= i < |rows| ==> Spillable(rows[i])
    ensures FileOf(WayCodec(), rows) == FileOf(WayCodec(), NormWays(rows))
  {
    if rows != [] {
      var c, norm := WayCodec(), NormWays(rows);
      SameWayFile(rows[1..]);
      CleanWay(rows[0]);
      assert norm[0] == NormWay(rows[0]) && norm[1..] == NormWays(rows[1..]);
      assert c.encode(norm[0]) == c.encode(rows[0]);
    }
  }

  // By Hilbert position, then by id.
  predicate ByHilbertThenId(rows: seq<WayRow>) {
    forall i, j :: 0 <= i < j < |rows| ==>
      || rows[i].geo.hilbert < rows[j].geo.hilbert
      || (rows[i].geo.hilbert == rows[j].geo.hilbert && rows[i].id <= rows[j].id)
  }

  lemma WayOrder(rows: seq<WayRow>)
    ensures Sorted(WayCodec(), rows) <==> ByHilbertThenId(rows)
  {
    var c := WayCodec();
    forall i, j | 0 <= i < j < |rows|
      ensures !KeyLess(c, rows[j], rows[i])
        <==> || rows[i].geo.hilbert < rows[j].geo.hilbert
             || (rows[i].geo.hilbert == rows[j].geo.hilbert && rows[i].id <= rows[j].id)
    {
    }
  }

  // The bytes of a spill file of ways: each row's record behind its length.
  lemma {:induction false} WayFileExactly(rows: seq<WayRow>)
    ensures FileOf(WayCodec(), rows)
      == if rows == [] then [] else Frame(EncodeWay(rows[0], [])) + FileOf(WayCodec(), rows[1..])
  {
  }

  // Main result for ways: a spill file of any rows that fit comes out sorted through the runs, and in
  // the same order as through memory when keys are distinct.
  method SortWays(file: bytes, chunkBytes: nat, ghost rows: seq<WayRow>) returns (out: seq<WayRow>)
    requires forall i :: 0 <= i < |rows| ==> Spillable(rows[i])
    requires file == FileOf(WayCodec(), rows)
    ensures Sorted(WayCodec(), out) && multiset(out) == multiset(NormWays(rows))
    ensures ByHilbertThenId(out)
    ensures DistinctKeys(WayCodec(), NormWays(rows)) ==> out == SortRows(WayCodec(), NormWays(rows))
  {
    NormWaysAreClean(rows);
    SameWayFile(rows);
    out := SortThroughRuns(WayCodec(), file, chunkBytes, NormWays(rows));
    WayOrder(out);
  }

  method SortWaysInMemory(file: bytes, ghost rows: seq<WayRow>) returns (out: seq<WayRow>)
    requires forall i :: 0 <= i < |rows| ==> Spillable(rows[i])
    requires file == FileOf(WayCodec(), rows)
    ensures out == SortRows(WayCodec(), NormWays(rows))
    ensures ByHilbertThenId(out) && multiset(out) == multiset(NormWays(rows))
  {
    NormWaysAreClean(rows);
    SameWayFile(rows);
    out := DecodeAndSortInMemory(WayCodec(), file, NormWays(rows));
    SortSorts(WayCodec(), NormWays(rows));
    WayOrder(out);
  }
}
