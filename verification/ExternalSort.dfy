/** The per-cell way sort (rust/osmpq-raw/src/ways.rs): small cells are decoded and sorted in
    memory; large ones are cut into chunks, each sorted into a run file, and the runs are merged
    through a heap. Both must give the same order. The record codec is a parameter; RunMerge has
    the instance for way records. */
module ExternalSort {
  import opened Options
  import opened Spill

  datatype Codec<!R> = Codec(encode: R -> bytes, decode: bytes -> R, hilbert: R -> int, id: R -> int)

  // ---- order by (hilbert, id) --------------------------------------------------------------

  predicate KeyLess<R>(c: Codec<R>, a: R, b: R) {
    c.hilbert(a) < c.hilbert(b) || (c.hilbert(a) == c.hilbert(b) && c.id(a) < c.id(b))
  }

  predicate Sorted<R>(c: Codec<R>, s: seq<R>) { forall i, j :: 0 <= i < j < |s| ==> !KeyLess(c, s[j], s[i]) }

  ghost predicate Least<R>(c: Codec<R>, x: R, m: multiset<R>) { forall y :: y in m ==> !KeyLess(c, y, x) }

  // The library's stable sort: equal keys keep their order.
  function Insert<R>(c: Codec<R>, x: R, s: seq<R>): (r: seq<R>) {
    if s == [] || !KeyLess(c, s[0], x) then [x] + s else [s[0]] + Insert(c, x, s[1..])
  }

  function SortRows<R>(c: Codec<R>, s: seq<R>): (r: seq<R>) {
    if s == [] then [] else Insert(c, s[0], SortRows(c, s[1..]))
  }

  lemma {:induction false} InsertSorts<R>(c: Codec<R>, x: R, s: seq<R>)
    requires Sorted(c, s)
    ensures Sorted(c, Insert(c, x, s)) && multiset(Insert(c, x, s)) == multiset{x} + multiset(s)
  {
    if s != [] && KeyLess(c, s[0], x) {
      InsertSorts(c, x, s[1..]);
      var rest := Insert(c, x, s[1..]);
      assert s == [s[0]] + s[1..];
      forall k | 0 <= k < |rest| ensures !KeyLess(c, rest[k], s[0]) {
        assert rest[k] in multiset(rest);
        assert rest[k] == x || rest[k] in s[1..];
      }
    }
  }

  lemma {:induction false} SortSorts<R>(c: Codec<R>, s: seq<R>)
    ensures Sorted(c, SortRows(c, s)) && multiset(SortRows(c, s)) == multiset(s)
  {
    if s != [] {
      assert s == [s[0]] + s[1..];
      SortSorts(c, s[1..]);
      InsertSorts(c, s[0], SortRows(c, s[1..]));
    }
  }

  predicate DistinctKeys<R>(c: Codec<R>, s: seq<R>) {
    forall i, j :: 0 <= i < j < |s| ==> KeyLess(c, s[i], s[j]) || KeyLess(c, s[j], s[i])
  }

  ghost predicate DistinctIn<R>(c: Codec<R>, m: multiset<R>) {
    forall x, y :: x in m && y in m && !KeyLess(c, x, y) && !KeyLess(c, y, x) ==> x == y
  }

  lemma DistinctRows<R>(c: Codec<R>, s: seq<R>)
    requires DistinctKeys(c, s)
    ensures DistinctIn(c, multiset(s))
  {
    forall x, y | x in multiset(s) && y in multiset(s) && !KeyLess(c, x, y) && !KeyLess(c, y, x) ensures x == y {
      assert x in s && y in s;
    }
  }

  // A sorted order of rows with distinct keys is unique.
  lemma {:induction false} SortedOrderUnique<R>(c: Codec<R>, a: seq<R>, b: seq<R>)
    requires Sorted(c, a) && Sorted(c, b) && multiset(a) == multiset(b) && DistinctIn(c, multiset(a))
    ensures a == b
  {
    assert |a| == |multiset(a)| == |multiset(b)| == |b|;
    if a != [] {
      SameHead(c, a, b);
      assert a == [a[0]] + a[1..] && b == [b[0]] + b[1..];
      assert multiset(a[1..]) == multiset(a) - multiset{a[0]};
      assert multiset(b[1..]) == multiset(b) - multiset{b[0]};
      SortedOrderUnique(c, a[1..], b[1..]);
    }
  }

  lemma SameHead<R>(c: Codec<R>, a: seq<R>, b: seq<R>)
    requires a != [] && b != [] && Sorted(c, a) && Sorted(c, b) && multiset(a) == multiset(b) && DistinctIn(c, multiset(a))
    ensures a[0] == b[0]
  {
    assert a[0] in multiset(b) && b[0] in multiset(a);
    assert a[0] in b && b[0] in a;
    assert !KeyLess(c, a[0], b[0]) && !KeyLess(c, b[0], a[0]);
  }

  // ---- run files --------------------------------------------------------------------------------

  // A row that survives being written and read back.
  predicate Clean<R(==)>(c: Codec<R>, r: R) {
    |c.encode(r)| < U32_LIMIT && c.decode(c.encode(r)) == r
  }

  predicate AllClean<R(==)>(c: Codec<R>, rows: seq<R>) { forall i :: 0 <= i < |rows| ==> Clean(c, rows[i]) }

  function FileOf<R>(c: Codec<R>, rows: seq<R>): bytes {
    if rows == [] then [] else Frame(c.encode(rows[0])) + FileOf(c, rows[1..])
  }

  lemma {:induction false} FileOfAppend<R>(c: Codec<R>, a: seq<R>, r: R)
    ensures FileOf(c, a + [r]) == FileOf(c, a) + Frame(c.encode(r))
  {
    if a == [] {
      assert a + [r] == [r] && [r][1..] == [];
    } else {
      FileOfAppend(c, a[1..], r);
      assert (a + [r])[1..] == a[1..] + [r];
      Associate(Frame(c.encode(a[0])), FileOf(c, a[1..]), Frame(c.encode(r)));
    }
  }

  lemma Associate(a: bytes, b: bytes, d: bytes)
    ensures a + (b + d) == (a + b) + d
  {
  }

  lemma FrameParts(enc: bytes, tail: bytes)
    requires |enc| < U32_LIMIT
    ensures var file, n := Frame(enc) + tail, |enc|;
      |file| >= 4 + n && LeValue(file[..4]) == n && file[4..4 + n] == enc && file[4 + n..] == tail
  {
    Limits();
    LeRoundTrip(|enc|, 4);
    assert (Frame(enc) + tail)[..4] == PutU32(|enc|);
  }

  lemma SliceOfSuffix(file: bytes, at: nat, i: nat, j: nat)
    requires at + i <= at + j <= |file|
    ensures file[at..][i..j] == file[at + i..at + j] && file[at..][j..] == file[at + j..]
  {
  }

  // read_one_record, on a file whose unread part holds the rows `rest`.
  method ReadOneRecord<R(==)>(c: Codec<R>, file: bytes, at: nat, ghost rest: seq<R>) returns (row: Option<R>, next: nat)
    requires at <= |file| && file[at..] == FileOf(c, rest) && AllClean(c, rest)
    ensures rest == [] ==> row == None && next == at
    ensures rest != [] ==> row == Some(rest[0]) && at < next <= |file| && file[next..] == FileOf(c, rest[1..])
    ensures rest != [] ==> next - at == 4 + |c.encode(rest[0])|
  {
    if rest != [] { FrameParts(c.encode(rest[0]), FileOf(c, rest[1..])); }
    if |file| - at < 4 {
      return None, at;
    }
    SliceOfSuffix(file, at, 0, 4);
    var len := LeValue(file[at..at + 4]);
    SliceOfSuffix(file, at, 4, 4 + len);
    var payload := file[at + 4..at + 4 + len];
    next := at + 4 + len;
    row := Some(c.decode(payload));
  }

  method WriteSortedRun<R>(c: Codec<R>, buf: seq<R>) returns (file: bytes)
    ensures file == FileOf(c, SortRows(c, buf))
  {
    var sorted := SortRows(c, buf);
    file := [];
    for i := 0 to |sorted|
      invariant file == FileOf(c, sorted[..i])
    {
      var enc := c.encode(sorted[i]);
      FileOfAppend(c, sorted[..i], sorted[i]);
      assert sorted[..i + 1] == sorted[..i] + [sorted[i]];
      file := file + (PutU32(|enc|) + enc);
    }
    assert sorted[..|sorted|] == sorted;
  }

  // ---- chunks ---------------------------------------------------------------------------------------

  function Flatten<R>(chunks: seq<seq<R>>): seq<R> {
    if chunks == [] then [] else Flatten(chunks[..|chunks| - 1]) + chunks[|chunks| - 1]
  }

  ghost predicate RunsOf<R>(c: Codec<R>, files: seq<bytes>, chunks: seq<seq<R>>) {
    && |files| == |chunks|
    && forall i :: 0 <= i < |files| ==> chunks[i] != [] && files[i] == FileOf(c, SortRows(c, chunks[i]))
  }

  lemma OneMoreRun<R>(c: Codec<R>, files: seq<bytes>, chunks: seq<seq<R>>, buf: seq<R>, file: bytes)
    requires RunsOf(c, files, chunks) && buf != [] && file == FileOf(c, SortRows(c, buf))
    ensures RunsOf(c, files + [file], chunks + [buf]) && Flatten(chunks + [buf]) == Flatten(chunks) + buf
  {
    assert (chunks + [buf])[..|chunks|] == chunks;
  }

  // The encoded size of some rows, without their length prefixes.
  function Size<R>(c: Codec<R>, rows: seq<R>): nat {
    if rows == [] then 0 else Size(c, rows[..|rows| - 1]) + |c.encode(rows[|rows| - 1])|
  }

  // A file has four bytes more for each row.
  lemma {:induction false} SizeInFile<R>(c: Codec<R>, rows: seq<R>)
    ensures |FileOf(c, rows)| == Size(c, rows) + 4 * |rows|
  {
    if rows != [] {
      var front, last := rows[..|rows| - 1], rows[|rows| - 1];
      SizeInFile(c, front);
      FileOfAppend(c, front, last);
      assert rows == front + [last];
    }
  }

  // A chunk is flushed by the row that brings it to the chunk size, not before.
  predicate FlushedInTime<R>(c: Codec<R>, chunk: seq<R>, chunkBytes: nat) {
    chunk != [] && (|chunk| == 1 || Size(c, chunk[..|chunk| - 1]) < chunkBytes)
  }

  ghost predicate CutAt<R>(c: Codec<R>, chunks: seq<seq<R>>, chunkBytes: nat) {
    forall i :: 0 <= i < |chunks| ==>
      FlushedInTime(c, chunks[i], chunkBytes) && (i < |chunks| - 1 ==> Size(c, chunks[i]) >= chunkBytes)
  }

  ghost predicate AllReach<R>(c: Codec<R>, chunks: seq<seq<R>>, chunkBytes: nat) {
    forall i :: 0 <= i < |chunks| ==> FlushedInTime(c, chunks[i], chunkBytes) && Size(c, chunks[i]) >= chunkBytes
  }

  lemma SizeOneMore<R>(c: Codec<R>, rows: seq<R>, r: R)
    ensures Size(c, rows + [r]) == Size(c, rows) + |c.encode(r)| && (rows + [r])[..|rows|] == rows
  {
    assert (rows + [r])[..|rows|] == rows;
  }

  lemma OneMoreRow<R>(done: seq<R>, buf: seq<R>, rows: seq<R>, k: nat)
    requires k < |rows| && done + buf == rows[..k]
    ensures done + (buf + [rows[k]]) == rows[..k + 1] && rows[k..][1..] == rows[k + 1..] && rows[k..][0] == rows[k]
  {
    assert done + (buf + [rows[k]]) == (done + buf) + [rows[k]];
  }

  lemma NothingLeft<R>(rows: seq<R>, k: nat)
    requires k <= |rows| && rows[k..] == []
    ensures rows[..k] == rows
  {
  }

  // The chunks written so far and the open one: all of them reached the size, it has not yet.
  ghost predicate Cutting<R>(c: Codec<R>, chunks: seq<seq<R>>, buf: seq<R>, chunkBytes: nat) {
    && AllReach(c, chunks, chunkBytes)
    && (buf != [] ==> Size(c, buf) < chunkBytes && FlushedInTime(c, buf, chunkBytes))
  }

  lemma KeepOrFlush<R>(c: Codec<R>, chunks: seq<seq<R>>, buf: seq<R>, chunkBytes: nat, r: R)
    requires Cutting(c, chunks, buf, chunkBytes)
    ensures var more := buf + [r];
      if Size(c, more) >= chunkBytes then Cutting(c, chunks + [more], [], chunkBytes) else Cutting(c, chunks, more, chunkBytes)
  {
    SizeOneMore(c, buf, r);
    assert FlushedInTime(c, buf + [r], chunkBytes);
  }

  lemma LastChunk<R>(c: Codec<R>, chunks: seq<seq<R>>, buf: seq<R>, chunkBytes: nat)
    requires Cutting(c, chunks, buf, chunkBytes)
    ensures CutAt(c, if buf == [] then chunks else chunks + [buf], chunkBytes)
  {
  }

  // Whatever the chunk size, the runs are the sorted chunks of a cut of the rows, flushed as soon as
  // a chunk's encoded rows reach it.
  method SpillToSortedRuns<R(==)>(c: Codec<R>, file: bytes, chunkBytes: nat, ghost rows: seq<R>)
    returns (files: seq<bytes>, ghost chunks: seq<seq<R>>)
    requires file == FileOf(c, rows) && AllClean(c, rows)
    ensures RunsOf(c, files, chunks) && Flatten(chunks) == rows && CutAt(c, chunks, chunkBytes)
  {
    files, chunks := [], [];
    var at, buf: seq<R>, bufBytes := 0, [], 0;
    ghost var k := 0;
    assert file[0..] == file && rows[0..] == rows;
    while true
      invariant 0 <= at <= |file| && 0 <= k <= |rows| && file[at..] == FileOf(c, rows[k..])
      invariant RunsOf(c, files, chunks) && Flatten(chunks) + buf == rows[..k]
      invariant bufBytes == Size(c, buf) && Cutting(c, chunks, buf, chunkBytes)
      decreases |file| - at
    {
      var row, next := ReadOneRecord(c, file, at, rows[k..]);
      if row.None? {
        NothingLeft(rows, k);
        break;
      }
      OneMoreRow(Flatten(chunks), buf, rows, k);
      SizeOneMore(c, buf, row.value);
      KeepOrFlush(c, chunks, buf, chunkBytes, row.value);
      bufBytes := bufBytes + (next - at - 4);
      buf := buf + [row.value];
      at, k := next, k + 1;
      if bufBytes >= chunkBytes {
        var run := WriteSortedRun(c, buf);
        OneMoreRun(c, files, chunks, buf, run);
        files, chunks := files + [run], chunks + [buf];
        buf, bufBytes := [], 0;
      }
    }
    LastChunk(c, chunks, buf, chunkBytes);
    if buf != [] {
      var run := WriteSortedRun(c, buf);
      OneMoreRun(c, files, chunks, buf, run);
      files, chunks := files + [run], chunks + [buf];
    }
  }
}
