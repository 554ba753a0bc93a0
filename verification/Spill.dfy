/** Spill records and spill files (rust/osmpq-raw/src/spill.rs): little-endian fields, length
    prefixes, MIN and 0 as the encodings of None. Strings are their UTF-8 bytes. */
module Spill {
  import opened Options

  type byte = b: int | 0 <= b < 256
  type bytes = seq<byte>
  type i32 = v: int | -0x8000_0000 <= v < 0x8000_0000
  type i64 = v: int | -0x8000_0000_0000_0000 <= v < 0x8000_0000_0000_0000
  type u64 = v: int | 0 <= v < 0x1_0000_0000_0000_0000
  const I32_MIN: i32 := -0x8000_0000
  const I64_MIN: i64 := -0x8000_0000_0000_0000
  const U32_LIMIT: nat := 0x1_0000_0000

  // A decoder's outcome: the program panics on a slice past the end.
  datatype Got<+T> = Short | Got(value: T, rest: bytes) {
    predicate IsFailure() { Short? }
    function PropagateFailure<U>(): Got<U> requires Short? { Short }
    function Extract(): (T, bytes) requires Got? { (value, rest) }
  }

  // ---- little-endian integers --------------------------------------------------------------

  // The n low bytes of v; a length cast to u32 is truncated the same way.
  function LeBytes(v: nat, n: nat): (bs: bytes)
    ensures |bs| == n
  {
    if n == 0 then [] else [v % 256] + LeBytes(v / 256, n - 1)
  }

  function LeValue(bs: bytes): nat {
    if bs == [] then 0 else bs[0] + 256 * LeValue(bs[1..])
  }

  function Limit(n: nat): (m: nat)
    ensures m >= 1
  {
    if n == 0 then 1 else 256 * Limit(n - 1)
  }

  lemma {:induction false} LeRoundTrip(v: nat, n: nat)
    requires v < Limit(n)
    ensures LeValue(LeBytes(v, n)) == v
  {
    if n > 0 {
      LeRoundTrip(v / 256, n - 1);
      assert LeBytes(v, n)[1..] == LeBytes(v / 256, n - 1);
    }
  }

  lemma {:induction false} LeBound(bs: bytes)
    ensures LeValue(bs) < Limit(|bs|)
  {
    if bs != [] { LeBound(bs[1..]); }
  }

  lemma Limits()
    ensures Limit(4) == U32_LIMIT && Limit(8) == 0x1_0000_0000_0000_0000
  {
    assert Limit(2) == 0x1_0000 && Limit(4) == 0x1_0000_0000 && Limit(6) == 0x1_0000_0000_0000;
  }

  function GetLe(n: nat, cur: bytes): (r: Got<nat>)
    ensures r.Got? <==> |cur| >= n
    ensures r.Got? ==> r.value < Limit(n) && r.rest == cur[n..]
  {
    if |cur| < n then Short
    else
      LeBound(cur[..n]);
      Got(LeValue(cur[..n]), cur[n..])
  }

  lemma GetOfPutLe(v: nat, n: nat, rest: bytes)
    requires v < Limit(n)
    ensures GetLe(n, LeBytes(v, n) + rest) == Got(v, rest)
  {
    LeRoundTrip(v, n);
    assert (LeBytes(v, n) + rest)[..n] == LeBytes(v, n);
    assert (LeBytes(v, n) + rest)[n..] == rest;
  }

  // ---- the primitives ---------------------------------------------------------------------------

  function PutU32(v: nat): bytes { LeBytes(v, 4) }
  function GetU32(cur: bytes): Got<nat> { GetLe(4, cur) }

  function PutU64(v: u64): bytes { LeBytes(v, 8) }
  function GetU64(cur: bytes): Got<u64> {
    Limits();
    var (v, rest) :- GetLe(8, cur);
    Got(v, rest)
  }

  function PutI32(v: i32): bytes { LeBytes(if v < 0 then v + 0x1_0000_0000 else v, 4) }
  function GetI32(cur: bytes): Got<i32> {
    Limits();
    var (v, rest) :- GetLe(4, cur);
    Got(if v >= 0x8000_0000 then v - 0x1_0000_0000 else v, rest)
  }

  function PutI64(v: i64): bytes { LeBytes(if v < 0 then v + 0x1_0000_0000_0000_0000 else v, 8) }
  function GetI64(cur: bytes): Got<i64> {
    Limits();
    var (v, rest) :- GetLe(8, cur);
    Got(if v >= 0x8000_0000_0000_0000 then v - 0x1_0000_0000_0000_0000 else v, rest)
  }

  function PutI32Opt(v: Option<i32>): bytes { PutI32(if v.Some? then v.value else I32_MIN) }
  function GetI32Opt(cur: bytes): Got<Option<i32>> {
    var (v, rest) :- GetI32(cur);
    Got(if v == I32_MIN then None else Some(v), rest)
  }

  function PutI64Opt(v: Option<i64>): bytes { PutI64(if v.Some? then v.value else I64_MIN) }
  function GetI64Opt(cur: bytes): Got<Option<i64>> {
    var (v, rest) :- GetI64(cur);
    Got(if v == I64_MIN then None else Some(v), rest)
  }

  function PutU8(v: byte): bytes { [v] }
  function GetU8(cur: bytes): Got<byte> {
    if cur == [] then Short else Got(cur[0], cur[1..])
  }

  function PutStr(s: bytes): bytes { PutU32(|s|) + s }
  function GetStr(cur: bytes): (r: Got<bytes>)
    ensures r.Got? ==> |r.value| < U32_LIMIT
  {
    Limits();
    var (n, rest) :- GetU32(cur);
    if |rest| < n then Short else Got(rest[..n], rest[n..])
  }

  // Length plus one, computed in u32; 0 means absent.
  function PutBytesOpt(v: Option<bytes>): bytes {
    match v
    case None => PutU32(0)
    case Some(b) => PutU32(|b| % U32_LIMIT + 1) + b
  }
  function GetBytesOpt(cur: bytes): Got<Option<bytes>> {
    var (n, rest) :- GetU32(cur);
    if n == 0 then Got(None, rest)
    else if |rest| < n - 1 then Short
    else Got(Some(rest[..n - 1]), rest[n - 1..])
  }

  // What a MIN in an optional field comes back as.
  function Norm32(v: Option<i32>): Option<i32> { if v == Some(I32_MIN) then None else v }
  function Norm64(v: Option<i64>): Option<i64> { if v == Some(I64_MIN) then None else v }

  lemma GetOfPutU64(v: u64, rest: bytes)
    ensures GetU64(PutU64(v) + rest) == Got(v, rest)
  {
    Limits();
    GetOfPutLe(v, 8, rest);
  }

  lemma GetOfPutI32(v: i32, rest: bytes)
    ensures GetI32(PutI32(v) + rest) == Got(v, rest)
  {
    Limits();
    GetOfPutLe(if v < 0 then v + 0x1_0000_0000 else v, 4, rest);
  }

  lemma GetOfPutI64(v: i64, rest: bytes)
    ensures GetI64(PutI64(v) + rest) == Got(v, rest)
  {
    Limits();
    GetOfPutLe(if v < 0 then v + 0x1_0000_0000_0000_0000 else v, 8, rest);
  }

  // An optional field comes back unchanged exactly when it is not Some(MIN).
  lemma GetOfPutI32Opt(v: Option<i32>, rest: bytes)
    ensures GetI32Opt(PutI32Opt(v) + rest) == Got(Norm32(v), rest)
  {
    GetOfPutI32(if v.Some? then v.value else I32_MIN, rest);
  }

  lemma GetOfPutI64Opt(v: Option<i64>, rest: bytes)
    ensures GetI64Opt(PutI64Opt(v) + rest) == Got(Norm64(v), rest)
  {
    GetOfPutI64(if v.Some? then v.value else I64_MIN, rest);
  }

  lemma SliceOfAppend(a: bytes, rest: bytes)
    ensures (a + rest)[..|a|] == a && (a + rest)[|a|..] == rest
  {
  }

  lemma GetOfPutStr(s: bytes, rest: bytes)
    requires |s| < U32_LIMIT
    ensures GetStr(PutStr(s) + rest) == Got(s, rest)
  {
    Limits();
    GetOfPutLe(|s|, 4, s + rest);
    assert PutStr(s) + rest == PutU32(|s|) + (s + rest);
    SliceOfAppend(s, rest);
  }

  lemma GetOfPutU8(v: byte, rest: bytes)
    ensures GetU8(PutU8(v) + rest) == Got(v, rest)
  {
    assert ([v] + rest)[1..] == rest;
  }

  lemma GetOfPutBytesOpt(v: Option<bytes>, rest: bytes)
    requires v.Some? ==> |v.value| < U32_LIMIT - 1
    ensures GetBytesOpt(PutBytesOpt(v) + rest) == Got(v, rest)
  {
    Limits();
    match v {
      case None => GetOfPutLe(0, 4, rest);
      case Some(b) =>
        GetOfPutLe(|b| + 1, 4, b + rest);
        var head := PutU32(|b| + 1);
        assert PutBytesOpt(v) == head + b;
        assert (head + b) + rest == head + (b + rest);
        SliceOfAppend(b, rest);
    }
  }

  // ---- repeated fields ----------------------------------------------------------------------------------

  function PutI64s(refs: seq<i64>): bytes {
    if refs == [] then [] else PutI64(refs[0]) + PutI64s(refs[1..])
  }
  function GetI64s(n: nat, cur: bytes): Got<seq<i64>>
    decreases n
  {
    if n == 0 then Got([], cur)
    else
      var (v, cur) :- GetI64(cur);
      var (more, cur) :- GetI64s(n - 1, cur);
      Got([v] + more, cur)
  }

  datatype Tag = Tag(key: bytes, value: bytes)

  function PutPairs(tags: seq<Tag>): bytes {
    if tags == [] then [] else PutStr(tags[0].key) + (PutStr(tags[0].value) + PutPairs(tags[1..]))
  }
  function GetPair(cur: bytes): Got<Tag> {
    var (k, cur) :- GetStr(cur);
    var (v, cur) :- GetStr(cur);
    Got(Tag(k, v), cur)
  }
  function GetPairs(n: nat, cur: bytes): Got<seq<Tag>>
    decreases n
  {
    if n == 0 then Got([], cur)
    else
      var (t, cur) :- GetPair(cur);
      var (more, cur) :- GetPairs(n - 1, cur);
      Got([t] + more, cur)
  }

  lemma {:induction false} GetOfPutI64s(refs: seq<i64>, rest: bytes)
    ensures GetI64s(|refs|, PutI64s(refs) + rest) == Got(refs, rest)
  {
    if refs != [] {
      var tail := PutI64s(refs[1..]) + rest;
      assert PutI64s(refs) + rest == PutI64(refs[0]) + tail;
      GetOfPutI64(refs[0], tail);
      GetOfPutI64s(refs[1..], rest);
      assert [refs[0]] + refs[1..] == refs;
    }
  }

  predicate TagsFit(tags: seq<Tag>) {
    forall i :: 0 <= i < |tags| ==> |tags[i].key| < U32_LIMIT && |tags[i].value| < U32_LIMIT
  }

  lemma Regroup(a: bytes, b: bytes, c: bytes, rest: bytes)
    ensures (a + (b + c)) + rest == a + (b + (c + rest))
  {
  }

  lemma {:induction false} GetOfPutPairs(tags: seq<Tag>, rest: bytes)
    requires TagsFit(tags)
    ensures GetPairs(|tags|, PutPairs(tags) + rest) == Got(tags, rest)
  {
    if tags != [] {
      var t, tail := tags[0], PutPairs(tags[1..]) + rest;
      Regroup(PutStr(t.key), PutStr(t.value), PutPairs(tags[1..]), rest);
      GetOfPutStr(t.key, PutStr(t.value) + tail);
      GetOfPutStr(t.value, tail);
      GetOfPutPairs(tags[1..], rest);
      assert [t] + tags[1..] == tags;
    }
  }

  // ---- metadata -------------------------------------------------------------------------------------------

  datatype Meta = Meta(version: Option<i32>, changeset: Option<i64>, timestampUs: Option<i64>, uid: Option<i32>, user: Option<bytes>)

  // The encoders are written with what follows them, so that a decoder meets its field in front.
  function PutMeta(m: Meta, rest: bytes): bytes {
    var user := if m.user.Some? then m.user.value else [];
    PutI32Opt(m.version) + (PutI64Opt(m.changeset) + (PutI64Opt(m.timestampUs) + (PutI32Opt(m.uid)
      + (PutU8(if m.user.Some? then 1 else 0) + (PutStr(user) + rest)))))
  }

  function GetMeta(cur: bytes): Got<Meta> {
    var (version, cur) :- GetI32Opt(cur);
    var (changeset, cur) :- GetI64Opt(cur);
    var (timestampUs, cur) :- GetI64Opt(cur);
    var (uid, cur) :- GetI32Opt(cur);
    var (flag, cur) :- GetU8(cur);
    var (s, cur) :- GetStr(cur);
    Got(Meta(version, changeset, timestampUs, uid, if flag == 0 then None else Some(s)), cur)
  }

  function NormMeta(m: Meta): Meta {
    m.(version := Norm32(m.version), changeset := Norm64(m.changeset),
       timestampUs := Norm64(m.timestampUs), uid := Norm32(m.uid))
  }

  predicate MetaFits(m: Meta) { m.user.Some? ==> |m.user.value| < U32_LIMIT }

  lemma GetOfPutMeta(m: Meta, rest: bytes)
    requires MetaFits(m)
    ensures GetMeta(PutMeta(m, rest)) == Got(NormMeta(m), rest)
  {
    var user := if m.user.Some? then m.user.value else [];
    var r5 := PutStr(user) + rest;
    var r4 := PutU8(if m.user.Some? then 1 else 0) + r5;
    var r3 := PutI32Opt(m.uid) + r4;
    var r2 := PutI64Opt(m.timestampUs) + r3;
    GetOfPutI32Opt(m.version, PutI64Opt(m.changeset) + r2);
    GetOfPutI64Opt(m.changeset, r2);
    GetOfPutI64Opt(m.timestampUs, r3);
    GetOfPutI32Opt(m.uid, r4);
    assert r4[1..] == r5;
    GetOfPutStr(user, rest);
  }

  // ---- node and way records ------------------------------------------------------------------------------------

  datatype NodeRow = NodeRow(id: i64, lat: i32, lon: i32, hilbert: u64, tags: seq<Tag>, meta: Meta)

  function EncodeNode(r: NodeRow, rest: bytes): bytes {
    PutI64(r.id) + (PutI32(r.lat) + (PutI32(r.lon) + (PutU64(r.hilbert)
      + (PutU32(|r.tags|) + (PutPairs(r.tags) + PutMeta(r.meta, rest))))))
  }

  function DecodeNode(cur: bytes): Got<NodeRow> {
    var (id, cur) :- GetI64(cur);
    var (lat, cur) :- GetI32(cur);
    var (lon, cur) :- GetI32(cur);
    var (hilbert, cur) :- GetU64(cur);
    var (n, cur) :- GetU32(cur);
    var (tags, cur) :- GetPairs(n, cur);
    var (meta, cur) :- GetMeta(cur);
    Got(NodeRow(id, lat, lon, hilbert, tags, meta), cur)
  }

  predicate NodeFits(r: NodeRow) { |r.tags| < U32_LIMIT && TagsFit(r.tags) && MetaFits(r.meta) }

  lemma NodeRoundTrip(r: NodeRow, rest: bytes)
    requires NodeFits(r)
    ensures DecodeNode(EncodeNode(r, rest)) == Got(r.(meta := NormMeta(r.meta)), rest)
  {
    Limits();
    var r5 := PutMeta(r.meta, rest);
    var r4 := PutPairs(r.tags) + r5;
    var r3 := PutU32(|r.tags|) + r4;
    var r2 := PutU64(r.hilbert) + r3;
    var r1 := PutI32(r.lon) + r2;
    GetOfPutI64(r.id, PutI32(r.lat) + r1);
    GetOfPutI32(r.lat, r1);
    GetOfPutI32(r.lon, r2);
    GetOfPutU64(r.hilbert, r3);
    GetOfPutLe(|r.tags|, 4, r4);
    GetOfPutPairs(r.tags, r5);
    GetOfPutMeta(r.meta, rest);
  }

  datatype Geo = Geo(xmin: Option<i32>, ymin: Option<i32>, xmax: Option<i32>, ymax: Option<i32>, wkb: Option<bytes>,
                     isClosed: bool, isArea: bool, centroidLat: Option<i32>, centroidLon: Option<i32>, hilbert: u64)
  datatype WayRow = WayRow(id: i64, refs: seq<i64>, tags: seq<Tag>, meta: Meta, geo: Geo)

  function PutGeo(g: Geo, rest: bytes): bytes {
    PutI32Opt(g.xmin) + (PutI32Opt(g.ymin) + (PutI32Opt(g.xmax) + (PutI32Opt(g.ymax) + (PutBytesOpt(g.wkb)
      + (PutU8(if g.isClosed then 1 else 0) + (PutU8(if g.isArea then 1 else 0)
      + (PutI32Opt(g.centroidLat) + (PutI32Opt(g.centroidLon) + (PutU64(g.hilbert) + rest)))))))))
  }

  function GetGeo(cur: bytes): Got<Geo> {
    var (xmin, cur) :- GetI32Opt(cur);
    var (ymin, cur) :- GetI32Opt(cur);
    var (xmax, cur) :- GetI32Opt(cur);
    var (ymax, cur) :- GetI32Opt(cur);
    var (wkb, cur) :- GetBytesOpt(cur);
    var (closed, cur) :- GetU8(cur);
    var (area, cur) :- GetU8(cur);
    var (clat, cur) :- GetI32Opt(cur);
    var (clon, cur) :- GetI32Opt(cur);
    var (hilbert, cur) :- GetU64(cur);
    Got(Geo(xmin, ymin, xmax, ymax, wkb, closed != 0, area != 0, clat, clon, hilbert), cur)
  }

  function NormGeo(g: Geo): Geo {
    g.(xmin := Norm32(g.xmin), ymin := Norm32(g.ymin), xmax := Norm32(g.xmax), ymax := Norm32(g.ymax),
       centroidLat := Norm32(g.centroidLat), centroidLon := Norm32(g.centroidLon))
  }

  predicate GeoFits(g: Geo) { g.wkb.Some? ==> |g.wkb.value| < U32_LIMIT - 1 }

  lemma GetOfPutGeo(g: Geo, rest: bytes)
    requires GeoFits(g)
    ensures GetGeo(PutGeo(g, rest)) == Got(NormGeo(g), rest)
  {
    var r8 := PutU64(g.hilbert) + rest;
    var r7 := PutI32Opt(g.centroidLon) + r8;
    var r6 := PutI32Opt(g.centroidLat) + r7;
    var r5 := PutU8(if g.isArea then 1 else 0) + r6;
    var r4 := PutU8(if g.isClosed then 1 else 0) + r5;
    var r3 := PutBytesOpt(g.wkb) + r4;
    var r2 := PutI32Opt(g.ymax) + r3;
    var r1 := PutI32Opt(g.xmax) + r2;
    GetOfPutI32Opt(g.xmin, PutI32Opt(g.ymin) + r1);
    GetOfPutI32Opt(g.ymin, r1);
    GetOfPutI32Opt(g.xmax, r2);
    GetOfPutI32Opt(g.ymax, r3);
    GetOfPutBytesOpt(g.wkb, r4);
    GetOfPutU8(if g.isClosed then 1 else 0, r5);
    GetOfPutU8(if g.isArea then 1 else 0, r6);
    GetOfPutI32Opt(g.centroidLat, r7);
    GetOfPutI32Opt(g.centroidLon, r8);
    GetOfPutU64(g.hilbert, rest);
  }

  function EncodeWay(r: WayRow, rest: bytes): bytes {
    PutI64(r.id) + (PutU32(|r.refs|) + (PutI64s(r.refs)
      + (PutU32(|r.tags|) + (PutPairs(r.tags) + PutMeta(r.meta, PutGeo(r.geo, rest))))))
  }

  function DecodeWay(cur: bytes): Got<WayRow> {
    var (id, cur) :- GetI64(cur);
    var (n, cur) :- GetU32(cur);
    var (refs, cur) :- GetI64s(n, cur);
    var (k, cur) :- GetU32(cur);
    var (tags, cur) :- GetPairs(k, cur);
    var (meta, cur) :- GetMeta(cur);
    var (geo, cur) :- GetGeo(cur);
    Got(WayRow(id, refs, tags, meta, geo), cur)
  }

  predicate WayFits(r: WayRow) {
    |r.refs| < U32_LIMIT && |r.tags| < U32_LIMIT && TagsFit(r.tags) && MetaFits(r.meta) && GeoFits(r.geo)
  }

  function NormWay(r: WayRow): WayRow { r.(meta := NormMeta(r.meta), geo := NormGeo(r.geo)) }

  lemma WayRoundTrip(r: WayRow, rest: bytes)
    requires WayFits(r)
    ensures DecodeWay(EncodeWay(r, rest)) == Got(NormWay(r), rest)
  {
    Limits();
    var r5 := PutGeo(r.geo, rest);
    var r4 := PutMeta(r.meta, r5);
    var r3 := PutPairs(r.tags) + r4;
    var r2 := PutU32(|r.tags|) + r3;
    var r1 := PutI64s(r.refs) + r2;
    GetOfPutI64(r.id, PutU32(|r.refs|) + r1);
    GetOfPutLe(|r.refs|, 4, r1);
    GetOfPutI64s(r.refs, r2);
    GetOfPutLe(|r.tags|, 4, r3);
    GetOfPutPairs(r.tags, r4);
    GetOfPutMeta(r.meta, r5);
    GetOfPutGeo(r.geo, rest);
  }

  // No optional field is Some(MIN).
  predicate NoMin(r: WayRow) {
    var m, g := r.meta, r.geo;
    && m.version != Some(I32_MIN) && m.changeset != Some(I64_MIN) && m.timestampUs != Some(I64_MIN) && m.uid != Some(I32_MIN)
    && g.xmin != Some(I32_MIN) && g.ymin != Some(I32_MIN) && g.xmax != Some(I32_MIN) && g.ymax != Some(I32_MIN)
    && g.centroidLat != Some(I32_MIN) && g.centroidLon != Some(I32_MIN)
  }

  // A way that fits comes back as itself exactly when none of its optional fields is Some(MIN).
  lemma WaySurvivesExactly(r: WayRow)
    requires WayFits(r)
    ensures DecodeWay(EncodeWay(r, [])) == Got(r, []) <==> NoMin(r)
  {
    WayRoundTrip(r, []);
  }

  // A way whose box has its west edge at Some(MIN) comes back without it.
  lemma MinIsLost()
    ensures var geo := Geo(Some(I32_MIN), None, None, None, None, false, false, None, None, 0);
      var way := WayRow(1, [], [], Meta(None, None, None, None, None), geo);
      WayFits(way) && DecodeWay(EncodeWay(way, [])) == Got(way.(geo := geo.(xmin := None)), []) != Got(way, [])
  {
    var geo := Geo(Some(I32_MIN), None, None, None, None, false, false, None, None, 0);
    WayRoundTrip(WayRow(1, [], [], Meta(None, None, None, None, None), geo), []);
  }

  // ---- spill files ------------------------------------------------------------------------------------------------

  function Frame(payload: bytes): bytes { PutU32(|payload|) + payload }

  function Frames(payloads: seq<bytes>): bytes {
    if payloads == [] then [] else Frame(payloads[0]) + Frames(payloads[1..])
  }

  predicate AllFit(payloads: seq<bytes>) { forall i :: 0 <= i < |payloads| ==> |payloads[i]| < U32_LIMIT }

  lemma {:induction false} FramesAppend(a: seq<bytes>, payload: bytes)
    ensures Frames(a + [payload]) == Frames(a) + Frame(payload)
  {
    if a == [] {
      assert [payload][1..] == [];
      assert Frames([payload]) == Frame(payload) + [];
    } else {
      FramesAppend(a[1..], payload);
      assert (a + [payload])[1..] == a[1..] + [payload];
      assert Frames(a + [payload]) == Frame(a[0]) + (Frames(a[1..]) + Frame(payload));
    }
  }

  // A whole file read back; None is the error of a payload cut short. Fewer than four bytes at
  // the end count as the end of the file.
  function Records(file: bytes): (r: Option<seq<bytes>>)
    decreases |file|
  {
    var header := GetU32(file);
    if header.Short? then Some([])
    else if |header.rest| < header.value then None
    else
      var more := Records(header.rest[header.value..]);
      if more.None? then None else Some([header.rest[..header.value]] + more.value)
  }

  lemma {:induction false} RecordsOfFrames(payloads: seq<bytes>)
    requires AllFit(payloads)
    ensures Records(Frames(payloads)) == Some(payloads)
  {
    if payloads != [] {
      var p, tail := payloads[0], Frames(payloads[1..]);
      Limits();
      assert Frames(payloads) == PutU32(|p|) + (p + tail);
      GetOfPutLe(|p|, 4, p + tail);
      SliceOfAppend(p, tail);
      RecordsOfFrames(payloads[1..]);
      assert [p] + payloads[1..] == payloads;
    }
  }

  function Prepend(out: seq<bytes>, r: Option<seq<bytes>>): Option<seq<bytes>> {
    if r.None? then None else Some(out + r.value)
  }

  lemma OneMoreRecord(file: bytes, at: nat, len: nat, out: seq<bytes>)
    requires at + 4 <= |file| && len == LeValue(file[at..at + 4]) && at + 4 + len <= |file|
    ensures Prepend(out, Records(file[at..]))
      == Prepend(out + [file[at + 4..at + 4 + len]], Records(file[at + 4 + len..]))
  {
    var tail := file[at..];
    assert tail[..4] == file[at..at + 4] && tail[4..] == file[at + 4..];
    var payload, rest := tail[4..][..len], tail[4..][len..];
    assert payload == file[at + 4..at + 4 + len] && rest == file[at + 4 + len..];
    if Records(rest).Some? {
      assert out + ([payload] + Records(rest).value) == (out + [payload]) + Records(rest).value;
    }
  }

  // The read loop.
  method ReadRecords(file: bytes) returns (r: Option<seq<bytes>>)
    ensures r == Records(file)
  {
    var out: seq<bytes> := [];
    var at := 0;
    assert file[0..] == file;
    if Records(file).Some? { assert out + Records(file).value == Records(file).value; }
    while true
      invariant 0 <= at <= |file|
      invariant Records(file) == Prepend(out, Records(file[at..]))
      decreases |file| - at
    {
      if |file| - at < 4 {
        assert out + [] == out;
        return Some(out);
      }
      var len := LeValue(file[at..at + 4]);
      assert file[at..][..4] == file[at..at + 4] && |file[at..][4..]| == |file| - at - 4;
      if |file| - at - 4 < len { return None; }
      OneMoreRecord(file, at, len, out);
      out := out + [file[at + 4..at + 4 + len]];
      at := at + 4 + len;
    }
  }

  // One append-only file per cell.
  class SpillSet {
    var files: map<string, bytes>
    ghost var appended: map<string, seq<bytes>>

    ghost predicate Valid()
      reads this
    {
      files.Keys == appended.Keys && forall cell :: cell in files ==> files[cell] == Frames(appended[cell])
    }

    constructor ()
      ensures Valid() && files == map[] && appended == map[]
    {
      files, appended := map[], map[];
    }

    method Append(cell: string, payload: bytes)
      requires Valid()
      modifies this
      ensures Valid()
      ensures appended == old(appended)[cell := (if cell in old(appended) then old(appended)[cell] else []) + [payload]]
    {
      var before := if cell in files then files[cell] else [];
      ghost var log := if cell in appended then appended[cell] else [];
      FramesAppend(log, payload);
      files := files[cell := before + PutU32(|payload|) + payload];
      appended := appended[cell := log + [payload]];
      assert before + PutU32(|payload|) + payload == before + Frame(payload);
    }

    // What was appended to a cell is what is read from its file, in order.
    method ReadBack(cell: string) returns (r: Option<seq<bytes>>)
      requires Valid() && cell in files && AllFit(appended[cell])
      ensures r == Some(appended[cell])
    {
      r := ReadRecords(files[cell]);
      RecordsOfFrames(appended[cell]);
    }
  }

  // ---- the cursor of the decoders --------------------------------------------------------------------------

  function PrependAll<T>(out: seq<T>, r: Got<seq<T>>): Got<seq<T>> {
    if r.Short? then Short else Got(out + r.value, r.rest)
  }

  class Cursor {
    var cur: bytes

    constructor (payload: bytes)
      ensures cur == payload
    {
      cur := payload;
    }

    method TakeU32() returns (v: nat)
      requires GetU32(cur).Got?
      modifies this
      ensures Got(v, cur) == GetU32(old(cur))
    {
      v := LeValue(cur[..4]);
      cur := cur[4..];
    }

    method TakeU64() returns (v: u64)
      requires GetU64(cur).Got?
      modifies this
      ensures Got(v, cur) == GetU64(old(cur))
    {
      Limits();
      LeBound(cur[..8]);
      v := LeValue(cur[..8]);
      cur := cur[8..];
    }

    method TakeI64() returns (v: i64)
      requires GetI64(cur).Got?
      modifies this
      ensures Got(v, cur) == GetI64(old(cur))
    {
      Limits();
      LeBound(cur[..8]);
      var u: int := LeValue(cur[..8]);
      v := if u >= 0x8000_0000_0000_0000 then u - 0x1_0000_0000_0000_0000 else u;
      cur := cur[8..];
    }

    method TakeI32Opt() returns (v: Option<i32>)
      requires GetI32Opt(cur).Got?
      modifies this
      ensures Got(v, cur) == GetI32Opt(old(cur))
    {
      var i := TakeI32();
      v := if i == I32_MIN then None else Some(i);
    }

    method TakeI32() returns (v: i32)
      requires GetI32(cur).Got?
      modifies this
      ensures Got(v, cur) == GetI32(old(cur))
    {
      Limits();
      LeBound(cur[..4]);
      var u: int := LeValue(cur[..4]);
      v := if u >= 0x8000_0000 then u - 0x1_0000_0000 else u;
      cur := cur[4..];
    }

    method TakeI64Opt() returns (v: Option<i64>)
      requires GetI64Opt(cur).Got?
      modifies this
      ensures Got(v, cur) == GetI64Opt(old(cur))
    {
      var i := TakeI64();
      v := if i == I64_MIN then None else Some(i);
    }

    method TakeU8() returns (v: byte)
      requires GetU8(cur).Got?
      modifies this
      ensures Got(v, cur) == GetU8(old(cur))
    {
      v := cur[0];
      cur := cur[1..];
    }

    method TakeBytesOpt() returns (v: Option<bytes>)
      requires GetBytesOpt(cur).Got?
      modifies this
      ensures Got(v, cur) == GetBytesOpt(old(cur))
    {
      var n := TakeU32();
      if n == 0 { return None; }
      v := Some(cur[..n - 1]);
      cur := cur[n - 1..];
    }

    method TakeStr() returns (s: bytes)
      requires GetStr(cur).Got?
      modifies this
      ensures Got(s, cur) == GetStr(old(cur))
    {
      var n := TakeU32();
      s := cur[..n];
      cur := cur[n..];
    }

    // The two loops that push onto a vector.
    method TakeRefs(n: nat) returns (refs: seq<i64>)
      requires GetI64s(n, cur).Got?
      modifies this
      ensures Got(refs, cur) == GetI64s(n, old(cur))
    {
      refs := [];
      PrependNothing(GetI64s(n, cur));
      for i := 0 to n
        invariant PrependAll(refs, GetI64s(n - i, cur)) == GetI64s(n, old(cur))
      {
        ghost var before := cur;
        var v := TakeI64();
        PushRef(n - i, before, v, cur, refs);
        refs := refs + [v];
      }
      assert refs + [] == refs;
    }

    method TakePair() returns (t: Tag)
      requires GetPair(cur).Got?
      modifies this
      ensures Got(t, cur) == GetPair(old(cur))
    {
      var k := TakeStr();
      var v := TakeStr();
      t := Tag(k, v);
    }

    method TakePairs(n: nat) returns (tags: seq<Tag>)
      requires GetPairs(n, cur).Got?
      modifies this
      ensures Got(tags, cur) == GetPairs(n, old(cur))
    {
      tags := [];
      PrependNothing(GetPairs(n, cur));
      for i := 0 to n
        invariant PrependAll(tags, GetPairs(n - i, cur)) == GetPairs(n, old(cur))
      {
        ghost var before := cur;
        var t := TakePair();
        PushTag(n - i, before, t, cur, tags);
        tags := tags + [t];
      }
      assert tags + [] == tags;
    }

    method TakeMeta() returns (m: Meta)
      requires GetMeta(cur).Got?
      modifies this
      ensures Got(m, cur) == GetMeta(old(cur))
    {
      var version := TakeI32Opt();
      var changeset := TakeI64Opt();
      var timestampUs := TakeI64Opt();
      var uid := TakeI32Opt();
      var flag := TakeU8();
      var s := TakeStr();
      m := Meta(version, changeset, timestampUs, uid, if flag == 0 then None else Some(s));
    }

    method TakeGeo() returns (g: Geo)
      requires GetGeo(cur).Got?
      modifies this
      ensures Got(g, cur) == GetGeo(old(cur))
    {
      var xmin := TakeI32Opt();
      var ymin := TakeI32Opt();
      var xmax := TakeI32Opt();
      var ymax := TakeI32Opt();
      var wkb := TakeBytesOpt();
      var closed := TakeU8();
      var area := TakeU8();
      var clat := TakeI32Opt();
      var clon := TakeI32Opt();
      var hilbert := TakeU64();
      g := Geo(xmin, ymin, xmax, ymax, wkb, closed != 0, area != 0, clat, clon, hilbert);
    }
  }

  // The decoders proper: one cursor over the payload. They panic where DecodeNode and DecodeWay are
  // Short.
  method DecodeNodeRecord(payload: bytes) returns (r: NodeRow)
    requires DecodeNode(payload).Got?
    ensures r == DecodeNode(payload).value
  {
    var c := new Cursor(payload);
    var id := c.TakeI64();
    var lat := c.TakeI32();
    var lon := c.TakeI32();
    var hilbert := c.TakeU64();
    var n := c.TakeU32();
    var tags := c.TakePairs(n);
    var meta := c.TakeMeta();
    r := NodeRow(id, lat, lon, hilbert, tags, meta);
  }

  method DecodeWayRecord(payload: bytes) returns (r: WayRow)
    requires DecodeWay(payload).Got?
    ensures r == DecodeWay(payload).value
  {
    var c := new Cursor(payload);
    var id := c.TakeI64();
    var n := c.TakeU32();
    var refs := c.TakeRefs(n);
    var k := c.TakeU32();
    var tags := c.TakePairs(k);
    var meta := c.TakeMeta();
    var geo := c.TakeGeo();
    r := WayRow(id, refs, tags, meta, geo);
  }

  lemma FieldForgetsMin(v: Option<i32>, w: Option<i64>)
    ensures PutI32Opt(Norm32(v)) == PutI32Opt(v) && PutI64Opt(Norm64(w)) == PutI64Opt(w)
  {
  }

  lemma MetaForgetsMin(m: Meta, rest: bytes)
    ensures PutMeta(m, rest) == PutMeta(NormMeta(m), rest)
  {
    FieldForgetsMin(m.version, m.changeset);
    FieldForgetsMin(m.uid, m.timestampUs);
  }

  lemma GeoForgetsMin(g: Geo, rest: bytes)
    ensures PutGeo(g, rest) == PutGeo(NormGeo(g), rest)
  {
    FieldForgetsMin(g.xmin, None);
    FieldForgetsMin(g.ymin, None);
    FieldForgetsMin(g.xmax, None);
    FieldForgetsMin(g.ymax, None);
    FieldForgetsMin(g.centroidLat, None);
    FieldForgetsMin(g.centroidLon, None);
  }

  // Encoding a way forgets Some(MIN): the bytes are those of the record that comes back.
  lemma EncodeForgetsMin(r: WayRow, rest: bytes)
    ensures EncodeWay(r, rest) == EncodeWay(NormWay(r), rest)
  {
    GeoForgetsMin(r.geo, rest);
    MetaForgetsMin(r.meta, PutGeo(r.geo, rest));
  }

  lemma PrependNothing<T>(r: Got<seq<T>>)
    ensures PrependAll([], r) == r
  {
    if r.Got? { assert [] + r.value == r.value; }
  }

  lemma PushRef(n: nat, before: bytes, v: i64, after: bytes, refs: seq<i64>)
    requires n > 0 && GetI64(before) == Got(v, after)
    ensures PrependAll(refs, GetI64s(n, before)) == PrependAll(refs + [v], GetI64s(n - 1, after))
  {
    var more := GetI64s(n - 1, after);
    if more.Got? { assert refs + ([v] + more.value) == (refs + [v]) + more.value; }
  }

  lemma PushTag(n: nat, before: bytes, t: Tag, after: bytes, tags: seq<Tag>)
    requires n > 0 && GetPair(before) == Got(t, after)
    ensures PrependAll(tags, GetPairs(n, before)) == PrependAll(tags + [t], GetPairs(n - 1, after))
  {
    var more := GetPairs(n - 1, after);
    if more.Got? { assert tags + ([t] + more.value) == (tags + [t]) + more.value; }
  }
}
