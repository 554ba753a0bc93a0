/** The bytes of spill records, field by field (rust/osmpq-raw/src/spill.rs:14-56, 85-259). */
module SpillLayout {
  import opened Options
  import opened Spill

  // The number in four or eight bytes, least significant byte first; and with a sign.
  function Number4(b: bytes): nat
    requires |b| == 4
  {
    var p: int, q: int, r: int := b[1], b[2], b[3];
    b[0] + 256 * p + 65536 * q + 16777216 * r
  }

  function Number8(b: bytes): nat
    requires |b| == 8
  {
    Number4(b[..4]) + 4294967296 * Number4(b[4..])
  }

  function Int4(b: bytes): int
    requires |b| == 4
  {
    if Number4(b) < 2147483648 then Number4(b) else Number4(b) - 4294967296
  }

  function Int8(b: bytes): int
    requires |b| == 8
  {
    if Number8(b) < 9223372036854775808 then Number8(b) else Number8(b) - 18446744073709551616
  }

  lemma Bytes4(b: bytes)
    requires |b| == 4
    ensures LeValue(b) == Number4(b)
  {
    assert LeValue(b[1..][1..][1..][1..]) == 0;
    assert LeValue(b[1..][1..][1..]) == b[3];
    var q: int, r: int := b[2], b[3];
    assert LeValue(b[1..][1..]) == q + 256 * r;
    assert LeValue(b[1..]) == b[1] + 256 * (q + 256 * r);
  }

  lemma {:induction false} LeOfParts(a: bytes, b: bytes)
    ensures LeValue(a + b) == LeValue(a) + Limit(|a|) * LeValue(b)
  {
    if a == [] {
      assert a + b == b;
    } else {
      assert (a + b)[1..] == a[1..] + b;
      LeOfParts(a[1..], b);
      Scale(Limit(|a[1..]|), LeValue(b));
    }
  }

  lemma Scale(l: nat, v: nat)
    ensures 256 * (l * v) == (256 * l) * v
  {
  }

  lemma Bytes8(b: bytes)
    requires |b| == 8
    ensures LeValue(b) == Number8(b)
  {
    Limits();
    assert b == b[..4] + b[4..];
    LeOfParts(b[..4], b[4..]);
    Bytes4(b[..4]);
    Bytes4(b[4..]);
  }

  lemma Put4(v: nat)
    requires v < 4294967296
    ensures |PutU32(v)| == 4 && Number4(PutU32(v)) == v
  {
    Limits();
    LeRoundTrip(v, 4);
    Bytes4(PutU32(v));
  }

  lemma PutInt4(v: i32)
    ensures |PutI32(v)| == 4 && Int4(PutI32(v)) == v
  {
    Put4(if v < 0 then v + 4294967296 else v);
  }

  lemma Put8(v: u64)
    ensures |PutU64(v)| == 8 && Number8(PutU64(v)) == v
  {
    Limits();
    LeRoundTrip(v, 8);
    Bytes8(PutU64(v));
  }

  lemma PutInt8(v: i64)
    ensures |PutI64(v)| == 8 && Int8(PutI64(v)) == v
  {
    Put8(if v < 0 then v + 18446744073709551616 else v);
  }

  // ---- records ----------------------------------------------------------------------------------

  lemma FiveParts(a: bytes, b: bytes, c: bytes, d: bytes, e: bytes, back: bytes)
    ensures var all := a + (b + (c + (d + (e + back))));
      var (i, j, k, l) := (|a|, |a| + |b|, |a| + |b| + |c|, |a| + |b| + |c| + |d|);
      && |all| == l + |e| + |back| && all[..i] == a && all[i..j] == b && all[j..k] == c && all[k..l] == d
      && all[l..l + |e|] == e && all[l + |e|..] == back
  {
  }

  // A node: id, latitude, longitude, curve position, number of tags.
  lemma NodeLayout(r: NodeRow, rest: bytes)
    requires |r.tags| < 4294967296
    ensures var b := EncodeNode(r, rest);
      && |b| >= 28 && Int8(b[..8]) == r.id && Int4(b[8..12]) == r.lat && Int4(b[12..16]) == r.lon
      && Number8(b[16..24]) == r.hilbert && Number4(b[24..28]) == |r.tags|
      && b[28..] == PutPairs(r.tags) + PutMeta(r.meta, rest)
  {
    PutInt8(r.id);
    PutInt4(r.lat);
    PutInt4(r.lon);
    Put8(r.hilbert);
    Put4(|r.tags|);
    FiveParts(PutI64(r.id), PutI32(r.lat), PutI32(r.lon), PutU64(r.hilbert), PutU32(|r.tags|),
              PutPairs(r.tags) + PutMeta(r.meta, rest));
  }

  lemma {:induction false} RefsAt(refs: seq<i64>, i: nat)
    requires i < |refs|
    ensures |PutI64s(refs)| == 8 * |refs| && Int8(PutI64s(refs)[8 * i..8 * i + 8]) == refs[i]
    decreases i
  {
    SizeOfRefs(refs);
    SizeOfRefs(refs[1..]);
    var all, more := PutI64s(refs), PutI64s(refs[1..]);
    PutInt8(refs[0]);
    if i == 0 {
      assert all[0..8] == PutI64(refs[0]);
    } else {
      RefsAt(refs[1..], i - 1);
      assert all[8 * i..8 * i + 8] == more[8 * (i - 1)..8 * (i - 1) + 8];
    }
  }

  lemma {:induction false} SizeOfRefs(refs: seq<i64>)
    ensures |PutI64s(refs)| == 8 * |refs|
  {
    if refs != [] { SizeOfRefs(refs[1..]); }
  }

  // A way: id, number of references, the references, number of tags.
  lemma WayLayout(r: WayRow, rest: bytes, i: nat)
    requires |r.refs| < 4294967296 && |r.tags| < 4294967296
    ensures var b := EncodeWay(r, rest); var end := 12 + 8 * |r.refs|;
      && |b| >= end + 4 && Int8(b[..8]) == r.id && Number4(b[8..12]) == |r.refs|
      && (i < |r.refs| ==> Int8(b[12..end][8 * i..8 * i + 8]) == r.refs[i]) && Number4(b[end..end + 4]) == |r.tags|
      && b[end + 4..] == PutPairs(r.tags) + PutMeta(r.meta, PutGeo(r.geo, rest))
  {
    PutInt8(r.id);
    Put4(|r.refs|);
    Put4(|r.tags|);
    SizeOfRefs(r.refs);
    if i < |r.refs| { RefsAt(r.refs, i); }
    var back := PutPairs(r.tags) + PutMeta(r.meta, PutGeo(r.geo, rest));
    assert [] + back == back;
    FiveParts(PutI64(r.id), PutU32(|r.refs|), PutI64s(r.refs), PutU32(|r.tags|), [], back);
  }

  // A text: its length and its bytes.
  lemma TextLayout(s: bytes)
    requires |s| < 4294967296
    ensures |PutStr(s)| == 4 + |s| && Number4(PutStr(s)[..4]) == |s| && PutStr(s)[4..] == s
  {
    Put4(|s|);
    assert PutStr(s)[..4] == PutU32(|s|);
  }

  // Tags: key and value, one pair after the other.
  lemma TagsLayout(tags: seq<Tag>)
    requires tags != []
    ensures PutPairs(tags) == PutStr(tags[0].key) + PutStr(tags[0].value) + PutPairs(tags[1..])
  {
  }

  // The value of an optional number, the minimum when there is none.
  lemma Optional4(v: Option<i32>)
    ensures |PutI32Opt(v)| == 4 && Int4(PutI32Opt(v)) == if v.Some? then v.value else -2147483648
  {
    PutInt4(if v.Some? then v.value else -2147483648);
  }

  lemma Optional8(v: Option<i64>)
    ensures |PutI64Opt(v)| == 8 && Int8(PutI64Opt(v)) == if v.Some? then v.value else -9223372036854775808
  {
    PutInt8(if v.Some? then v.value else -9223372036854775808);
  }

  // Metadata: version, changeset, time, user id, a byte that says whether there is a user name, and
  // the name.
  lemma MetaLayout(m: Meta, rest: bytes)
    ensures var b := PutMeta(m, rest);
      && |b| >= 25 && b[..4] == PutI32Opt(m.version) && b[4..12] == PutI64Opt(m.changeset)
      && b[12..20] == PutI64Opt(m.timestampUs) && b[20..24] == PutI32Opt(m.uid)
      && b[24..25] == [if m.user.Some? then 1 else 0]
      && b[25..] == PutStr(if m.user.Some? then m.user.value else []) + rest
  {
    Optional4(m.version);
    Optional8(m.changeset);
    Optional8(m.timestampUs);
    Optional4(m.uid);
    var back := PutStr(if m.user.Some? then m.user.value else []) + rest;
    FiveParts(PutI32Opt(m.version), PutI64Opt(m.changeset), PutI64Opt(m.timestampUs), PutI32Opt(m.uid),
              PutU8(if m.user.Some? then 1 else 0), back);
  }

  lemma HeadAndTail(head: bytes, tail: bytes)
    requires |head| == 4
    ensures (head + tail)[..4] == head && (head + tail)[4..] == tail
  {
  }

  lemma ShapeBytes(shape: bytes)
    requires |shape| < 4294967295
    ensures PutBytesOpt(Some(shape)) == PutU32(|shape| + 1) + shape
  {
    assert |shape| % U32_LIMIT == |shape|;
  }

  // The optional shape: 0, or its length plus one and its bytes.
  lemma ShapeLayout(shape: bytes)
    requires |shape| < 4294967295
    ensures PutBytesOpt(None) == PutU32(0) && Number4(PutU32(0)) == 0
    ensures var b := PutBytesOpt(Some(shape)); |b| >= 4 && Number4(b[..4]) == |shape| + 1 && b[4..] == shape
  {
    Put4(0);
    Put4(|shape| + 1);
    ShapeBytes(shape);
    HeadAndTail(PutU32(|shape| + 1), shape);
  }

  // Geometry: the box, west, south, east, north; the shape; whether it is closed and an area; the
  // centroid's latitude and longitude; the curve position.
  lemma GeoLayout(g: Geo, rest: bytes)
    ensures var b := PutGeo(g, rest); var n := 16 + |PutBytesOpt(g.wkb)|;
      && |b| == n + 18 + |rest| && b[..4] == PutI32Opt(g.xmin) && b[4..8] == PutI32Opt(g.ymin)
      && b[8..12] == PutI32Opt(g.xmax) && b[12..16] == PutI32Opt(g.ymax) && b[16..n] == PutBytesOpt(g.wkb)
      && b[n..n + 1] == [if g.isClosed then 1 else 0] && b[n + 1..n + 2] == [if g.isArea then 1 else 0]
      && b[n + 2..n + 6] == PutI32Opt(g.centroidLat) && b[n + 6..n + 10] == PutI32Opt(g.centroidLon)
      && Number8(b[n + 10..n + 18]) == g.hilbert && b[n + 18..] == rest
  {
    Optional4(g.xmin);
    Optional4(g.ymin);
    Optional4(g.xmax);
    Optional4(g.ymax);
    Optional4(g.centroidLat);
    Optional4(g.centroidLon);
    Put8(g.hilbert);
    var closed, area := PutU8(if g.isClosed then 1 else 0), PutU8(if g.isArea then 1 else 0);
    TenParts(PutI32Opt(g.xmin), PutI32Opt(g.ymin), PutI32Opt(g.xmax), PutI32Opt(g.ymax), PutBytesOpt(g.wkb),
             closed, area, PutI32Opt(g.centroidLat), PutI32Opt(g.centroidLon), PutU64(g.hilbert), rest);
  }

  lemma TenParts(a: bytes, b: bytes, c: bytes, d: bytes, e: bytes, f: bytes, g: bytes, h: bytes, i: bytes, j: bytes, back: bytes)
    requires |a| == |b| == |c| == |d| == |h| == |i| == 4 && |f| == |g| == 1 && |j| == 8
    ensures var all := a + (b + (c + (d + (e + (f + (g + (h + (i + (j + back))))))))); var n := 16 + |e|;
      && |all| == n + 18 + |back| && all[..4] == a && all[4..8] == b && all[8..12] == c && all[12..16] == d && all[16..n] == e
      && all[n..n + 1] == f && all[n + 1..n + 2] == g && all[n + 2..n + 6] == h && all[n + 6..n + 10] == i
      && all[n + 10..n + 18] == j && all[n + 18..] == back
  {
    var last := f + (g + (h + (i + (j + back))));
    var all, n := a + (b + (c + (d + (e + last)))), 16 + |e|;
    FiveParts(a, b, c, d, e, last);
    FiveParts(f, g, h, i, j, back);
    assert all[n..] == last;
    assert all[n..n + 1] == last[..1] && all[n + 1..n + 2] == last[1..2] && all[n + 2..n + 6] == last[2..6];
    assert all[n + 6..n + 10] == last[6..10] && all[n + 10..n + 18] == last[10..18] && all[n + 18..] == last[18..];
  }
}
