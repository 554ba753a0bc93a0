/** The three node-location stores behind way and relation resolution: a sorted vector, a file
    addressed by id and a file of sorted records (rust/osmpq-raw/src/store.rs). */
module NodeStores {
  import opened Spill

  datatype Row = Row(id: i64, lat: i32, lon: i32)

  // What a lookup gives; Panic is a slice past the end of the mapping.
  datatype Answer = At(lat: i32, lon: i32) | Missing | Panic

  // ---- the map the stores represent -----------------------------------------------------------

  // The location last put for an id.
  function Lookup(rows: seq<Row>, id: int): Answer {
    if rows == [] then Missing
    else
      var last := rows[|rows| - 1];
      if last.id == id then At(last.lat, last.lon) else Lookup(rows[..|rows| - 1], id)
  }

  predicate Ascending(rows: seq<Row>) { forall i, j :: 0 <= i < j < |rows| ==> rows[i].id < rows[j].id }

  lemma {:induction false} LookupFinds(rows: seq<Row>, i: nat)
    requires Ascending(rows) && i < |rows|
    ensures Lookup(rows, rows[i].id) == At(rows[i].lat, rows[i].lon)
  {
    if i < |rows| - 1 { LookupFinds(rows[..|rows| - 1], i); }
  }

  lemma {:induction false} LookupMisses(rows: seq<Row>, id: int)
    ensures Lookup(rows, id) == Missing <==> forall i :: 0 <= i < |rows| ==> rows[i].id != id
    ensures Lookup(rows, id) != Panic
  {
    if rows != [] {
      LookupMisses(rows[..|rows| - 1], id);
      if rows[|rows| - 1].id != id && Lookup(rows, id) != Missing {
        var i :| 0 <= i < |rows| - 1 && rows[..|rows| - 1][i].id == id;
        assert rows[i].id == id;
      }
    }
  }

  // ---- bytes ----------------------------------------------------------------------------------

  function PlaceBytes(lat: i32, lon: i32): (bs: bytes)
    ensures |bs| == 8
  {
    PutI32(lat) + PutI32(lon)
  }

  function RecordBytes(r: Row): (bs: bytes)
    ensures |bs| == 16
  {
    PutI64(r.id) + PutI32(r.lat) + PutI32(r.lon)
  }

  function ReadI32(bs: bytes): i32
    requires |bs| == 4
  {
    Limits();
    var v := LeValue(bs);
    LeBound(bs);
    if v >= 0x8000_0000 then v - 0x1_0000_0000 else v
  }

  function ReadI64(bs: bytes): i64
    requires |bs| == 8
  {
    Limits();
    var v := LeValue(bs);
    LeBound(bs);
    if v >= 0x8000_0000_0000_0000 then v - 0x1_0000_0000_0000_0000 else v
  }

  lemma ReadOfPutI32(v: i32)
    ensures ReadI32(PutI32(v)) == v
  {
    Limits();
    LeRoundTrip(if v < 0 then v + 0x1_0000_0000 else v, 4);
  }

  lemma ReadOfPutI64(v: i64)
    ensures ReadI64(PutI64(v)) == v
  {
    Limits();
    LeRoundTrip(if v < 0 then v + 0x1_0000_0000_0000_0000 else v, 8);
  }

  lemma PlaceReads(lat: i32, lon: i32)
    ensures ReadI32(PlaceBytes(lat, lon)[..4]) == lat && ReadI32(PlaceBytes(lat, lon)[4..8]) == lon
  {
    ReadOfPutI32(lat);
    ReadOfPutI32(lon);
    assert PlaceBytes(lat, lon)[..4] == PutI32(lat) && PlaceBytes(lat, lon)[4..8] == PutI32(lon);
  }

  lemma RecordReads(r: Row)
    ensures ReadI64(RecordBytes(r)[..8]) == r.id
    ensures ReadI32(RecordBytes(r)[8..12]) == r.lat && ReadI32(RecordBytes(r)[12..16]) == r.lon
  {
    ReadOfPutI64(r.id);
    ReadOfPutI32(r.lat);
    ReadOfPutI32(r.lon);
    assert RecordBytes(r)[..8] == PutI64(r.id);
    assert RecordBytes(r)[8..12] == PutI32(r.lat) && RecordBytes(r)[12..16] == PutI32(r.lon);
  }

  // An unwritten slot reads as (0, 0), and so does a node put there.
  const HOLE: bytes := [0, 0, 0, 0, 0, 0, 0, 0]

  lemma HoleIsOrigin()
    ensures PlaceBytes(0, 0) == HOLE
  {
    assert PutI32(0) == [0, 0, 0, 0] by {
      assert LeBytes(0, 0) == [] && LeBytes(0, 1) == [0] && LeBytes(0, 2) == [0, 0];
      assert LeBytes(0, 3) == [0, 0, 0];
    }
  }

  method CopyInto(mmap: array<byte>, off: nat, bs: bytes)
    requires off + |bs| <= mmap.Length
    modifies mmap
    ensures mmap[..] == old(mmap[..off]) + bs + old(mmap[off + |bs|..])
  {
    for i := 0 to |bs|
      invariant forall j :: 0 <= j < mmap.Length ==>
        mmap[j] == if off <= j < off + i then bs[j - off] else old(mmap[j])
    {
      mmap[off + i] := bs[i];
    }
  }

  // ---- the sorted vector ----------------------------------------------------------------------

  class SortedMem {
    var rows: seq<Row>

    constructor()
      ensures rows == []
    {
      rows := [];
    }

    method Put(id: i64, lat: i32, lon: i32)
      modifies this
      ensures rows == old(rows) + [Row(id, lat, lon)]
    {
      rows := rows + [Row(id, lat, lon)];
    }

    // Searching a vector sorted by id for a key.
    function Get(id: i64): Answer
      reads this
      requires Ascending(rows)
    {
      Lookup(rows, id)
    }
  }

  // ---- the file addressed by id ---------------------------------------------------------------

  // Offsets are 64-bit: id * 8 wraps around from 2^61 on.
  const WRAP := 0x2000_0000_0000_0000

  // The puts whose id has a slot.
  function Slotted(puts: seq<Row>, maxId: int): seq<Row> {
    if puts == [] then []
    else
      var front := Slotted(puts[..|puts| - 1], maxId);
      var last := puts[|puts| - 1];
      if 0 <= last.id <= maxId then front + [last] else front
  }

  function SlotBytes(puts: seq<Row>, maxId: int, id: int): (bs: bytes)
    ensures |bs| == 8
  {
    match Lookup(Slotted(puts, maxId), id)
    case At(lat, lon) => PlaceBytes(lat, lon)
    case _ => HOLE
  }

  // What the store answers after some puts, in terms of those puts.
  function DenseAnswer(puts: seq<Row>, maxId: int, id: int): Answer {
    if id < 0 then Missing
    else if id % WRAP == WRAP - 1 then Panic
    else
      var a := Lookup(Slotted(puts, maxId), id % WRAP);
      if a == At(0, 0) then Missing else a
  }

  class DenseFile {
    const mmap: array<byte>
    const maxId: i64
    ghost var puts: seq<Row>

    ghost predicate Valid()
      reads this, mmap
    {
      && mmap.Length < 0x8000_0000_0000_0000
      && mmap.Length == ((if maxId < 0 then 0 else maxId) + 1) * 8
      && forall id :: 0 <= id < mmap.Length / 8 ==> mmap[id * 8..id * 8 + 8] == SlotBytes(puts, maxId, id)
    }

    // A file is shorter than 2^63 bytes.
    constructor(maxId: i64)
      requires maxId < 0x1000_0000_0000_0000 - 1
      ensures Valid() && puts == [] && this.maxId == maxId && fresh(mmap)
    {
      this.maxId := maxId;
      mmap := new byte[((if maxId < 0 then 0 else maxId) + 1) * 8](_ => 0);
      puts := [];
    }

    method Put(id: i64, lat: i32, lon: i32)
      requires Valid()
      modifies this, mmap
      ensures Valid() && puts == old(puts) + [Row(id, lat, lon)]
    {
      puts := puts + [Row(id, lat, lon)];
      assert puts[..|puts| - 1] == old(puts);
      if id < 0 || id > maxId {
        forall k | 0 <= k < mmap.Length / 8 ensures mmap[k * 8..k * 8 + 8] == SlotBytes(puts, maxId, k) {
          assert old(mmap[k * 8..k * 8 + 8]) == SlotBytes(old(puts), maxId, k);
        }
        return;
      }
      CopyInto(mmap, id * 8, PutI32(lat));
      CopyInto(mmap, id * 8 + 4, PutI32(lon));
      OneSlotWritten(old(mmap[..]), mmap[..], id, PutI32(lat), PutI32(lon));
      forall k | 0 <= k < mmap.Length / 8 ensures mmap[k * 8..k * 8 + 8] == SlotBytes(puts, maxId, k) {
        OneMoreSlotted(old(puts), Row(id, lat, lon), maxId, k);
        assert mmap[k * 8..k * 8 + 8] == mmap[..][k * 8..k * 8 + 8];
        assert k != id ==> old(mmap[k * 8..k * 8 + 8]) == old(mmap[..])[k * 8..k * 8 + 8];
      }
    }

    method Get(id: i64) returns (r: Answer)
      requires Valid()
      ensures r == DenseAnswer(puts, maxId, id)
    {
      if id < 0 { return Missing; }
      var off := id * 8 % (8 * WRAP);
      assert off == id % WRAP * 8;
      if (off + 8) % (8 * WRAP) > mmap.Length {
        NoSlot(puts, maxId, id % WRAP);
        return Missing;
      }
      if off + 8 > mmap.Length { return Panic; }
      var lat, lon := ReadI32(mmap[off..off + 4]), ReadI32(mmap[off + 4..off + 8]);
      SlotHolds(id % WRAP);
      LookupMisses(Slotted(puts, maxId), id % WRAP);
      if lat == 0 && lon == 0 { return Missing; }
      return At(lat, lon);
    }

    lemma SlotHolds(k: nat)
      requires Valid() && k * 8 + 8 <= mmap.Length
      ensures var lat, lon := ReadI32(mmap[k * 8..k * 8 + 4]), ReadI32(mmap[k * 8 + 4..k * 8 + 8]);
        match Lookup(Slotted(puts, maxId), k)
        case At(x, y) => lat == x && lon == y
        case _ => lat == 0 && lon == 0
    {
      var slot := mmap[k * 8..k * 8 + 8];
      assert slot == SlotBytes(puts, maxId, k);
      assert mmap[k * 8..k * 8 + 4] == slot[..4] && mmap[k * 8 + 4..k * 8 + 8] == slot[4..8];
      SlotReads(puts, maxId, k);
    }
  }

  // Writes to different slots are disjoint.
  lemma OneSlotWritten(before: bytes, after: bytes, id: nat, lat: bytes, lon: bytes)
    requires |lat| == 4 && |lon| == 4 && id * 8 + 8 <= |before|
    requires var mid := before[..id * 8] + lat + before[id * 8 + 4..];
      after == mid[..id * 8 + 4] + lon + mid[id * 8 + 8..]
    ensures |after| == |before| && after[id * 8..id * 8 + 8] == lat + lon
    ensures forall k :: 0 <= k < |before| / 8 && k != id ==> after[k * 8..k * 8 + 8] == before[k * 8..k * 8 + 8]
  {
    assert forall i :: 0 <= i < |before| && !(id * 8 <= i < id * 8 + 8) ==> after[i] == before[i];
  }

  lemma OneMoreSlotted(puts: seq<Row>, r: Row, maxId: int, k: int)
    requires 0 <= r.id <= maxId
    ensures SlotBytes(puts + [r], maxId, k)
      == if k == r.id then PlaceBytes(r.lat, r.lon) else SlotBytes(puts, maxId, k)
  {
    assert (puts + [r])[..|puts|] == puts;
    var s := Slotted(puts, maxId);
    assert Slotted(puts + [r], maxId) == s + [r];
    assert (s + [r])[..|s|] == s;
  }

  lemma {:induction false} SlottedAreInRange(puts: seq<Row>, maxId: int)
    ensures forall i :: 0 <= i < |Slotted(puts, maxId)| ==> 0 <= Slotted(puts, maxId)[i].id <= maxId
  {
    if puts != [] { SlottedAreInRange(puts[..|puts| - 1], maxId); }
  }

  lemma NoSlot(puts: seq<Row>, maxId: int, id: int)
    requires id > maxId
    ensures Lookup(Slotted(puts, maxId), id) == Missing
  {
    SlottedAreInRange(puts, maxId);
    LookupMisses(Slotted(puts, maxId), id);
  }

  lemma SlotReads(puts: seq<Row>, maxId: int, k: int)
    ensures var slot := SlotBytes(puts, maxId, k); var lat, lon := ReadI32(slot[..4]), ReadI32(slot[4..8]);
      match Lookup(Slotted(puts, maxId), k)
      case At(x, y) => lat == x && lon == y
      case _ => lat == 0 && lon == 0
  {
    match Lookup(Slotted(puts, maxId), k)
    case At(x, y) => PlaceReads(x, y);
    case _ => HoleIsOrigin(); PlaceReads(0, 0);
  }

  // ---- the file of sorted records -------------------------------------------------------------

  function Taken(puts: seq<Row>, capacity: nat): seq<Row> {
    if |puts| <= capacity then puts else puts[..capacity]
  }

  // A file that starts with the records of some rows.
  ghost predicate StartsWith(file: bytes, rows: seq<Row>) {
    |file| >= |rows| * 16 && forall i :: 0 <= i < |rows| ==> file[i * 16..i * 16 + 16] == RecordBytes(rows[i])
  }

  class SortedFile {
    const mmap: array<byte>
    const capacity: nat
    var written: nat
    var len: nat                   // set by Finish
    ghost var puts: seq<Row>

    ghost predicate Valid()
      reads this, mmap
    {
      && mmap.Length >= capacity * 16
      && written == |Taken(puts, capacity)|
      && StartsWith(mmap[..], Taken(puts, capacity))
    }

    constructor(nodeCount: nat)
      ensures Valid() && puts == [] && capacity == nodeCount && fresh(mmap)
    {
      var size := nodeCount * 16;
      mmap := new byte[if size > 1 then size else 1](_ => 0);
      capacity := nodeCount;
      written := 0;
      len := 0;
      puts := [];
    }

    method Put(id: i64, lat: i32, lon: i32)
      requires Valid()
      modifies this`written, this`puts, mmap
      ensures Valid() && puts == old(puts) + [Row(id, lat, lon)]
    {
      ghost var before := mmap[..];
      puts := puts + [Row(id, lat, lon)];
      if written >= capacity { return; }
      var off := written * 16;
      WriteFields(mmap, off, id, lat, lon);
      RecordAdded(before, mmap[..], old(puts), Row(id, lat, lon));
      written := written + 1;
    }

    method Finish()
      requires Valid()
      modifies this`len
      ensures Valid() && len == |Taken(puts, capacity)| * 16
    {
      len := written * 16;
    }

    method IdAt(i: nat) returns (id: i64)
      requires Valid() && i < written
      ensures id == Taken(puts, capacity)[i].id
    {
      RecordFields(mmap[..], Taken(puts, capacity), i);
      var off := i * 16;
      assert mmap[off..off + 8] == mmap[..][off..off + 8];
      return ReadI64(mmap[off..off + 8]);
    }

    method PlaceAt(i: nat) returns (r: Answer)
      requires Valid() && i < written
      ensures var row := Taken(puts, capacity)[i]; r == At(row.lat, row.lon)
    {
      RecordFields(mmap[..], Taken(puts, capacity), i);
      var off := i * 16;
      assert mmap[off + 8..off + 12] == mmap[..][off + 8..off + 12];
      assert mmap[off + 12..off + 16] == mmap[..][off + 12..off + 16];
      return At(ReadI32(mmap[off + 8..off + 12]), ReadI32(mmap[off + 12..off + 16]));
    }

    method Get(id: i64) returns (r: Answer)
      requires Valid() && len == written * 16 && Ascending(puts)
      ensures r == Lookup(Taken(puts, capacity), id)
    {
      ghost var rows := Taken(puts, capacity);
      TakenAscend(puts, capacity);
      var lo, hi := 0, len / 16;
      while lo < hi
        invariant 0 <= lo <= hi && Between(rows, lo, hi, id)
      {
        var mid := lo + (hi - lo) / 2;
        OneComparison(rows, lo, hi, mid, id);
        var midId := IdAt(mid);
        if midId < id {
          lo := mid + 1;
        } else if midId > id {
          hi := mid;
        } else {
          r := PlaceAt(mid);
          return;
        }
      }
      NotThere(rows, lo, id);
      return Missing;
    }
  }

  // The ids before lo are smaller; those from hi on are greater.
  predicate Between(rows: seq<Row>, lo: nat, hi: nat, id: int) {
    && lo <= hi <= |rows|
    && (forall i :: 0 <= i < lo ==> rows[i].id < id)
    && forall i :: hi <= i < |rows| ==> rows[i].id > id
  }

  // One comparison halves the range, or finds the row.
  lemma OneComparison(rows: seq<Row>, lo: nat, hi: nat, mid: nat, id: int)
    requires Ascending(rows) && Between(rows, lo, hi, id) && lo <= mid < hi
    ensures rows[mid].id < id ==> Between(rows, mid + 1, hi, id)
    ensures rows[mid].id > id ==> Between(rows, lo, mid, id)
    ensures rows[mid].id == id ==> Lookup(rows, id) == At(rows[mid].lat, rows[mid].lon)
  {
    LookupFinds(rows, mid);
  }

  lemma NotThere(rows: seq<Row>, i: nat, id: int)
    requires Between(rows, i, i, id)
    ensures Lookup(rows, id) == Missing
  {
    LookupMisses(rows, id);
  }

  lemma TakenAscend(puts: seq<Row>, capacity: nat)
    requires Ascending(puts)
    ensures Ascending(Taken(puts, capacity))
  {
  }

  lemma RecordFields(file: bytes, rows: seq<Row>, i: nat)
    requires StartsWith(file, rows) && i < |rows|
    ensures ReadI64(file[i * 16..i * 16 + 8]) == rows[i].id
    ensures ReadI32(file[i * 16 + 8..i * 16 + 12]) == rows[i].lat
    ensures ReadI32(file[i * 16 + 12..i * 16 + 16]) == rows[i].lon
  {
    var off := i * 16;
    RecordReads(rows[i]);
    SubSlices(file, off);
    assert file[off..off + 16] == RecordBytes(rows[i]);
    assert file[off..off + 8] == file[off..off + 16][..8];
  }

  method WriteFields(mmap: array<byte>, off: nat, id: i64, lat: i32, lon: i32)
    requires off + 16 <= mmap.Length
    modifies mmap
    ensures |mmap[..]| == |old(mmap[..])| && mmap[..][..off] == old(mmap[..])[..off]
    ensures mmap[..][off..off + 16] == RecordBytes(Row(id, lat, lon))
  {
    ghost var first := mmap[..];
    CopyInto(mmap, off, PutI64(id));
    ghost var second := mmap[..];
    CopyInto(mmap, off + 8, PutI32(lat));
    ghost var third := mmap[..];
    CopyInto(mmap, off + 12, PutI32(lon));
    OneRecordWritten(first, second, third, mmap[..], off, PutI64(id), PutI32(lat), PutI32(lon));
  }

  lemma RecordAdded(before: bytes, after: bytes, rows: seq<Row>, r: Row)
    requires StartsWith(before, rows) && |after| == |before| && |rows| * 16 + 16 <= |after|
    requires after[..|rows| * 16] == before[..|rows| * 16]
    requires after[|rows| * 16..|rows| * 16 + 16] == RecordBytes(r)
    ensures StartsWith(after, rows + [r])
  {
    forall i | 0 <= i < |rows| ensures after[i * 16..i * 16 + 16] == RecordBytes(rows[i]) {
      assert after[i * 16..i * 16 + 16] == after[..|rows| * 16][i * 16..i * 16 + 16];
      assert before[i * 16..i * 16 + 16] == before[..|rows| * 16][i * 16..i * 16 + 16];
    }
  }

  lemma SubSlices(a: bytes, off: nat)
    requires off + 16 <= |a|
    ensures a[off..off + 16][8..12] == a[off + 8..off + 12]
    ensures a[off..off + 16][12..16] == a[off + 12..off + 16]
  {
    var r := a[off..off + 16];
    assert forall i :: 0 <= i < 16 ==> r[i] == a[off + i];
    assert forall i :: 0 <= i < 4 ==> r[8..12][i] == r[8 + i] && a[off + 8..off + 12][i] == a[off + 8 + i];
    assert forall i :: 0 <= i < 4 ==> r[12..16][i] == r[12 + i] && a[off + 12..off + 16][i] == a[off + 12 + i];
  }

  lemma OneRecordWritten(a: bytes, b: bytes, c: bytes, d: bytes, off: nat, id: bytes, lat: bytes, lon: bytes)
    requires |id| == 8 && |lat| == 4 && |lon| == 4 && off + 16 <= |a|
    requires b == a[..off] + id + a[off + 8..]
    requires c == b[..off + 8] + lat + b[off + 12..]
    requires d == c[..off + 12] + lon + c[off + 16..]
    ensures |d| == |a| && d[off..off + 16] == id + lat + lon && d[..off] == a[..off]
  {
  }

  // ---- one map --------------------------------------------------------------------------------

  // What a build must meet for the stores to be interchangeable.
  predicate Representable(puts: seq<Row>, maxId: int, capacity: nat) {
    && |puts| <= capacity
    && forall i :: 0 <= i < |puts| ==> 0 <= puts[i].id <= maxId && !(puts[i].lat == 0 && puts[i].lon == 0)
  }

  lemma {:induction false} AllSlotted(puts: seq<Row>, maxId: int)
    requires forall i :: 0 <= i < |puts| ==> 0 <= puts[i].id <= maxId
    ensures Slotted(puts, maxId) == puts
  {
    if puts != [] {
      AllSlotted(puts[..|puts| - 1], maxId);
      assert puts == puts[..|puts| - 1] + [puts[|puts| - 1]];
    }
  }

  lemma {:induction false} SlottedComeFromPuts(puts: seq<Row>, maxId: int)
    ensures forall r :: r in Slotted(puts, maxId) ==> r in puts
  {
    if puts != [] { SlottedComeFromPuts(puts[..|puts| - 1], maxId); }
  }

  // Main result: after strictly ascending puts, the three stores answer every probe below the
  // wrap-around alike exactly when the build was representable.
  lemma StoresAgreeExactly(puts: seq<Row>, maxId: int, capacity: nat)
    requires Ascending(puts) && maxId < WRAP - 1
    requires forall i :: 0 <= i < |puts| ==> puts[i].id < WRAP - 1
    ensures (forall id :: id < WRAP - 1 ==>
              Lookup(puts, id) == DenseAnswer(puts, maxId, id) == Lookup(Taken(puts, capacity), id))
       <==> Representable(puts, maxId, capacity)
  {
    if Representable(puts, maxId, capacity) {
      AllSlotted(puts, maxId);
      forall id | id < WRAP - 1 ensures Lookup(puts, id) == DenseAnswer(puts, maxId, id) {
        RepresentedAnswer(puts, maxId, id);
      }
    } else {
      DisagreementWitness(puts, maxId, capacity);
    }
  }

  lemma RepresentedAnswer(puts: seq<Row>, maxId: int, id: int)
    requires Ascending(puts) && id < WRAP - 1 && Representable(puts, maxId, |puts|) && Slotted(puts, maxId) == puts
    ensures Lookup(puts, id) == DenseAnswer(puts, maxId, id)
  {
    LookupMisses(puts, id);
    if i :| 0 <= i < |puts| && puts[i].id == id { LookupFinds(puts, i); }
  }

  lemma DisagreementWitness(puts: seq<Row>, maxId: int, capacity: nat)
    requires Ascending(puts) && !Representable(puts, maxId, capacity)
    requires forall i :: 0 <= i < |puts| ==> puts[i].id < WRAP - 1
    ensures exists id ::
      id < WRAP - 1 && !(Lookup(puts, id) == DenseAnswer(puts, maxId, id) == Lookup(Taken(puts, capacity), id))
  {
    if |puts| > capacity {
      var id := puts[capacity].id;
      LookupFinds(puts, capacity);
      LookupMisses(puts[..capacity], id);
    } else {
      var i :| 0 <= i < |puts| && !(0 <= puts[i].id <= maxId && !(puts[i].lat == 0 && puts[i].lon == 0));
      var id := puts[i].id;
      LookupFinds(puts, i);
      NotAtOrigin(puts, maxId, i);
    }
  }

  lemma NotAtOrigin(puts: seq<Row>, maxId: int, i: nat)
    requires Ascending(puts) && i < |puts| && puts[i].id < WRAP - 1
    requires !(0 <= puts[i].id <= maxId) || (puts[i].lat == 0 && puts[i].lon == 0)
    ensures DenseAnswer(puts, maxId, puts[i].id) == Missing
  {
    var id := puts[i].id;
    var s := Slotted(puts, maxId);
    SlottedAreInRange(puts, maxId);
    SlottedComeFromPuts(puts, maxId);
    LookupMisses(s, id);
    LookupIsARow(s, id);
  }

  lemma {:induction false} LookupIsARow(rows: seq<Row>, id: int)
    ensures Lookup(rows, id).At? ==>
      exists r :: r in rows && r.id == id && Lookup(rows, id) == At(r.lat, r.lon)
  {
    if rows != [] && rows[|rows| - 1].id != id { LookupIsARow(rows[..|rows| - 1], id); }
  }

  // Every probe, of a representable build: the dense file answers as the map exactly below 2^61 - 1,
  // and beyond it where the wrapped id is neither 2^61 - 1 nor stored.
  // So 2^61 more than a stored id is answered with that id's location, and 2^61 - 1 panics.
  lemma ProbeAgreesExactly(puts: seq<Row>, maxId: int, id: int)
    requires Ascending(puts) && Representable(puts, maxId, |puts|) && maxId < WRAP - 1
    ensures Lookup(puts, id) == DenseAnswer(puts, maxId, id)
       <==> id < WRAP - 1 || (id % WRAP != WRAP - 1 && Lookup(puts, id % WRAP) == Missing)
  {
    AllSlotted(puts, maxId);
    if id < WRAP - 1 {
      RepresentedAnswer(puts, maxId, id);
    } else {
      LookupMisses(puts, id);
      assert Lookup(puts, id) == Missing;
      if id % WRAP != WRAP - 1 {
        RepresentedAnswer(puts, maxId, id % WRAP);
        assert DenseAnswer(puts, maxId, id) == DenseAnswer(puts, maxId, id % WRAP);
      }
    }
  }

  // ---- inputs on which the stores differ --------------------------------------------------------

  lemma OneRow(r: Row, maxId: int, id: int)
    ensures Lookup([r], id) == if r.id == id then At(r.lat, r.lon) else Missing
    ensures 0 <= r.id <= maxId ==> Slotted([r], maxId) == [r]
  {
    assert [r][..0] == [];
  }

  // A node put at (0, 0) is lost in the file addressed by id.
  lemma OriginIsLost()
    ensures Lookup([Row(5, 0, 0)], 5) == At(0, 0) && DenseAnswer([Row(5, 0, 0)], 10, 5) == Missing
  {
    OneRow(Row(5, 0, 0), 10, 5);
  }

  // 2^61 more than a stored id is answered with that id's location; 2^61 - 1 panics.
  lemma FarProbesGoWrong()
    ensures var puts := [Row(5, 1, 2)];
      && Lookup(puts, 5 + WRAP) == Missing && DenseAnswer(puts, 10, 5 + WRAP) == At(1, 2)
      && Lookup(puts, WRAP - 1) == Missing && DenseAnswer(puts, 10, WRAP - 1) == Panic
  {
    OneRow(Row(5, 1, 2), 10, 5);
    OneRow(Row(5, 1, 2), 10, 5 + WRAP);
    OneRow(Row(5, 1, 2), 10, WRAP - 1);
    assert (5 + WRAP) % WRAP == 5;
  }

  // The map of some puts: the location last put for the id.
  lemma {:induction false} LastPutWins(puts: seq<Row>, id: int, k: nat)
    requires k < |puts| && puts[k].id == id && forall j :: k < j < |puts| ==> puts[j].id != id
    ensures Lookup(puts, id) == At(puts[k].lat, puts[k].lon)
  {
    if k < |puts| - 1 { LastPutWins(puts[..|puts| - 1], id, k); }
  }
}
