/**
 The binlog record format: the framing writer, the single-record decoder and the
 scanner that resynchronises on the start magic.
 */
module Binlog {
  import opened Common
  import opened Bytes
  import opened Words
  import opened Crc

  datatype Record = Record(tag: byte, payload: seq<byte>)

  // Start magic 0xC5A7 and end magic 0x7A5C, big-endian.
  const START: seq<byte> := [0xC5, 0xA7]
  const END: seq<byte> := [0x7A, 0x5C]
  const MIN_RECORD_LEN := 2 + 1 + 1 + 2 + 2
  const MAX_VARINT_LEN := 10

  // ---- Unsigned varints -------------------------------------------------------------

  datatype Varint = Varint(value: nat, size: nat)

  /** binary.PutUvarint: seven bits per byte, least significant group first. */
  function PutUvarint(v: nat): (s: seq<byte>)
    ensures s != []
  {
    if v < 128 then [ToByte(v)] else [ToByte(v % 128 + 128)] + PutUvarint(v / 128)
  }

  /**
   binary.Uvarint from the `i`th byte of the varint on. None stands for both
   failures: the buffer ends first, or the value does not fit 64 bits.
   */
  function Uvarint(b: seq<byte>, i: nat): (r: Option<Varint>)
    ensures r.Some? ==> 0 < r.value.size <= |b|
    decreases |b|
  {
    if b == [] || i == MAX_VARINT_LEN then None
    else if Val(b[0]) < 128 then
      if i == MAX_VARINT_LEN - 1 && Val(b[0]) > 1 then None else Some(Varint(Val(b[0]), 1))
    else match Uvarint(b[1..], i + 1)
      case None => None
      case Some(rest) => Some(Varint(Val(b[0]) - 128 + 128 * rest.value, 1 + rest.size))
  }

  /** Values a varint that starts at byte `i` still has room for. */
  function Room(i: nat): nat
    requires i < MAX_VARINT_LEN
    decreases MAX_VARINT_LEN - i
  {
    if i == MAX_VARINT_LEN - 1 then 2 else 128 * Room(i + 1)
  }

  lemma {:induction false} UvarintRoundTrip(v: nat, tail: seq<byte>, i: nat)
    requires i < MAX_VARINT_LEN && v < Room(i)
    ensures Uvarint(PutUvarint(v) + tail, i) == Some(Varint(v, |PutUvarint(v)|))
    decreases v
  {
    hide Val, ToByte;
    var s := PutUvarint(v) + tail;
    if v >= 128 {
      assert s[1..] == PutUvarint(v / 128) + tail;
      UvarintRoundTrip(v / 128, tail, i + 1);
    }
  }

  /** The number that the seven-bit groups of `v` spell, least significant group first. */
  function Groups(v: seq<byte>): nat {
    if v == [] then 0 else Val(v[0]) % 128 + 128 * Groups(v[1..])
  }

  /** `v` is one varint: only its last byte has the top bit clear. */
  ghost predicate OneVarint(v: seq<byte>) {
    && v != [] && Val(v[|v| - 1]) < 128
    && forall k :: 0 <= k < |v| - 1 ==> Val(v[k]) >= 128
  }

  lemma OneVarintCons(b: byte, v: seq<byte>)
    requires v != []
    ensures OneVarint([b] + v) <==> Val(b) >= 128 && OneVarint(v)
  {
    hide Val;
    var w := [b] + v;
    assert forall k :: 0 <= k < |v| ==> w[k + 1] == v[k];
    if OneVarint(w) {
      assert Val(w[0]) >= 128;
      forall k | 0 <= k < |v| - 1
        ensures Val(v[k]) >= 128
      {
        assert w[k + 1] == v[k];
      }
    }
  }

  lemma {:induction false} UvarintFrom(b: seq<byte>, i: nat, value: nat, size: nat)
    requires i < MAX_VARINT_LEN
    ensures Uvarint(b, i) == Some(Varint(value, size))
            <==> && size <= |b| && size <= MAX_VARINT_LEN - i && OneVarint(b[..size])
                 && Groups(b[..size]) == value && value < Room(i)
    decreases |b|, 1
  {
    hide Val;
    if b != [] && size > 0 && size <= |b| {
      var v, w := b[..size], b[1..][..size - 1];
      FirstAndRest(b, size);
      if size == 1 {
        UvarintOne(b, i, value);
      } else {
        OneVarintCons(b[0], w);
        if Val(b[0]) >= 128 {
          UvarintTail(b, i, value, size);
        }
      }
    }
  }

  lemma UvarintOne(b: seq<byte>, i: nat, value: nat)
    requires i < MAX_VARINT_LEN && b != []
    ensures Uvarint(b, i) == Some(Varint(value, 1))
            <==> OneVarint(b[..1]) && Groups(b[..1]) == value && value < Room(i)
  {
    hide Val;
    RoomEnough(i);
    hide Room;
    assert b[..1][1..] == [];
    if Val(b[0]) >= 128 {
      SizesDiffer(b[1..], i + 1);
    }
  }

  lemma SizesDiffer(b: seq<byte>, i: nat)
    ensures Uvarint(b, i).Some? ==> Uvarint(b, i).value.size > 0
  {
  }

  lemma RoomEnough(i: nat)
    requires i < MAX_VARINT_LEN
    ensures if i == MAX_VARINT_LEN - 1 then Room(i) == 2 else Room(i) >= 256
    decreases MAX_VARINT_LEN - i
  {
    if i < MAX_VARINT_LEN - 2 {
      RoomEnough(i + 1);
    }
  }

  lemma {:induction false} UvarintTail(b: seq<byte>, i: nat, value: nat, size: nat)
    requires i < MAX_VARINT_LEN && 1 < size <= |b| && Val(b[0]) >= 128
    ensures var w := b[1..][..size - 1];
            Uvarint(b, i) == Some(Varint(value, size))
            <==> && size <= MAX_VARINT_LEN - i && OneVarint(w)
                 && Val(b[0]) - 128 + 128 * Groups(w) == value && value < Room(i)
    decreases |b|, 0
  {
    hide Val;
    var low, w := Val(b[0]) - 128, b[1..][..size - 1];
    if i + 1 < MAX_VARINT_LEN {
      UvarintFrom(b[1..], i + 1, Groups(w), size - 1);
      var r := Uvarint(b[1..], i + 1);
      if r.Some? && r.value.size == size - 1 {
        UvarintFrom(b[1..], i + 1, r.value.value, size - 1);
      }
      assert low + 128 * Groups(w) < 128 * Room(i + 1) <==> Groups(w) < Room(i + 1);
    }
  }

  /**
   The reader accepts exactly the varints of at most ten bytes whose groups spell a number
   below 2^64, and returns that number and the varint's size.
   */
  lemma UvarintExactly(b: seq<byte>, value: nat, size: nat)
    ensures Uvarint(b, 0) == Some(Varint(value, size))
            <==> && size <= |b| && size <= 10 && OneVarint(b[..size])
                 && Groups(b[..size]) == value && value < 0x1_0000_0000_0000_0000
  {
    hide Val, Uvarint, Groups, OneVarint;
    RoomFor64Bits();
    UvarintFrom(b, 0, value, size);
  }

  /** The reader looks at no byte beyond the varint it returns. */
  lemma {:induction false} UvarintLocal(b: seq<byte>, c: seq<byte>, i: nat)
    requires Uvarint(b, i).Some?
    requires Uvarint(b, i).value.size <= |c| && c[..Uvarint(b, i).value.size] == b[..Uvarint(b, i).value.size]
    ensures Uvarint(c, i) == Uvarint(b, i)
    decreases |b|
  {
    hide Val;
    var n := Uvarint(b, i).value.size;
    assert c[..n][0] == c[0] && b[..n][0] == b[0];
    if Val(b[0]) >= 128 {
      assert c[1..][..n - 1] == c[..n][1..] == b[..n][1..] == b[1..][..n - 1];
      UvarintLocal(b[1..], c[1..], i + 1);
    }
  }

  // ---- One record -------------------------------------------------------------------

  /** Tag, length and payload: what the checksum covers. */
  function Body(r: Record): (s: seq<byte>) {
    [r.tag] + PutUvarint(|r.payload|) + r.payload
  }

  function Frame(r: Record): (s: seq<byte>)
    ensures |s| == 6 + |Body(r)|
  {
    START + Body(r) + PutCrc(Checksum(Body(r))) + END
  }

  /** AppendRecord. Slice lengths are 63-bit, so the length always fits the varint. */
  method AppendRecord(table: array<bv16>, dst: seq<byte>, r: Record) returns (out: seq<byte>)
    requires IsTable(table[..])
    ensures out == dst + Frame(r)
  {
    hide Checksum, PutUvarint, PutCrc, IsTable;
    var body := [r.tag];
    body := body + PutUvarint(|r.payload|);
    body := body + r.payload;
    var crc := Crc16(table, body);
    out := dst + START;
    out := out + body;
    out := out + PutCrc(crc);
    out := out + END;
    assert body == Body(r);
    assert out == dst + (START + body + PutCrc(crc) + END);
  }

  datatype Decoded = Decoded(record: Record, consumed: nat)

  /** decodeOneRecord, on a buffer whose first two bytes the caller has checked. */
  function DecodeOne(b: seq<byte>): (r: Option<Decoded>)
    ensures r.Some? ==> 0 < r.value.consumed <= |b|
  {
    if |b| < MIN_RECORD_LEN then None
    else match Uvarint(b[3..], 0)
      case None => None
      case Some(len) =>
        var pos := 3 + len.size;
        var bodyEnd := pos + len.value;
        if len.value > |b| || bodyEnd + 4 > |b| then None
        else if Join(b[bodyEnd], b[bodyEnd + 1]) != Checksum(b[2..bodyEnd]) then None
        else if b[bodyEnd + 2..bodyEnd + 4] != END then None
        else Some(Decoded(Record(b[2], b[pos..bodyEnd]), bodyEnd + 4))
  }

  method DecodeOneRecord(table: array<bv16>, b: seq<byte>) returns (r: Option<Decoded>)
    requires IsTable(table[..])
    ensures r == DecodeOne(b)
  {
    hide Checksum, Uvarint, Join, IsTable;
    if |b| < MIN_RECORD_LEN {
      return None;
    }
    var pos := 2;
    var tag := b[pos];
    pos := pos + 1;
    var len := Uvarint(b[pos..], 0);
    if len.None? {
      return None;
    }
    pos := pos + len.value.size;
    var bodyEnd := pos + len.value.value;
    if len.value.value > |b| || bodyEnd + 4 > |b| {
      return None;
    }
    var gotCrc := Join(b[bodyEnd], b[bodyEnd + 1]);
    var wantCrc := Crc16(table, b[2..bodyEnd]);
    if gotCrc != wantCrc || b[bodyEnd + 2..bodyEnd + 4] != END {
      return None;
    }
    return Some(Decoded(Record(tag, b[pos..bodyEnd]), bodyEnd + 4));
  }

  /** The wire layout, byte by byte, with `v` as the length field. Non-minimal varints are legal. */
  ghost predicate FramedAs(f: seq<byte>, r: Record, v: seq<byte>) {
    && Uvarint(v, 0) == Some(Varint(|r.payload|, |v|))
    && f == [0xC5, 0xA7] + ([r.tag] + v + r.payload) + PutCrc(Checksum([r.tag] + v + r.payload)) + [0x7A, 0x5C]
  }

  lemma MiddleSlice(a: seq<byte>, m: seq<byte>, z: seq<byte>)
    ensures (a + m + z)[|a|..|a| + |m|] == m
  {
  }

  lemma BodyLies(b: seq<byte>, body: seq<byte>, crc: seq<byte>, tail: seq<byte>)
    requires |crc| == 2 && b == START + body + crc + END + tail
    ensures |b| >= |body| + 6 && b[..2] == START && b[2..2 + |body|] == body
    ensures b[|body| + 2..|body| + 4] == crc && b[|body| + 4..|body| + 6] == END
  {
    assert b[2..2 + |body|] == body && b[..2] == START by {
      assert b == START + body + (crc + END + tail);
      MiddleSlice(START, body, crc + END + tail);
    }
    assert b[|body| + 2..|body| + 4] == crc by {
      assert b == (START + body) + crc + (END + tail);
      MiddleSlice(START + body, crc, END + tail);
    }
    MiddleSlice(START + body + crc, END, tail);
  }

  lemma PartsLie(body: seq<byte>, tag: byte, v: seq<byte>, payload: seq<byte>)
    requires body == [tag] + v + payload
    ensures body[0] == tag && body[1..1 + |v|] == v && body[1 + |v|..] == payload
  {
    MiddleSlice([tag], v, payload);
  }

  /** Where the fields of a frame lie. */
  lemma FieldsLie(b: seq<byte>, tag: byte, v: seq<byte>, payload: seq<byte>, crc: seq<byte>, tail: seq<byte>)
    requires |crc| == 2 && b == START + ([tag] + v + payload) + crc + END + tail
    ensures var n, e := |v|, 3 + |v| + |payload|;
            && |b| >= e + 4 && b[..2] == START && b[2] == tag && b[3..3 + n] == v && b[3 + n..e] == payload
            && b[2..e] == [tag] + v + payload && b[e..e + 2] == crc && b[e + 2..e + 4] == END
  {
    var body, n := [tag] + v + payload, |v|;
    var e := 3 + n + |payload|;
    BodyLies(b, body, crc, tail);
    PartsLie(body, tag, v, payload);
    assert b[2] == b[2..e][0];
    SliceOfSlice(b, 2, e, 1, 1 + n);
    SliceOfSlice(b, 2, e, 1 + n, e - 2);
    assert body[1 + n..] == body[1 + n..e - 2];
  }

  lemma FramedDecodes(f: seq<byte>, r: Record, v: seq<byte>, tail: seq<byte>)
    requires FramedAs(f, r, v)
    ensures DecodeOne(f + tail) == Some(Decoded(r, |f|))
  {
    hide Checksum, Uvarint, Join, HighByte, LowByte;
    var b := f + tail;
    var crc := Checksum([r.tag] + v + r.payload);
    var n, e := |v|, 3 + |v| + |r.payload|;
    FieldsLie(b, r.tag, v, r.payload, PutCrc(crc), tail);
    assert b[3..][..n] == b[3..3 + n] && v[..n] == v;
    UvarintLocal(v, b[3..], 0);
    assert b[e] == b[e..e + 2][0] && b[e + 1] == b[e..e + 2][1];
    JoinSplit(crc);
  }

  lemma DecodedIsFramed(b: seq<byte>, r: Record, n: nat)
    requires |b| >= 2 && b[..2] == START && DecodeOne(b) == Some(Decoded(r, n))
    ensures exists v :: FramedAs(b[..n], r, v)
  {
    hide Checksum, Uvarint, Join, HighByte, LowByte;
    var len := Uvarint(b[3..], 0).value;
    var pos := 3 + len.size;
    var e := pos + len.value;
    var v := b[3..pos];
    assert b[3..][..len.size] == v && v[..len.size] == v;
    UvarintLocal(b[3..], v, 0);
    assert b[2..e] == [r.tag] + v + r.payload;
    SplitJoin(b[e], b[e + 1]);
    assert b[..n] == b[..2] + b[2..e] + [b[e], b[e + 1]] + b[e + 2..n];
    assert FramedAs(b[..n], r, v);
  }

  /** decodeOneRecord accepts exactly the buffers that begin with a well-formed frame. */
  lemma DecodeOneExact(b: seq<byte>, r: Record, n: nat)
    requires |b| >= 2 && b[..2] == START
    ensures DecodeOne(b) == Some(Decoded(r, n)) <==> n <= |b| && exists v :: FramedAs(b[..n], r, v)
  {
    hide FramedAs, DecodeOne;
    if DecodeOne(b) == Some(Decoded(r, n)) {
      DecodedIsFramed(b, r, n);
    }
    if n <= |b| && exists v :: FramedAs(b[..n], r, v) {
      var v :| FramedAs(b[..n], r, v);
      FramedDecodes(b[..n], r, v, b[n..]);
      assert b == b[..n] + b[n..];
    }
  }

  /** What a Go slice can hold. */
  ghost predicate Storable(r: Record) {
    |r.payload| < 0x8000_0000_0000_0000
  }

  lemma RoomFor64Bits()
    ensures Room(0) == 0x1_0000_0000_0000_0000
  {
    assert Room(8) == 0x100 && Room(7) == 0x8000;
    assert Room(6) == 0x40_0000 && Room(5) == 0x2000_0000;
    assert Room(4) == 0x10_0000_0000 && Room(3) == 0x800_0000_0000;
    assert Room(2) == 0x4_0000_0000_0000 && Room(1) == 0x200_0000_0000_0000;
  }

  lemma FrameIsFramed(r: Record)
    requires Storable(r)
    ensures FramedAs(Frame(r), r, PutUvarint(|r.payload|))
  {
    hide Checksum, Uvarint, PutUvarint, PutCrc;
    RoomFor64Bits();
    var v := PutUvarint(|r.payload|);
    UvarintRoundTrip(|r.payload|, [], 0);
    assert v + [] == v;
  }

  // ---- The scanner ----------------------------------------------------------------------

  datatype Scanned = Scanned(records: seq<Record>, corrupt: nat) {
    function Then(rest: Scanned): Scanned {
      Scanned(records + rest.records, corrupt + rest.corrupt)
    }
  }

  lemma ThenAssoc(a: Scanned, b: Scanned, c: Scanned)
    ensures a.Then(b).Then(c) == a.Then(b.Then(c))
  {
    assert a.records + b.records + c.records == a.records + (b.records + c.records);
  }

  predicate MagicAt(b: seq<byte>, i: nat) {
    i + 1 < |b| && b[i] == START[0] && b[i + 1] == START[1]
  }

  /** The reference decoder: try a record at every offset that is not inside an accepted one. */
  function Scan(data: seq<byte>): Scanned
    decreases |data|
  {
    if data == [] then Scanned([], 0)
    else if !MagicAt(data, 0) then Scan(data[1..])
    else match DecodeOne(data)
      case None => Scanned([], 1).Then(Scan(data[1..]))
      case Some(d) => Scanned([d.record], 0).Then(Scan(data[d.consumed..]))
  }

  /** A record and the offset it begins at. */
  datatype Place = Place(at: int, record: Record)

  /** What that decoder accepts and where, for data that begins at offset `base`. */
  function Accepted(data: seq<byte>, base: int): seq<Place>
    decreases |data|
  {
    if data == [] then []
    else if !MagicAt(data, 0) then Accepted(data[1..], base + 1)
    else match DecodeOne(data)
      case None => Accepted(data[1..], base + 1)
      case Some(d) => [Place(base, d.record)] + Accepted(data[d.consumed..], base + d.consumed)
  }

  function RecordsAt(places: seq<Place>): seq<Record> {
    if places == [] then [] else [places[0].record] + RecordsAt(places[1..])
  }

  lemma NoRecords()
    ensures RecordsAt([]) == []
  {
  }

  lemma RecordsCons(x: Place, places: seq<Place>)
    ensures RecordsAt([x] + places) == [x.record] + RecordsAt(places)
  {
    assert ([x] + places)[1..] == places;
  }

  lemma {:induction false} AcceptedAreScanned(data: seq<byte>, base: int)
    ensures RecordsAt(Accepted(data, base)) == Scan(data).records
    decreases |data|
  {
    hide DecodeOne, RecordsAt;
    if data == [] {
      NoRecords();
    } else {
      if MagicAt(data, 0) && DecodeOne(data).Some? {
        var n := DecodeOne(data).value.consumed;
        AcceptedAreScanned(data[n..], base + n);
        RecordsCons(Place(base, DecodeOne(data).value.record), Accepted(data[n..], base + n));
      } else {
        AcceptedAreScanned(data[1..], base + 1);
      }
    }
  }

  /** findMagic for the start magic. */
  method FindMagic(b: seq<byte>) returns (off: int)
    ensures off == -1 <==> forall i :: 0 <= i < |b| ==> !MagicAt(b, i)
    ensures off != -1 ==> 0 <= off && MagicAt(b, off) && forall i :: 0 <= i < off ==> !MagicAt(b, i)
  {
    if |b| < 2 {
      return -1;
    }
    var i := 0;
    while i + 1 < |b|
      invariant 0 <= i < |b|
      invariant forall k :: 0 <= k < i ==> !MagicAt(b, k)
    {
      if b[i] == 0xC5 && b[i + 1] == 0xA7 {
        assert MagicAt(b, i);
        return i;
      }
      i := i + 1;
    }
    return -1;
  }

  lemma {:induction false} ScanSkips(b: seq<byte>, n: nat)
    requires n <= |b| && forall i :: 0 <= i < n ==> !MagicAt(b, i)
    ensures Scan(b) == Scan(b[n..])
    decreases n
  {
    hide DecodeOne;
    if n == 0 {
      assert b[0..] == b;
    } else {
      assert forall i :: 0 <= i < n - 1 ==> MagicAt(b[1..], i) == MagicAt(b, i + 1);
      ScanSkips(b[1..], n - 1);
      assert b[1..][n - 1..] == b[n..];
    }
  }

  /** What the scan still finds from offset `i` on. */
  function ScanFrom(data: seq<byte>, i: nat): Scanned
    requires i <= |data|
  {
    Scan(data[i..])
  }

  lemma ScanToMagic(data: seq<byte>, i: nat, off: nat)
    requires i + off <= |data| && forall k :: 0 <= k < off ==> !MagicAt(data[i..], k)
    ensures ScanFrom(data, i) == ScanFrom(data, i + off)
  {
    hide Scan;
    ScanSkips(data[i..], off);
    assert data[i..][off..] == data[i + off..];
  }

  lemma MagicMoves(data: seq<byte>, i: nat, off: nat)
    requires i + off <= |data| && MagicAt(data[i..], off)
    ensures MagicAt(data[i + off..], 0)
  {
  }

  lemma ScanStarts(data: seq<byte>)
    ensures Scan(data) == Scanned([], 0).Then(ScanFrom(data, 0))
  {
    assert data[0..] == data;
    assert [] + Scan(data).records == Scan(data).records;
  }

  lemma ScanEnds(data: seq<byte>, acc: Scanned)
    ensures acc.Then(ScanFrom(data, |data|)) == acc
  {
    assert data[|data|..] == [];
  }

  /** At a start magic, the scan takes the record or counts a corruption. */
  lemma ScanAtMagic(data: seq<byte>, i: nat, acc: Scanned)
    requires i <= |data| && MagicAt(data[i..], 0)
    ensures var d := DecodeOne(data[i..]);
            acc.Then(ScanFrom(data, i)) ==
            match d
            case None => Scanned(acc.records, acc.corrupt + 1).Then(ScanFrom(data, i + 1))
            case Some(x) => Scanned(acc.records + [x.record], acc.corrupt).Then(ScanFrom(data, i + x.consumed))
  {
    hide DecodeOne;
    match DecodeOne(data[i..])
    case None =>
      assert data[i..][1..] == data[i + 1..];
      ThenAssoc(acc, Scanned([], 1), ScanFrom(data, i + 1));
    case Some(x) =>
      assert data[i..][x.consumed..] == data[i + x.consumed..];
      ThenAssoc(acc, Scanned([x.record], 0), ScanFrom(data, i + x.consumed));
  }

  /** DecodeRecords: jumping from magic to magic finds what trying every offset finds. */
  method DecodeRecords(table: array<bv16>, data: seq<byte>) returns (records: seq<Record>, corrupt: nat)
    requires IsTable(table[..])
    ensures Scanned(records, corrupt) == Scan(data)
  {
    hide *;
    records, corrupt := [], 0;
    var i := 0;
    ScanStarts(data);
    while i < |data|
      invariant 0 <= i <= |data|
      invariant Scan(data) == Scanned(records, corrupt).Then(ScanFrom(data, i))
      decreases |data| - i
    {
      var off := FindMagic(data[i..]);
      if off < 0 {
        ScanToMagic(data, i, |data| - i);
        break;
      }
      ScanToMagic(data, i, off);
      MagicMoves(data, i, off);
      i := i + off;
      ScanAtMagic(data, i, Scanned(records, corrupt));
      var d := DecodeOneRecord(table, data[i..]);
      if d.None? {
        corrupt := corrupt + 1;
        i := i + 1;
        continue;
      }
      records := records + [d.value.record];
      i := i + d.value.consumed;
    }
    ScanEnds(data, Scanned(records, corrupt));
  }

  // ---- Text ---------------------------------------------------------------------------------

  const FORMAT_TEXT: byte := 0
  const FORMAT_STRUCTURED: byte := 1

  /** HasFormatMarker: None for a payload that predates the marker byte. */
  function FormatMarker(payload: seq<byte>): Option<byte> {
    if payload == [] then None
    else if payload[0] == FORMAT_TEXT || payload[0] == FORMAT_STRUCTURED then Some(payload[0])
    else None
  }

  function TextOf(payload: seq<byte>): seq<byte> {
    match FormatMarker(payload)
    case None => payload
    case Some(format) => if format == FORMAT_TEXT then payload[1..] else []
  }

  function AllText(rs: seq<Record>): seq<byte> {
    if rs == [] then [] else AllText(rs[..|rs| - 1]) + TextOf(rs[|rs| - 1].payload)
  }

  /** Decode: the text of every record that validates. */
  method Decode(table: array<bv16>, data: seq<byte>) returns (text: seq<byte>, corrupt: nat)
    requires IsTable(table[..])
    ensures text == AllText(Scan(data).records) && corrupt == Scan(data).corrupt
  {
    hide Scan, IsTable;
    var records;
    records, corrupt := DecodeRecords(table, data);
    text := [];
    for i := 0 to |records|
      invariant text == AllText(records[..i])
    {
      var payload := records[i].payload;
      match FormatMarker(payload) {
        case None => text := text + payload;
        case Some(format) =>
          if format == FORMAT_TEXT {
            text := text + payload[1..];
          }
      }
      assert records[..i + 1][..i] == records[..i];
    }
    assert records[..|records|] == records;
  }
}
