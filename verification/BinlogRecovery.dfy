/**
 What the binlog framing promises about whole streams: the round trip, the damage
 that is always noticed, and what is recovered around damage.
 */
module BinlogRecovery {
  import opened Common
  import opened Bytes
  import opened Words
  import opened Crc
  import opened Binlog

  // ---- Streams -----------------------------------------------------------------------------

  function Stream(rs: seq<Record>): seq<byte> {
    if rs == [] then [] else Frame(rs[0]) + Stream(rs[1..])
  }

  ghost predicate AllStorable(rs: seq<Record>) {
    forall i :: 0 <= i < |rs| ==> Storable(rs[i])
  }

  lemma ScanFrame(r: Record, tail: seq<byte>)
    requires Storable(r)
    ensures Scan(Frame(r) + tail) == Scanned([r], 0).Then(Scan(tail))
  {
    hide DecodeOne, Frame;
    FrameFirst(r, tail);
  }

  /** Where a stored record begins, it is decoded and what follows is left. */
  lemma FrameFirst(r: Record, tail: seq<byte>)
    requires Storable(r)
    ensures var data := Frame(r) + tail;
            && MagicAt(data, 0) && DecodeOne(data) == Some(Decoded(r, |Frame(r)|)) && data[|Frame(r)|..] == tail
  {
    hide DecodeOne, FramedAs, Frame;
    FrameIsFramed(r);
    FramedDecodes(Frame(r), r, PutUvarint(|r.payload|), tail);
    FrameStarts(r);
  }

  lemma FrameStarts(r: Record)
    ensures MagicAt(Frame(r), 0)
  {
    hide Checksum, PutUvarint, PutCrc;
    assert Frame(r)[..2] == START;
  }

  /**
   Writing records and then reading them back: every record returns in order, and
   whatever follows decodes as it would alone.
   */
  lemma {:induction false} StreamRoundTrip(rs: seq<Record>, tail: seq<byte>)
    requires AllStorable(rs)
    ensures Scan(Stream(rs) + tail) == Scanned(rs, 0).Then(Scan(tail))
    decreases |rs|
  {
    hide Frame, Scan;
    if rs == [] {
      assert Stream(rs) + tail == tail;
    } else {
      var rest := Stream(rs[1..]) + tail;
      assert Stream(rs) + tail == Frame(rs[0]) + rest;
      ScanFrame(rs[0], rest);
      StreamRoundTrip(rs[1..], tail);
      ThenAssoc(Scanned([rs[0]], 0), Scanned(rs[1..], 0), Scan(tail));
      assert [rs[0]] + rs[1..] == rs;
    }
  }

  // ---- Length fields that are longer than needed --------------------------------------

  predicate Minimal(v: seq<byte>) {
    |v| == 1 || (v != [] && Val(v[|v| - 1]) != 0)
  }

  lemma {:induction false} MinimalPositive(v: seq<byte>, i: nat)
    requires Uvarint(v, i).Some? && Uvarint(v, i).value.size == |v| && Val(v[|v| - 1]) != 0
    ensures Uvarint(v, i).value.value > 0
    decreases |v|
  {
    hide Val;
    if Val(v[0]) >= 128 {
      MinimalPositive(v[1..], i + 1);
    }
  }

  /** When the writer's varint begins with a given continuation byte. */
  lemma PutCons(x: nat, b: byte, rest: seq<byte>)
    requires Val(b) >= 128 && x % 128 == Val(b) - 128
    ensures PutUvarint(x) == [b] + rest <==> x >= 128 && PutUvarint(x / 128) == rest
  {
    hide Val, ToByte;
    ValInjective(b, ToByte(x % 128 + 128));
    var tail := PutUvarint(x / 128);
    assert ([b] + tail)[1..] == tail && ([b] + rest)[1..] == rest;
    if x < 128 {
      assert PutUvarint(x)[0] == ToByte(x);
      assert Val(PutUvarint(x)[0]) < 128;
    }
  }

  lemma {:induction false} MinimalExact(v: seq<byte>, i: nat)
    requires Uvarint(v, i).Some? && Uvarint(v, i).value.size == |v|
    ensures PutUvarint(Uvarint(v, i).value.value) == v <==> Minimal(v)
    decreases |v|
  {
    hide Val, ToByte;
    if Val(v[0]) < 128 {
      ValInjective(v[0], ToByte(Uvarint(v, i).value.value));
    } else {
      UvarintRest(v, i);
      hide Uvarint, PutUvarint;
      var x, rest := Uvarint(v, i).value.value, v[1..];
      MinimalExact(rest, i + 1);
      PutCons(x, v[0], rest);
      MinimalRest(v, rest);
      if Val(v[|v| - 1]) != 0 {
        MinimalPositive(rest, i + 1);
      } else {
        NotMinimal(rest, x / 128);
      }
    }
  }

  /** A continued varint is its low seven bits and the varint behind them. */
  lemma UvarintRest(v: seq<byte>, i: nat)
    requires Uvarint(v, i).Some? && Uvarint(v, i).value.size == |v| && Val(v[0]) >= 128
    ensures var x, rest := Uvarint(v, i).value.value, v[1..];
            && v == [v[0]] + rest && rest != [] && Uvarint(rest, i + 1) == Some(Varint(x / 128, |rest|))
            && x % 128 == Val(v[0]) - 128
  {
    hide Val;
  }

  lemma MinimalRest(v: seq<byte>, rest: seq<byte>)
    requires v != [] && rest != [] && v == [v[0]] + rest
    ensures Minimal(v) <==> Val(v[|v| - 1]) != 0
    ensures rest[|rest| - 1] == v[|v| - 1]
    ensures |rest| > 1 ==> (Minimal(rest) <==> Minimal(v))
  {
    hide Val;
  }

  /** A one-byte rest of zero spells zero, so the number before it is below 128. */
  lemma NotMinimal(rest: seq<byte>, y: nat)
    requires rest != [] && Val(rest[|rest| - 1]) == 0
    ensures |rest| == 1 && PutUvarint(y) == rest ==> y == 0
  {
    hide Val, ToByte;
    assert y >= 128 ==> |PutUvarint(y)| > 1;
  }

  lemma FramedField(f: seq<byte>, r: Record, v: seq<byte>)
    requires FramedAs(f, r, v)
    ensures |f| == 7 + |v| + |r.payload| && f[3..3 + |v|] == v
  {
    hide Checksum, PutCrc, Uvarint, Val;
  }

  lemma SliceOfPrefix(b: seq<byte>, n: nat, lo: nat, hi: nat)
    requires lo <= hi <= n <= |b|
    ensures b[..n][lo..hi] == b[lo..hi]
  {
  }

  /** Re-encoding an accepted record gives back its bytes exactly when its length field was minimal. */
  lemma ReencodeExact(b: seq<byte>, r: Record, n: nat)
    requires |b| >= 2 && b[..2] == START && DecodeOne(b) == Some(Decoded(r, n))
    ensures Frame(r) == b[..n] <==> Minimal(b[3..n - 4 - |r.payload|])
  {
    hide DecodeOne, Checksum, PutCrc, Uvarint, PutUvarint, Val;
    DecodedIsFramed(b, r, n);
    var v :| FramedAs(b[..n], r, v);
    var f := b[..n];
    FramedField(f, r, v);
    SliceOfPrefix(b, n, 3, 3 + |v|);
    MinimalExact(v, 0);
    FrameFields(r);
    if Frame(r) == f {
      var w := PutUvarint(|r.payload|);
      assert |w| == |v|;
      assert f[3..3 + |w|] == w;
    }
  }

  // ---- Recovery around damage ------------------------------------------------------------

  /** How many of the first `n` offsets hold a start magic. */
  function MagicsBefore(data: seq<byte>, n: nat): nat
    decreases n
  {
    if n == 0 || data == [] then 0 else (if MagicAt(data, 0) then 1 else 0) + MagicsBefore(data[1..], n - 1)
  }

  /** No start magic that begins inside `junk` opens a record that validates. */
  ghost predicate Inert(junk: seq<byte>, rest: seq<byte>) {
    forall i :: 0 <= i < |junk| && MagicAt(junk + rest, i) ==> DecodeOne((junk + rest)[i..]).None?
  }

  lemma InertTail(junk: seq<byte>, rest: seq<byte>)
    requires junk != []
    ensures Inert(junk, rest)
            <==> Inert(junk[1..], rest) && (MagicAt(junk + rest, 0) ==> DecodeOne(junk + rest).None?)
  {
    hide DecodeOne;
    var b, c := junk + rest, junk[1..] + rest;
    assert b[0..] == b;
    forall i | 0 <= i < |junk| - 1
      ensures MagicAt(c, i) == MagicAt(b, i + 1) && c[i..] == b[i + 1..]
    {
    }
    if Inert(junk[1..], rest) && (MagicAt(b, 0) ==> DecodeOne(b).None?) {
      forall i | 0 <= i < |junk| && MagicAt(b, i)
        ensures DecodeOne(b[i..]).None?
      {
        if i > 0 {
          assert MagicAt(c, i - 1) && c[i - 1..] == b[i..];
        }
      }
    }
  }

  /** Junk costs one corrupt count per start magic in it and hides nothing behind it. */
  lemma {:induction false} JunkSkipped(junk: seq<byte>, rest: seq<byte>, base: int)
    requires Inert(junk, rest)
    ensures Scan(junk + rest) == Scanned([], MagicsBefore(junk + rest, |junk|)).Then(Scan(rest))
    ensures Accepted(junk + rest, base) == Accepted(rest, base + |junk|)
    decreases |junk|
  {
    hide DecodeOne, Inert;
    if junk == [] {
      assert junk + rest == rest;
      assert [] + Scan(rest).records == Scan(rest).records;
    } else {
      InertTail(junk, rest);
      assert (junk + rest)[1..] == junk[1..] + rest;
      JunkSkipped(junk[1..], rest, base + 1);
    }
  }

  /** Otherwise the decoder accepts a record that begins inside the junk. */
  lemma {:induction false} JunkRead(junk: seq<byte>, rest: seq<byte>, base: int)
    requires !Inert(junk, rest)
    ensures Accepted(junk + rest, base) != [] && Accepted(junk + rest, base)[0].at < base + |junk|
    decreases |junk|
  {
    hide DecodeOne;
    if junk == [] {
      assert false;
    } else {
      InertTail(junk, rest);
      assert (junk + rest)[1..] == junk[1..] + rest;
      if !(MagicAt(junk + rest, 0) && DecodeOne(junk + rest).Some?) {
        JunkRead(junk[1..], rest, base + 1);
      }
    }
  }

  /** A frame whose tag, payload, checksum and end magic may have been overwritten. */
  function Overwritten(r: Record, crc: seq<byte>, end: seq<byte>): seq<byte> {
    START + Body(r) + crc + end
  }

  /** What the checksum vouches for: the body and the stored checksum after it. */
  function Covered(r: Record, crc: seq<byte>): seq<byte> {
    Body(r) + crc
  }

  /**
   Overwriting at most sixteen consecutive bits anywhere from the tag to the stored
   checksum, the length field excepted, is always noticed; so is any change to the
   end magic.
   */
  lemma DamageRejected(r: Record, q: Record, crc: seq<byte>, end: seq<byte>, tail: seq<byte>)
    requires Storable(r) && |q.payload| == |r.payload| && |crc| == |end| == 2
    requires Burst(Covered(r, PutCrc(Checksum(Body(r)))), Covered(q, crc)) || end != END
    ensures DecodeOne(Overwritten(q, crc, end) + tail).None?
  {
    hide Checksum, Uvarint, PutUvarint, Join, HighByte, LowByte, Burst;
    var b := Overwritten(q, crc, end) + tail;
    var v := PutUvarint(|q.payload|);
    var e := 3 + |v| + |q.payload|;
    RoomFor64Bits();
    assert b[3..] == v + (q.payload + crc + end + tail);
    UvarintRoundTrip(|q.payload|, q.payload + crc + end + tail, 0);
    assert b[2..e] == Body(q) && [b[e], b[e + 1]] == crc && b[e + 2..e + 4] == end;
    if end == END {
      var own := Checksum(Body(r));
      JoinSplit(own);
      ResidueZero(Body(r), HighByte(own), LowByte(own));
      BurstChangesChecksum(Covered(r, PutCrc(own)), Covered(q, crc));
      ResidueZero(Body(q), b[e], b[e + 1]);
    }
  }

  /** Replaces the bytes of `f` from offset `k` on. */
  function Patch(f: seq<byte>, k: nat, x: seq<byte>): (g: seq<byte>)
    requires k + |x| <= |f|
    ensures |g| == |f|
  {
    f[..k] + x + f[k + |x|..]
  }

  /** A patch leaves every range it does not touch alone. */
  lemma PatchKeeps(f: seq<byte>, k: nat, x: seq<byte>, lo: nat, hi: nat)
    requires k + |x| <= |f| && lo <= hi <= |f| && (hi <= k || k + |x| <= lo)
    ensures Patch(f, k, x)[lo..hi] == f[lo..hi]
  {
    var g := Patch(f, k, x);
    forall i | lo <= i < hi
      ensures g[i] == f[i]
    {
    }
  }

  lemma SplitRange(f: seq<byte>, lo: nat, i: nat, j: nat, hi: nat)
    requires lo <= i <= j <= hi <= |f|
    ensures f[lo..hi] == f[lo..i] + f[i..j] + f[j..hi]
  {
  }

  lemma SplitEnds(f: seq<byte>, g: seq<byte>, n: nat)
    requires |f| == |g| == n && n >= 4 && f[..2] == g[..2] && f[n - 2..] == g[n - 2..] && f != g
    ensures f[2..n - 2] != g[2..n - 2]
  {
    assert f == f[..2] + f[2..n - 2] + f[n - 2..] && g == g[..2] + g[2..n - 2] + g[n - 2..];
  }

  lemma PatchBurst(f: seq<byte>, k: nat, x: seq<byte>, lo: nat, hi: nat)
    requires k + |x| <= |f| && |x| <= 2 && lo <= k < hi <= |f|
    requires f[lo..hi] != Patch(f, k, x)[lo..hi]
    ensures Burst(f[lo..hi], Patch(f, k, x)[lo..hi])
  {
    hide Burst, Patch;
    var g := Patch(f, k, x);
    var end := if k + |x| <= hi then k + |x| else hi;
    SplitRange(f, lo, k, end, hi);
    SplitRange(g, lo, k, end, hi);
    PatchKeeps(f, k, x, lo, k);
    if end < hi {
      PatchKeeps(f, k, x, end, hi);
    }
    BytesBurst(f[lo..k], f[k..end], g[k..end], f[end..hi]);
  }

  /** A buffer with the record's own magic and length field, cut at the record's offsets. */
  lemma FieldsOf(g: seq<byte>, v: seq<byte>, m: nat) returns (q: Record, crc: seq<byte>, end: seq<byte>)
    requires |g| == 7 + |v| + m && g[..2] == START && g[3..3 + |v|] == v && v == PutUvarint(m)
    ensures |q.payload| == m && |crc| == |end| == 2
    ensures g == Overwritten(q, crc, end)
    ensures g[2..|g| - 2] == Covered(q, crc) && g[|g| - 2..] == end
  {
    hide PutUvarint;
    var n := |g|;
    q, crc, end := Record(g[2], g[3 + |v|..n - 4]), g[n - 4..n - 2], g[n - 2..];
    assert g[2..n - 4] == [g[2]] + g[3..3 + |v|] + g[3 + |v|..n - 4];
    assert g[2..n - 2] == g[2..n - 4] + crc;
    assert g == g[..2] + g[2..n - 4] + crc + end;
  }

  lemma FrameFields(r: Record)
    ensures var f, v := Frame(r), PutUvarint(|r.payload|);
            && |f| == 7 + |v| + |r.payload| && f[..2] == START && f[3..3 + |v|] == v
            && f[2..|f| - 2] == Covered(r, PutCrc(Checksum(Body(r)))) && f[|f| - 2..] == END
  {
    hide PutUvarint, Checksum, PutCrc;
  }

  /**
   Changing any one byte, or two neighbouring bytes, of a stored record outside its
   start magic and length field makes decodeOneRecord reject it.
   */
  lemma PatchRejected(r: Record, k: nat, x: seq<byte>, tail: seq<byte>)
    requires Storable(r) && |x| <= 2 && k + |x| <= |Frame(r)|
    requires (k == 2 && |x| == 1) || k >= 3 + |PutUvarint(|r.payload|)|
    requires Patch(Frame(r), k, x) != Frame(r)
    ensures DecodeOne(Patch(Frame(r), k, x) + tail).None?
  {
    hide Checksum, PutUvarint, PutCrc, Body, Frame, Burst, DecodeOne, Covered, Overwritten, Patch;
    var f := Frame(r);
    var g := Patch(f, k, x);
    var n := |f|;
    var v := PutUvarint(|r.payload|);
    FrameFields(r);
    PatchKeeps(f, k, x, 0, 2);
    PatchKeeps(f, k, x, 3, 3 + |v|);
    var q, crc, end := FieldsOf(g, v, |r.payload|);
    if end == END {
      SplitEnds(f, g, n);
      if k >= n - 2 {
        PatchKeeps(f, k, x, 2, n - 2);
      }
      PatchBurst(f, k, x, 2, n - 2);
    }
    DamageRejected(r, q, crc, end, tail);
  }

  lemma ScanNothing()
    ensures Scan([]) == Scanned([], 0)
  {
  }

  lemma StreamAlone(rs: seq<Record>)
    requires AllStorable(rs)
    ensures Scan(Stream(rs)) == Scanned(rs, 0)
  {
    hide Scan, Stream;
    StreamRoundTrip(rs, []);
    assert Stream(rs) + [] == Stream(rs);
    ScanNothing();
    assert rs + [] == rs;
  }

  /** The records of a stream and where their frames begin. */
  function FramePlaces(rs: seq<Record>, base: int): (o: seq<Place>)
    ensures |o| == |rs|
  {
    if rs == [] then [] else [Place(base, rs[0])] + FramePlaces(rs[1..], base + |Frame(rs[0])|)
  }

  lemma AcceptedFrame(r: Record, tail: seq<byte>, base: int)
    requires Storable(r)
    ensures Accepted(Frame(r) + tail, base) == [Place(base, r)] + Accepted(tail, base + |Frame(r)|)
  {
    hide DecodeOne, Frame;
    FrameFirst(r, tail);
  }

  lemma ConsConcat(x: Place, s: seq<Place>, t: seq<Place>)
    ensures [x] + (s + t) == [x] + s + t
  {
  }

  /** Stored records are accepted at their own offsets, whatever follows. */
  lemma {:induction false} AcceptedStream(rs: seq<Record>, tail: seq<byte>, base: int)
    requires AllStorable(rs)
    ensures Accepted(Stream(rs) + tail, base) == FramePlaces(rs, base) + Accepted(tail, base + |Stream(rs)|)
    decreases |rs|
  {
    hide Frame, Body, Accepted;
    if rs == [] {
      assert Stream(rs) + tail == tail;
      assert [] + Accepted(tail, base) == Accepted(tail, base);
    } else {
      var f, rest, next := Frame(rs[0]), Stream(rs[1..]), base + |Frame(rs[0])|;
      assert Stream(rs) + tail == f + (rest + tail);
      AcceptedFrame(rs[0], rest + tail, base);
      AcceptedStream(rs[1..], tail, next);
      hide Stream, FramePlaces;
      FramePlacesFirst(rs, base, rs[1..]);
      assert next + |rest| == base + |Stream(rs)|;
      ConsConcat(Place(base, rs[0]), FramePlaces(rs[1..], next), Accepted(tail, next + |rest|));
    }
  }

  lemma AcceptedAlone(rs: seq<Record>, base: int)
    requires AllStorable(rs)
    ensures Accepted(Stream(rs), base) == FramePlaces(rs, base)
  {
    hide Stream, FramePlaces;
    AcceptedStream(rs, [], base);
    assert Stream(rs) + [] == Stream(rs);
    assert FramePlaces(rs, base) + [] == FramePlaces(rs, base);
  }

  /**
   Junk in front of whole records: the decoder accepts exactly those records, each where it
   begins, if and only if no start magic of the junk opens a record that validates.
   */
  lemma RecoveredAfter(junk: seq<byte>, rs: seq<Record>, base: int)
    requires AllStorable(rs)
    ensures Accepted(junk + Stream(rs), base) == FramePlaces(rs, base + |junk|) <==> Inert(junk, Stream(rs))
    ensures Inert(junk, Stream(rs)) ==>
              Scan(junk + Stream(rs)) == Scanned(rs, MagicsBefore(junk + Stream(rs), |junk|))
  {
    hide *;
    if Inert(junk, Stream(rs)) {
      InertRecovered(junk, rs, base);
    } else {
      JunkRead(junk, Stream(rs), base);
      FirstPlace(rs, base + |junk|);
    }
  }

  lemma InertRecovered(junk: seq<byte>, rs: seq<Record>, base: int)
    requires AllStorable(rs) && Inert(junk, Stream(rs))
    ensures Accepted(junk + Stream(rs), base) == FramePlaces(rs, base + |junk|)
    ensures Scan(junk + Stream(rs)) == Scanned(rs, MagicsBefore(junk + Stream(rs), |junk|))
  {
    hide Inert, Scan, Accepted, Stream, MagicsBefore, FramePlaces;
    StreamAlone(rs);
    AcceptedAlone(rs, base + |junk|);
    JunkSkipped(junk, Stream(rs), base);
    assert [] + rs == rs;
  }

  lemma FirstPlace(rs: seq<Record>, base: int)
    ensures FramePlaces(rs, base) != [] ==> FramePlaces(rs, base)[0].at == base
  {
    hide Frame;
  }

  /** The same for junk between whole records. */
  lemma RecoveredBetween(pre: seq<Record>, junk: seq<byte>, post: seq<Record>)
    requires AllStorable(pre) && AllStorable(post)
    ensures Accepted(Stream(pre) + junk + Stream(post), 0)
            == FramePlaces(pre, 0) + FramePlaces(post, |Stream(pre)| + |junk|)
            <==> Inert(junk, Stream(post))
    ensures Inert(junk, Stream(post)) ==>
              Scan(Stream(pre) + junk + Stream(post))
              == Scanned(pre + post, MagicsBefore(junk + Stream(post), |junk|))
  {
    hide *;
    PlacesBetween(pre, junk, post);
    if Inert(junk, Stream(post)) {
      ScanBetween(pre, junk, post);
    }
  }

  lemma PlacesBetween(pre: seq<Record>, junk: seq<byte>, post: seq<Record>)
    requires AllStorable(pre) && AllStorable(post)
    ensures Accepted(Stream(pre) + junk + Stream(post), 0)
            == FramePlaces(pre, 0) + FramePlaces(post, |Stream(pre)| + |junk|)
            <==> Inert(junk, Stream(post))
  {
    hide *;
    var rest := junk + Stream(post);
    assert Stream(pre) + junk + Stream(post) == Stream(pre) + rest;
    AcceptedStream(pre, rest, 0);
    RecoveredAfter(junk, post, |Stream(pre)|);
    SamePrefix(FramePlaces(pre, 0), Accepted(rest, |Stream(pre)|), FramePlaces(post, |Stream(pre)| + |junk|));
  }

  lemma ScanBetween(pre: seq<Record>, junk: seq<byte>, post: seq<Record>)
    requires AllStorable(pre) && AllStorable(post) && Inert(junk, Stream(post))
    ensures Scan(Stream(pre) + junk + Stream(post))
            == Scanned(pre + post, MagicsBefore(junk + Stream(post), |junk|))
  {
    hide Inert, Scan, Stream, MagicsBefore, AllStorable;
    var rest := junk + Stream(post);
    assert Stream(pre) + junk + Stream(post) == Stream(pre) + rest;
    StreamRoundTrip(pre, rest);
    InertRecovered(junk, post, 0);
  }

  lemma SamePrefix(p: seq<Place>, s: seq<Place>, t: seq<Place>)
    ensures p + s == p + t <==> s == t
  {
    assert (p + s)[|p|..] == s && (p + t)[|p|..] == t;
  }

  lemma FramePlacesFirst(rs: seq<Record>, base: int, rest: seq<Record>)
    requires rs != [] && rs[1..] == rest
    ensures FramePlaces(rs, base) == [Place(base, rs[0])] + FramePlaces(rest, base + |Frame(rs[0])|)
    ensures |Stream(rs)| == |Frame(rs[0])| + |Stream(rest)|
  {
    hide Frame, Body;
  }

  lemma {:induction false} FramePlacesConcat(a: seq<Record>, b: seq<Record>, base: int)
    ensures FramePlaces(a + b, base) == FramePlaces(a, base) + FramePlaces(b, base + |Stream(a)|)
    decreases |a|
  {
    hide FramePlaces, Frame, Body;
    if a == [] {
      assert a + b == b;
      NoPlaces(base);
      assert [] + FramePlaces(b, base) == FramePlaces(b, base);
    } else {
      var rest, next := a[1..], base + |Frame(a[0])|;
      FramePlacesConcat(rest, b, next);
      FramePlacesJoin(a, b, base, FramePlaces(rest, next), FramePlaces(b, next + |Stream(rest)|));
    }
  }

  lemma FramePlacesJoin(a: seq<Record>, b: seq<Record>, base: int, s: seq<Place>, t: seq<Place>)
    requires a != [] && s == FramePlaces(a[1..], base + |Frame(a[0])|)
    requires FramePlaces(a[1..] + b, base + |Frame(a[0])|) == s + t
    ensures FramePlaces(a + b, base) == FramePlaces(a, base) + t
    ensures |Stream(a)| == |Frame(a[0])| + |Stream(a[1..])|
  {
    hide FramePlaces, Stream, Frame, Body;
    assert (a + b)[1..] == a[1..] + b;
    FramePlacesFirst(a, base, a[1..]);
    FramePlacesFirst(a + b, base, a[1..] + b);
    ConsConcat(Place(base, a[0]), s, t);
  }

  lemma NoPlaces(base: int)
    ensures FramePlaces([], base) == []
  {
  }

  /** The same without the record between `pre` and `post`. */
  function OtherPlaces(pre: seq<Record>, r: Record, post: seq<Record>): seq<Place> {
    var places := FramePlaces(pre + [r] + post, 0);
    places[..|pre|] + places[|pre| + 1..]
  }

  lemma DropMiddle(p: seq<Place>, x: Place, q: seq<Place>)
    ensures (p + ([x] + q))[..|p|] == p && (p + ([x] + q))[|p| + 1..] == q
  {
  }

  lemma OtherPlacesSplit(pre: seq<Record>, r: Record, post: seq<Record>)
    ensures OtherPlaces(pre, r, post) == FramePlaces(pre, 0) + FramePlaces(post, |Stream(pre)| + |Frame(r)|)
  {
    hide Frame, Body, Stream, FramePlaces;
    var n := |Stream(pre)|;
    assert ([r] + post)[1..] == post;
    FramePlacesFirst([r] + post, n, post);
    assert pre + [r] + post == pre + ([r] + post);
    FramePlacesConcat(pre, [r] + post, 0);
    DropMiddle(FramePlaces(pre, 0), Place(n, r), FramePlaces(post, n + |Frame(r)|));
  }

  /**
   A stream in which one record was damaged: the decoder accepts exactly the other records,
   each at its own offset, if and only if no later start magic in the damaged bytes opens a
   record that validates. The damage then costs one corrupt count per start magic left in
   the damaged bytes.
   */
  lemma RecoveredAround(pre: seq<Record>, r: Record, q: Record, crc: seq<byte>, end: seq<byte>, post: seq<Record>)
    requires AllStorable(pre) && Storable(r) && AllStorable(post)
    requires |q.payload| == |r.payload| && |crc| == |end| == 2
    requires Burst(Covered(r, PutCrc(Checksum(Body(r)))), Covered(q, crc)) || end != END
    ensures var d := Overwritten(q, crc, end);
            var data := Stream(pre) + d + Stream(post);
            && (Accepted(data, 0) == OtherPlaces(pre, r, post) <==> InertInside(d, Stream(post)))
            && (InertInside(d, Stream(post)) ==>
                  Scan(data) == Scanned(pre + post, MagicsBefore(d + Stream(post), |d|)))
            && MagicsBefore(d + Stream(post), |d|) >= 1
  {
    hide Checksum, PutUvarint, Burst, DecodeOne, Scan, Accepted, Stream, Body, PutCrc, Frame;
    hide OtherPlaces, FramePlaces, Overwritten, Covered, Inert, InertInside, MagicsBefore;
    var d := Overwritten(q, crc, end);
    var rest := Stream(post);
    DamageRejected(r, q, crc, end, rest);
    SameSize(r, q, crc, end);
    InertAfterFirst(d, rest);
    RecoveredBetween(pre, d, post);
    OtherPlacesSplit(pre, r, post);
    StartsWithMagic(q, crc, end, rest);
  }

  /** The same, but for the first offset. */
  ghost predicate InertInside(junk: seq<byte>, rest: seq<byte>) {
    forall i :: 1 <= i < |junk| && MagicAt(junk + rest, i) ==> DecodeOne((junk + rest)[i..]).None?
  }

  lemma InertAfterFirst(junk: seq<byte>, rest: seq<byte>)
    requires DecodeOne(junk + rest).None?
    ensures Inert(junk, rest) <==> InertInside(junk, rest)
  {
    hide DecodeOne;
    assert (junk + rest)[0..] == junk + rest;
  }

  lemma StartsWithMagic(q: Record, crc: seq<byte>, end: seq<byte>, rest: seq<byte>)
    ensures var d := Overwritten(q, crc, end);
            MagicsBefore(d + rest, |d|) >= 1
  {
    hide PutUvarint;
    var d := Overwritten(q, crc, end);
    assert MagicAt(d + rest, 0);
  }

  lemma SameSize(r: Record, q: Record, crc: seq<byte>, end: seq<byte>)
    requires |q.payload| == |r.payload| && |crc| == |end| == 2
    ensures |Overwritten(q, crc, end)| == |Frame(r)|
  {
    hide PutUvarint;
  }

  /** How many records the first `k` bytes of a stream touch. */
  function Touched(rs: seq<Record>, k: nat): (i: nat)
    requires k <= |Stream(rs)|
    ensures i <= |rs|
  {
    if k == 0 || rs == [] then 0
    else if k < |Frame(rs[0])| then 1
    else 1 + Touched(rs[1..], k - |Frame(rs[0])|)
  }

  /** What is left of the record that a cut at byte `k` falls into. */
  function Remnant(rs: seq<Record>, k: nat): (s: seq<byte>)
    requires k <= |Stream(rs)|
  {
    if k == 0 || rs == [] then []
    else if k < |Frame(rs[0])| then Frame(rs[0])[k..]
    else Remnant(rs[1..], k - |Frame(rs[0])|)
  }

  lemma DropConcat(a: seq<byte>, b: seq<byte>, k: nat)
    requires k <= |a| + |b|
    ensures (a + b)[k..] == if k < |a| then a[k..] + b else b[k - |a|..]
  {
  }

  lemma {:induction false} CutSplits(rs: seq<Record>, k: nat)
    requires k <= |Stream(rs)|
    ensures Stream(rs)[k..] == Remnant(rs, k) + Stream(rs[Touched(rs, k)..])
    decreases |rs|
  {
    hide Frame, Body, Stream;
    if k == 0 || rs == [] {
      StreamOfNothing();
      assert rs[0..] == rs;
      assert Stream(rs)[k..] == [] + Stream(rs);
    } else {
      var f, rest := Frame(rs[0]), Stream(rs[1..]);
      StreamFirst(rs);
      DropConcat(f, rest, k);
      if k >= |f| {
        CutSplits(rs[1..], k - |f|);
        DropTwice(rs, Touched(rs[1..], k - |f|));
      }
    }
  }

  lemma StreamOfNothing()
    ensures Stream([]) == []
  {
  }

  lemma StreamFirst(rs: seq<Record>)
    requires rs != []
    ensures Stream(rs) == Frame(rs[0]) + Stream(rs[1..])
  {
    hide Frame;
  }

  lemma DropTwice(rs: seq<Record>, i: nat)
    requires i < |rs|
    ensures rs[1..][i..] == rs[1 + i..]
  {
  }

  lemma {:induction false} CutPlaces(rs: seq<Record>, k: nat, base: int)
    requires k <= |Stream(rs)|
    ensures FramePlaces(rs, base)[Touched(rs, k)..]
            == FramePlaces(rs[Touched(rs, k)..], base + k + |Remnant(rs, k)|)
    decreases |rs|, 1
  {
    hide Frame, Body, FramePlaces;
    if k == 0 || rs == [] {
      assert rs[0..] == rs;
      assert FramePlaces(rs, base)[0..] == FramePlaces(rs, base);
    } else {
      var n := |Frame(rs[0])|;
      FramePlacesFirst(rs, base, rs[1..]);
      var rest := FramePlaces(rs[1..], base + n);
      if k < n {
        ConsDrops(Place(base, rs[0]), rest);
      } else {
        CutPlacesOn(rs, k, base);
      }
    }
  }

  lemma {:induction false} CutPlacesOn(rs: seq<Record>, k: nat, base: int)
    requires rs != [] && |Frame(rs[0])| <= k <= |Stream(rs)| && k > 0
    ensures FramePlaces(rs, base)[Touched(rs, k)..]
            == FramePlaces(rs[Touched(rs, k)..], base + k + |Remnant(rs, k)|)
    decreases |rs|, 0
  {
    hide Frame, Body, FramePlaces;
    var n := |Frame(rs[0])|;
    var i := Touched(rs[1..], k - n);
    assert Touched(rs, k) == 1 + i && Remnant(rs, k) == Remnant(rs[1..], k - n);
    hide Touched, Remnant;
    FramePlacesFirst(rs, base, rs[1..]);
    CutPlaces(rs[1..], k - n, base + n);
    assert rs[1..][i..] == rs[1 + i..];
    ConsDropsMore(Place(base, rs[0]), FramePlaces(rs[1..], base + n), i);
    assert base + n + (k - n) + |Remnant(rs[1..], k - n)| == base + k + |Remnant(rs, k)|;
  }

  lemma ConsDrops(x: Place, s: seq<Place>)
    ensures ([x] + s)[1..] == s
  {
  }

  lemma ConsDropsMore(x: Place, s: seq<Place>, i: nat)
    requires i <= |s|
    ensures ([x] + s)[1 + i..] == s[i..]
  {
  }

  /**
   A ring buffer that overwrote its oldest bytes holds a suffix of the stream. The decoder
   accepts exactly the records that are still whole, each at its own offset in the stream,
   if and only if no start magic in the remnant of the cut record opens a record that
   validates. It then returns these records and counts the start magics of the remnant.
   */
  lemma SuffixRecovered(rs: seq<Record>, k: nat)
    requires AllStorable(rs) && k <= |Stream(rs)|
    ensures var cut, whole := Remnant(rs, k), rs[Touched(rs, k)..];
            && (Accepted(Stream(rs)[k..], k) == FramePlaces(rs, 0)[Touched(rs, k)..] <==> Inert(cut, Stream(whole)))
            && (Inert(cut, Stream(whole)) ==>
                  Scan(Stream(rs)[k..]) == Scanned(whole, MagicsBefore(cut + Stream(whole), |cut|)))
  {
    hide Inert, Scan, Accepted, Stream, Remnant, Touched, MagicsBefore, FramePlaces;
    CutSplits(rs, k);
    CutPlaces(rs, k, 0);
    RecoveredAfter(Remnant(rs, k), rs[Touched(rs, k)..], k);
  }

  /** The proviso is needed: a frame inside the payload of the cut record is read as a record. */
  lemma EmbeddedFrameIsRead(tag: byte, r: Record, post: seq<Record>)
    requires Storable(r)
    ensures var q := Record(tag, Frame(r));
            var k := 3 + |PutUvarint(|q.payload|)|;
            && k < |Frame(q)| <= |Stream([q] + post)|
            && Touched([q] + post, k) == 1
            && Scan(Stream([q] + post)[k..]).records != []
            && Scan(Stream([q] + post)[k..]).records[0] == r
  {
    hide Scan, PutUvarint, Checksum, PutCrc;
    var q := Record(tag, Frame(r));
    var k := 3 + |PutUvarint(|q.payload|)|;
    var after := PutCrc(Checksum(Body(q))) + END;
    assert ([q] + post)[1..] == post;
    assert Frame(q) == (START + [tag] + PutUvarint(|q.payload|)) + (Frame(r) + after);
    assert Stream([q] + post)[k..] == Frame(r) + (after + Stream(post));
    ScanFrame(r, after + Stream(post));
  }

  // ---- Text -----------------------------------------------------------------------

  /**
   The text `line` a payload stands for: behind the text marker, whole if it predates the
   markers, nothing if it is structured. Every payload is of one of the three kinds.
   */
  ghost predicate Tells(payload: seq<byte>, line: seq<byte>) {
    || payload == [0x00] + line
    || (line == [] && payload != [] && payload[0] == 0x01)
    || (payload == line && (payload == [] || (payload[0] != 0x00 && payload[0] != 0x01)))
  }

  function Joined(lines: seq<seq<byte>>): seq<byte> {
    if lines == [] then [] else Joined(lines[..|lines| - 1]) + lines[|lines| - 1]
  }

  lemma TextExactly(payload: seq<byte>, line: seq<byte>)
    ensures TextOf(payload) == line <==> Tells(payload, line)
  {
    if payload != [] {
      assert payload == [payload[0]] + payload[1..];
    }
    assert ([0x00] + line)[1..] == line;
  }

  /** Text stored line by line reads back as exactly that text, structured records left out. */
  lemma {:induction false} TextRoundTrip(rs: seq<Record>, lines: seq<seq<byte>>)
    requires AllStorable(rs) && |rs| == |lines|
    requires forall i :: 0 <= i < |rs| ==> Tells(rs[i].payload, lines[i])
    ensures Scan(Stream(rs)) == Scanned(rs, 0)
    ensures AllText(Scan(Stream(rs)).records) == Joined(lines)
  {
    hide Scan, Stream;
    StreamRoundTrip(rs, []);
    assert Stream(rs) + [] == Stream(rs);
    ScanNothing();
    TextJoined(rs, lines);
  }

  lemma {:induction false} TextJoined(rs: seq<Record>, lines: seq<seq<byte>>)
    requires |rs| == |lines|
    requires forall i :: 0 <= i < |rs| ==> Tells(rs[i].payload, lines[i])
    ensures AllText(rs) == Joined(lines)
  {
    hide Tells, TextOf;
    if rs != [] {
      var n := |rs| - 1;
      TextJoined(rs[..n], lines[..n]);
      TextExactly(rs[n].payload, lines[n]);
    }
  }
}
