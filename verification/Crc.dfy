/**
 CRC-16/CCITT-FALSE (polynomial 0x1021, initial value 0xFFFF): the table-driven
 code, the bit-serial division it must agree with, and the error patterns the
 checksum is guaranteed to expose.
 */
module Crc {
  import opened Bytes
  import opened Words

  const INIT: bv16 := 0xFFFF

  // ---- Bit-serial reference -----------------------------------------------------

  function FeedAll(c: bv16, bits: seq<bool>): bv16
    decreases |bits|
  {
    if bits == [] then c else FeedAll(Feed(c, bits[0]), bits[1..])
  }

  /** The top `n` bits of a word, most significant first. */
  function TopBits(w: bv16, n: nat): (s: seq<bool>)
    ensures |s| == n
    decreases n
  {
    if n == 0 then [] else [Top(w)] + TopBits(Shl(w), n - 1)
  }

  function Bits(b: byte): (s: seq<bool>)
    ensures |s| == 8
  {
    TopBits(High(b), 8)
  }

  function BitsOf(data: seq<byte>): (s: seq<bool>)
    ensures |s| == 8 * |data|
  {
    if data == [] then [] else Bits(data[0]) + BitsOf(data[1..])
  }

  /** The checksum as the remainder of bit-by-bit polynomial division. */
  function Checksum(data: seq<byte>): bv16 {
    FeedAll(INIT, BitsOf(data))
  }

  lemma {:induction false} FeedAllConcat(c: bv16, s: seq<bool>, t: seq<bool>)
    ensures FeedAll(c, s + t) == FeedAll(FeedAll(c, s), t)
    decreases |s|
  {
    hide Feed;
    if s == [] {
      assert s + t == t;
    } else {
      assert (s + t)[1..] == s[1..] + t;
      FeedAllConcat(Feed(c, s[0]), s[1..], t);
    }
  }

  lemma {:induction false} BitsOfConcat(s: seq<byte>, t: seq<byte>)
    ensures BitsOf(s + t) == BitsOf(s) + BitsOf(t)
  {
    hide Bits;
    if s == [] {
      assert s + t == t;
    } else {
      assert (s + t)[1..] == s[1..] + t;
      BitsOfConcat(s[1..], t);
    }
  }

  // ---- The table and the loop over it -------------------------------------------

  function ShiftN(c: bv16, n: nat): bv16
    decreases n
  {
    if n == 0 then c else ShiftN(Shift(c), n - 1)
  }

  function ShlN(c: bv16, n: nat): bv16
    decreases n
  {
    if n == 0 then c else ShlN(Shl(c), n - 1)
  }

  function TableEntry(i: byte): bv16 {
    ShiftN(High(i), 8)
  }

  ghost predicate IsTable(t: seq<bv16>) {
    |t| == 256 && forall i :: 0 <= i < 256 ==> t[i] == TableEntry(ToByte(i))
  }

  lemma {:induction false} ShiftNXor(x: bv16, y: bv16, n: nat)
    ensures ShiftN(Xor(x, y), n) == Xor(ShiftN(x, n), ShiftN(y, n))
    decreases n
  {
    hide Shift, Xor;
    if n > 0 {
      ShiftXor(x, y);
      ShiftNXor(Shift(x), Shift(y), n - 1);
    }
  }

  /** Feeding the top bits of a word one at a time is XORing the word in and shifting. */
  lemma {:induction false} FeedWord(c: bv16, w: bv16, n: nat)
    ensures ShiftN(Xor(c, w), n) == Xor(FeedAll(c, TopBits(w, n)), ShlN(w, n))
    decreases n
  {
    hide Shift, Feed, Xor, Top, Shl;
    if n == 0 {
      assert TopBits(w, n) == [];
    } else {
      FeedTop(c, w);
      var s := TopBits(w, n);
      assert s[0] == Top(w) && s[1..] == TopBits(Shl(w), n - 1);
      FeedWord(Feed(c, Top(w)), Shl(w), n - 1);
    }
  }

  lemma ShlN8(w: bv16)
    ensures ShlN(w, 8) == Shl8(w)
  {
    hide Shl, Shl8;
    ShlTimes8(w);
    assert ShlN(w, 8) == ShlN(Shl(Shl(w)), 6) == ShlN(Shl(Shl(Shl(Shl(w)))), 4);
    assert ShlN(w, 8) == ShlN(Shl(Shl(Shl(Shl(Shl(Shl(w)))))), 2);
  }

  /** Bits that never reach the top shift through unchanged. */
  predicate Clear(w: bv16, n: nat)
    decreases n
  {
    n == 0 || (!Top(w) && Clear(Shl(w), n - 1))
  }

  lemma {:induction false} ClearShifts(w: bv16, n: nat)
    requires Clear(w, n)
    ensures ShiftN(w, n) == ShlN(w, n)
    decreases n
  {
    hide Top, Shl, Xor;
    if n > 0 {
      ClearShifts(Shl(w), n - 1);
    }
  }

  lemma LowHalfClear(c: bv16)
    ensures Clear(LowHalf(c), 8)
  {
    hide Top, Shl, LowHalf;
    LowHalfTops(c);
    var w := Shl(Shl(Shl(Shl(LowHalf(c)))));
    assert Clear(w, 4) by {
      assert Clear(Shl(Shl(w)), 2);
    }
    assert Clear(Shl(Shl(LowHalf(c))), 6);
  }

  /** A whole byte enters by XOR into the high half and eight shifts. */
  lemma FeedByte(c: bv16, b: byte)
    ensures FeedAll(c, Bits(b)) == ShiftN(Xor(c, High(b)), 8)
  {
    hide FeedAll, TopBits, Xor, High, Shl8, ShiftN, ShlN;
    FeedWord(c, High(b), 8);
    ShlN8(High(b));
    HighShl8(b);
    XorZero(FeedAll(c, Bits(b)), 0);
  }

  /** The loop body of crc16 feeds one byte. */
  lemma TableStep(c: bv16, b: byte)
    ensures Xor(Shl8(c), TableEntry(Index(c, b))) == FeedAll(c, Bits(b))
  {
    hide FeedAll, Bits, Xor, High, Shl8, ShiftN, ShlN, LowHalf, Index, Clear;
    FeedByte(c, b);
    IndexWord(c, b);
    ShiftNXor(High(Index(c, b)), LowHalf(c), 8);
    LowHalfClear(c);
    ClearShifts(LowHalf(c), 8);
    ShlN8(LowHalf(c));
    LowHalfTopFree(c);
    XorCommutes(Shl8(c), TableEntry(Index(c, b)));
  }

  /** The initialiser of crc16Table. */
  method BuildTable() returns (t: array<bv16>)
    ensures fresh(t) && IsTable(t[..])
  {
    hide Val, ToByte, TableEntry;
    t := new bv16[256];
    for i := 0 to 256
      invariant forall k :: 0 <= k < i ==> t[k] == TableEntry(ToByte(k))
    {
      var crc := BuildEntry(ToByte(i));
      t[i] := crc;
    }
  }

  /** Its inner loop. */
  method BuildEntry(i: byte) returns (crc: bv16)
    ensures crc == TableEntry(i)
  {
    hide Shift, Xor, Shl, Top, High, ShiftN;
    crc := High(i);
    for j := 0 to 8
      invariant ShiftN(crc, 8 - j) == TableEntry(i)
    {
      ShiftNStep(crc, 8 - j);
      ShiftCases(crc);
      if Top(crc) {
        crc := Xor(Shl(crc), 0x1021);
      } else {
        crc := Shl(crc);
      }
    }
    ShiftNZero(crc);
  }

  lemma ShiftNStep(c: bv16, n: nat)
    requires n > 0
    ensures ShiftN(c, n) == ShiftN(Shift(c), n - 1)
  {
  }

  lemma ShiftNZero(c: bv16)
    ensures ShiftN(c, 0) == c
  {
  }

  lemma ShiftCases(c: bv16)
    ensures Shift(c) == if Top(c) then Xor(Shl(c), 0x1021) else Shl(c)
  {
  }

  /** crc16: with the package's table, the loop computes the bit-serial checksum. */
  method Crc16(t: array<bv16>, data: seq<byte>) returns (crc: bv16)
    requires IsTable(t[..])
    ensures crc == Checksum(data)
  {
    hide FeedAll, Bits, Xor, Shl8, Index, TableEntry, Val, ToByte;
    crc := INIT;
    assert crc == Checksum(data[..0]) by { FeedNothing(INIT); }
    for i := 0 to |data|
      invariant crc == Checksum(data[..i])
    {
      var index := Index(crc, data[i]);
      ValInjective(index, ToByte(Val(index)));
      assert t[..][Val(index)] == TableEntry(index);
      TableStep(crc, data[i]);
      ChecksumSnoc(data[..i], data[i]);
      assert data[..i] + [data[i]] == data[..i + 1];
      crc := Xor(Shl8(crc), t[Val(index)]);
    }
    assert data[..|data|] == data;
  }

  lemma FeedNothing(c: bv16)
    ensures FeedAll(c, []) == c
  {
  }

  lemma ChecksumSnoc(data: seq<byte>, b: byte)
    ensures Checksum(data + [b]) == FeedAll(Checksum(data), Bits(b))
  {
    hide FeedAll, Bits;
    BitsOfConcat(data, [b]);
    assert BitsOf([b]) == Bits(b);
    FeedAllConcat(INIT, BitsOf(data), Bits(b));
  }

  lemma ShiftTimes8(c: bv16)
    ensures ShiftN(c, 8) == Shift(Shift(Shift(Shift(Shift(Shift(Shift(Shift(c))))))))
  {
    hide Shift;
    assert ShiftN(c, 8) == ShiftN(Shift(Shift(c)), 6) == ShiftN(Shift(Shift(Shift(Shift(c)))), 4);
    assert ShiftN(c, 8) == ShiftN(Shift(Shift(Shift(Shift(Shift(Shift(c)))))), 2);
  }

  lemma ByteStep(c: bv16, b: byte, r: bv16)
    requires Shift(Shift(Shift(Shift(Shift(Shift(Shift(Shift(Xor(c, High(b)))))))))) == r
    ensures FeedAll(c, Bits(b)) == r
  {
    hide Shift, Xor, High, FeedAll, Bits, ShiftN;
    FeedByte(c, b);
    ShiftTimes8(Xor(c, High(b)));
  }

  /** The published check value of CRC-16/CCITT-FALSE: the checksum of "123456789". */
  lemma CheckValue()
    ensures Checksum([0x31, 0x32, 0x33, 0x34, 0x35, 0x36, 0x37, 0x38, 0x39]) == 0x29B1
  {
    CheckSteps();
    hide FeedAll, Bits, BitsOf;
    var s: seq<byte> := [0x31, 0x32, 0x33, 0x34, 0x35, 0x36, 0x37, 0x38, 0x39];
    assert s[..0] == [] && s[..9] == s;
    assert Checksum(s[..0]) == INIT by { ChecksumNothing(); }
    ChecksumSnoc(s[..0], s[0]);
    assert s[..0] + [s[0]] == s[..1];
    ChecksumSnoc(s[..1], s[1]);
    assert s[..1] + [s[1]] == s[..2];
    ChecksumSnoc(s[..2], s[2]);
    assert s[..2] + [s[2]] == s[..3];
    ChecksumSnoc(s[..3], s[3]);
    assert s[..3] + [s[3]] == s[..4];
    ChecksumSnoc(s[..4], s[4]);
    assert s[..4] + [s[4]] == s[..5];
    ChecksumSnoc(s[..5], s[5]);
    assert s[..5] + [s[5]] == s[..6];
    ChecksumSnoc(s[..6], s[6]);
    assert s[..6] + [s[6]] == s[..7];
    ChecksumSnoc(s[..7], s[7]);
    assert s[..7] + [s[7]] == s[..8];
    ChecksumSnoc(s[..8], s[8]);
    assert s[..8] + [s[8]] == s[..9];
  }

  lemma ChecksumNothing()
    ensures Checksum([]) == INIT
  {
  }

  lemma CheckSteps()
    ensures FeedAll(0xFFFF, Bits(0x31)) == 0xC782
    ensures FeedAll(0xC782, Bits(0x32)) == 0x3DBA
    ensures FeedAll(0x3DBA, Bits(0x33)) == 0x5BCE
    ensures FeedAll(0x5BCE, Bits(0x34)) == 0x5349
    ensures FeedAll(0x5349, Bits(0x35)) == 0x4560
    ensures FeedAll(0x4560, Bits(0x36)) == 0x2EF4
    ensures FeedAll(0x2EF4, Bits(0x37)) == 0x7718
    ensures FeedAll(0x7718, Bits(0x38)) == 0xA12B
    ensures FeedAll(0xA12B, Bits(0x39)) == 0x29B1
  {
    hide FeedAll, Bits;
    ByteStep(0xFFFF, 0x31, 0xC782);
    ByteStep(0xC782, 0x32, 0x3DBA);
    ByteStep(0x3DBA, 0x33, 0x5BCE);
    ByteStep(0x5BCE, 0x34, 0x5349);
    ByteStep(0x5349, 0x35, 0x4560);
    ByteStep(0x4560, 0x36, 0x2EF4);
    ByteStep(0x2EF4, 0x37, 0x7718);
    ByteStep(0x7718, 0x38, 0xA12B);
    ByteStep(0xA12B, 0x39, 0x29B1);
  }

  // ---- Error detection ---------------------------------------------------------------

  lemma FeedBack(c: bv16, bit: bool)
    requires !LowBit(Feed(c, bit))
    ensures c == Unfeed(Feed(c, bit), bit)
  {
    hide Top, Shl, LowBit, Xor, Unfeed;
    ShiftToEven(if bit then Xor(c, 0x8000) else c);
    if bit {
      UnfeedSet(c);
    } else {
      UnfeedClear(c);
    }
  }

  /** Each register step is injective, so a difference never heals by itself. */
  lemma {:induction false} FeedAllInjective(c1: bv16, c2: bv16, s: seq<bool>)
    requires FeedAll(c1, s) == FeedAll(c2, s)
    ensures c1 == c2
    decreases |s|
  {
    hide Feed, Xor;
    if s != [] {
      FeedAllInjective(Feed(c1, s[0]), Feed(c2, s[0]), s[1..]);
      FeedLinear(c1, s[0], c2, s[0]);
      XorZero(Feed(c1, s[0]), Feed(c2, s[0]));
      FeedFalse(Xor(c1, c2));
      ShiftZero(Xor(c1, c2));
      XorZero(c1, c2);
    }
  }

  lemma FeedFalse(c: bv16)
    ensures Feed(c, false) == Shift(c)
  {
  }

  /** The only register difference that a message difference `d` can cancel. */
  function Cancelled(d: seq<bool>): bv16 {
    if d == [] then 0 else Unfeed(Cancelled(d[1..]), d[0])
  }

  lemma {:induction false} CancelledMask(d: seq<bool>)
    requires |d| <= 16
    ensures And(Cancelled(d), Mask(|d|)) == 0
    ensures |d| < 16 ==> !LowBit(Cancelled(d))
  {
    hide Mask, And, Unfeed, LowBit;
    if d == [] {
      assert And(0, Mask(0)) == 0 by { ZeroAnd(Mask(0)); }
    } else {
      CancelledMask(d[1..]);
      MaskStep(|d| - 1);
      UnfeedMask(Cancelled(d[1..]), d[0], Mask(|d| - 1));
    }
    if |d| < 16 {
      MaskStep(|d|);
      AndLowBit(Cancelled(d), Mask(|d|));
    }
  }

  lemma ZeroAnd(m: bv16)
    ensures And(0, m) == 0
  {
  }

  lemma {:induction false} CancelledZero(d: seq<bool>)
    requires |d| <= 16 && Cancelled(d) == 0
    ensures forall i :: 0 <= i < |d| ==> !d[i]
  {
    hide Unfeed, LowBit;
    if d != [] {
      CancelledMask(d[1..]);
      UnfeedZero(Cancelled(d[1..]), d[0]);
      CancelledZero(d[1..]);
      assert d == [d[0]] + d[1..];
    }
  }

  function Differ(s: seq<bool>, t: seq<bool>): (d: seq<bool>)
    requires |s| == |t|
    ensures |d| == |s|
  {
    if s == [] then [] else [s[0] != t[0]] + Differ(s[1..], t[1..])
  }

  lemma {:induction false} DifferNowhere(s: seq<bool>, t: seq<bool>)
    requires |s| == |t|
    requires forall i :: 0 <= i < |s| ==> !Differ(s, t)[i]
    ensures s == t
  {
    if s != [] {
      assert forall i :: 0 <= i < |s| - 1 ==> Differ(s[1..], t[1..])[i] == Differ(s, t)[i + 1];
      DifferNowhere(s[1..], t[1..]);
      assert s == [s[0]] + s[1..] && t == [t[0]] + t[1..];
      assert !Differ(s, t)[0];
    }
  }

  lemma {:induction false} Meeting(c1: bv16, c2: bv16, s: seq<bool>, t: seq<bool>)
    requires |s| == |t| <= 16
    requires FeedAll(c1, s) == FeedAll(c2, t)
    ensures Xor(c1, c2) == Cancelled(Differ(s, t))
    decreases |s|
  {
    hide Feed, Xor, Unfeed, LowBit;
    if s == [] {
      XorZero(c1, c2);
    } else {
      var d := Differ(s, t);
      assert d[0] == (s[0] != t[0]) && d[1..] == Differ(s[1..], t[1..]);
      Meeting(Feed(c1, s[0]), Feed(c2, t[0]), s[1..], t[1..]);
      FeedLinear(c1, s[0], c2, t[0]);
      CancelledMask(d[1..]);
      FeedBack(Xor(c1, c2), d[0]);
    }
  }

  /** Two bit streams that differ only inside a window of sixteen bits never share a remainder. */
  lemma BurstChangesRemainder(c: bv16, p: seq<bool>, s: seq<bool>, t: seq<bool>, q: seq<bool>)
    requires |s| == |t| <= 16 && s != t
    ensures FeedAll(c, p + s + q) != FeedAll(c, p + t + q)
  {
    hide FeedAll, Cancelled, Differ, Xor;
    var m := FeedAll(c, p);
    FeedAllConcat(c, p + s, q);
    FeedAllConcat(c, p + t, q);
    FeedAllConcat(c, p, s);
    FeedAllConcat(c, p, t);
    if FeedAll(c, p + s + q) == FeedAll(c, p + t + q) {
      FeedAllInjective(FeedAll(m, s), FeedAll(m, t), q);
      Meeting(m, m, s, t);
      XorZero(m, m);
      CancelledZero(Differ(s, t));
      DifferNowhere(s, t);
      assert false;
    }
  }

  lemma {:induction false} ShiftNInjective(x: bv16, y: bv16, n: nat)
    requires ShiftN(x, n) == ShiftN(y, n)
    ensures x == y
    decreases n
  {
    hide Shift, Xor;
    if n > 0 {
      ShiftNInjective(Shift(x), Shift(y), n - 1);
      ShiftXor(x, y);
      XorZero(Shift(x), Shift(y));
      ShiftZero(Xor(x, y));
      XorZero(x, y);
    }
  }

  lemma BitsInjective(a: byte, b: byte)
    requires Bits(a) == Bits(b)
    ensures a == b
  {
    hide FeedAll, Bits, ShiftN, Xor, High;
    FeedByte(0, a);
    FeedByte(0, b);
    ShiftNInjective(Xor(0, High(a)), Xor(0, High(b)), 8);
    XorZero(High(a), High(b));
    XorZero(High(b), High(a));
    HighInjective(a, b);
  }

  lemma {:induction false} BitsOfInjective(s: seq<byte>, t: seq<byte>)
    requires BitsOf(s) == BitsOf(t)
    ensures s == t
  {
    hide Bits;
    if s == [] || t == [] {
      assert |s| == |t| == 0;
    } else {
      assert BitsOf(s)[..8] == Bits(s[0]) && BitsOf(s)[8..] == BitsOf(s[1..]);
      assert BitsOf(t)[..8] == Bits(t[0]) && BitsOf(t)[8..] == BitsOf(t[1..]);
      BitsInjective(s[0], t[0]);
      BitsOfInjective(s[1..], t[1..]);
      assert s == [s[0]] + s[1..] && t == [t[0]] + t[1..];
    }
  }

  /** `t` is `s` damaged inside one window of at most sixteen consecutive bits. */
  ghost predicate Burst(s: seq<byte>, t: seq<byte>) {
    && s != t
    && exists p: seq<bool>, x: seq<bool>, y: seq<bool>, q: seq<bool> ::
         BurstAt(BitsOf(s), BitsOf(t), p, x, y, q)
  }

  ghost predicate BurstAt(s: seq<bool>, t: seq<bool>, p: seq<bool>, x: seq<bool>, y: seq<bool>, q: seq<bool>) {
    |x| == |y| <= 16 && s == p + x + q && t == p + y + q
  }

  lemma BurstChangesChecksum(s: seq<byte>, t: seq<byte>)
    requires Burst(s, t)
    ensures Checksum(s) != Checksum(t)
  {
    hide FeedAll, BitsOf;
    var p, x, y, q :| BurstAt(BitsOf(s), BitsOf(t), p, x, y, q);
    if x == y {
      BitsOfInjective(s, t);
      assert false;
    }
    BurstChangesRemainder(INIT, p, x, y, q);
  }

  /** Replacing one byte, or two adjacent bytes, is a burst. */
  lemma BytesBurst(p: seq<byte>, x: seq<byte>, y: seq<byte>, q: seq<byte>)
    requires |x| == |y| <= 2 && x != y
    ensures Burst(p + x + q, p + y + q)
  {
    hide Bits, BitsOf;
    BitsOfConcat(p + x, q);
    BitsOfConcat(p, x);
    BitsOfConcat(p + y, q);
    BitsOfConcat(p, y);
    assert BurstAt(BitsOf(p + x + q), BitsOf(p + y + q), BitsOf(p), BitsOf(x), BitsOf(y), BitsOf(q));
    assert (p + x + q)[|p|..|p| + |x|] == x && (p + y + q)[|p|..|p| + |y|] == y;
  }

  function PutCrc(c: bv16): (s: seq<byte>)
    ensures |s| == 2
  {
    [HighByte(c), LowByte(c)]
  }

  lemma FeedJoin(c: bv16, hi: byte, lo: byte)
    ensures FeedAll(FeedAll(c, Bits(hi)), Bits(lo)) == ShiftN(Xor(c, Join(hi, lo)), 16)
  {
    hide FeedAll, Bits, ShiftN, Xor, High, Join, LowHalf, Shl8, Clear, ShlN;
    var w := Join(hi, lo);
    var l := LowHalf(w);
    FeedByte(c, hi);
    FeedByte(FeedAll(c, Bits(hi)), lo);
    JoinHighLow(hi, lo);
    // ShiftN(c ^ w, 16) == ShiftN(ShiftN(c ^ High(hi), 8) ^ ShiftN(l, 8), 8)
    ShiftNSplit(Xor(c, w), 8, 8);
    XorAssoc(c, High(hi), l);
    ShiftNXor(Xor(c, High(hi)), l, 8);
    LowHalfClear(w);
    ClearShifts(l, 8);
    ShlN8(l);
    LowHalfTopFree(w);
  }

  lemma {:induction false} ShiftNSplit(w: bv16, m: nat, n: nat)
    ensures ShiftN(w, m + n) == ShiftN(ShiftN(w, m), n)
    decreases m
  {
    hide Shift;
    if m > 0 {
      ShiftNSplit(Shift(w), m - 1, n);
    }
  }

  lemma {:induction false} ShiftNOfZero(n: nat)
    ensures ShiftN(0, n) == 0
  {
    hide Shift;
    ShiftZero(0);
    if n > 0 {
      ShiftNOfZero(n - 1);
    }
  }

  /** A body followed by its stored checksum leaves remainder zero, and nothing else does. */
  lemma ResidueZero(body: seq<byte>, hi: byte, lo: byte)
    ensures Checksum(body + [hi, lo]) == 0 <==> Join(hi, lo) == Checksum(body)
  {
    hide FeedAll, Bits, BitsOf, Xor, Join, ShiftN;
    assert body + [hi, lo] == body + [hi] + [lo];
    ChecksumSnoc(body, hi);
    ChecksumSnoc(body + [hi], lo);
    var c := Checksum(body);
    FeedJoin(c, hi, lo);
    ShiftNOfZero(16);
    XorZero(c, Join(hi, lo));
    if ShiftN(Xor(c, Join(hi, lo)), 16) == 0 {
      ShiftNInjective(Xor(c, Join(hi, lo)), 0, 16);
    }
  }
}
