/**
 The 16-bit register of the CRC and the facts about single word operations that
 the checksum proofs need. Each is a closed bit-vector fact, kept apart from the
 inductive proofs that use it.
 */
module Words {
  import opened Bytes

  function Xor(x: bv16, y: bv16): bv16 { x ^ y }

  function Shl(x: bv16): bv16 { x << 1 }

  function Shl8(x: bv16): bv16 { x << 8 }

  function Top(x: bv16): bool { x & 0x8000 != 0 }

  function LowBit(x: bv16): bool { x & 1 != 0 }

  /** One shift of the division register. */
  function Shift(c: bv16): bv16 {
    if Top(c) then Xor(Shl(c), 0x1021) else Shl(c)
  }

  /** One message bit enters at the top of the register. */
  function Feed(c: bv16, bit: bool): bv16 {
    Shift(if bit then Xor(c, 0x8000) else c)
  }

  /** Undoes Feed on registers whose low bit is clear. */
  function Unfeed(w: bv16, bit: bool): bv16 {
    if bit then (w >> 1) | 0x8000 else w >> 1
  }

  function HighByte(w: bv16): byte { (w >> 8) as bv8 }

  function LowByte(w: bv16): byte { (w & 0xFF) as bv8 }

  function LowHalf(w: bv16): bv16 { w & 0xFF }

  /** A byte as the high half of a word. */
  function High(b: byte): bv16 { (b as bv16) << 8 }

  function Join(hi: byte, lo: byte): bv16 { ((hi as bv16) << 8) | (lo as bv16) }

  /** The table index of the loop in crc16. */
  function Index(c: bv16, b: byte): byte { HighByte(c) ^ b }

  /** What a shift folds back in. */
  function Fold(carry: bool): bv16 { if carry then 0x1021 else 0 }

  lemma ShiftFolds(c: bv16)
    ensures Shift(c) == Xor(Shl(c), Fold(Top(c)))
  {
  }

  lemma TopXor(x: bv16, y: bv16)
    ensures Top(Xor(x, y)) <==> Top(x) != Top(y)
  {
  }

  lemma ShlXor(x: bv16, y: bv16)
    ensures Shl(Xor(x, y)) == Xor(Shl(x), Shl(y))
  {
  }

  lemma XorCommutes(a: bv16, b: bv16)
    ensures Xor(a, b) == Xor(b, a)
  {
  }

  lemma XorAssoc(a: bv16, b: bv16, c: bv16)
    ensures Xor(Xor(a, b), c) == Xor(a, Xor(b, c))
  {
  }

  lemma XorSwap(a: bv16, b: bv16, c: bv16)
    ensures Xor(a, Xor(b, c)) == Xor(Xor(a, c), b) == Xor(Xor(a, b), c)
  {
    hide Xor;
    XorAssoc(a, b, c);
    XorAssoc(a, c, b);
    XorCommutes(b, c);
  }

  lemma XorExchange(a: bv16, b: bv16, c: bv16, d: bv16)
    ensures Xor(Xor(a, b), Xor(c, d)) == Xor(Xor(a, c), Xor(b, d))
  {
    hide Xor;
    XorSwap(Xor(a, b), c, d);
    XorSwap(a, b, c);
    XorSwap(Xor(a, c), b, d);
  }

  lemma ShiftXor(x: bv16, y: bv16)
    ensures Shift(Xor(x, y)) == Xor(Shift(x), Shift(y))
  {
    ShiftFolds(x);
    ShiftFolds(y);
    ShiftFolds(Xor(x, y));
    TopXor(x, y);
    ShlXor(x, y);
    FoldXor(Top(x), Top(y));
    hide Xor, Shift, Shl, Top, Fold;
    XorExchange(Shl(x), Shl(y), Fold(Top(x)), Fold(Top(y)));
  }

  lemma FoldXor(a: bool, b: bool)
    ensures Fold(a != b) == Xor(Fold(a), Fold(b))
  {
  }

  lemma FeedXor(c: bv16, w: bv16)
    ensures Feed(c, Top(w)) == Xor(Shift(c), Fold(Top(w)))
  {
    hide Xor, Shift, Shl, Top, Fold;
    if Top(w) {
      ShiftXor(c, 0x8000);
      ShiftOfTop();
    } else {
      XorZero(Shift(c), 0);
      FoldFalse();
    }
  }

  lemma ShiftOfTop()
    ensures Shift(0x8000) == Fold(true)
  {
  }

  lemma FoldFalse()
    ensures Fold(false) == 0
  {
  }

  lemma FeedTop(c: bv16, w: bv16)
    ensures Shift(Xor(c, w)) == Xor(Feed(c, Top(w)), Shl(w))
  {
    hide Xor, Shift, Shl, Top, Fold, Feed;
    ShiftXor(c, w);
    ShiftFolds(w);
    FeedXor(c, w);
    XorSwap(Shift(c), Shl(w), Fold(Top(w)));
  }

  lemma ShlTimes8(w: bv16)
    ensures Shl(Shl(Shl(Shl(Shl(Shl(Shl(Shl(w)))))))) == Shl8(w)
  {
  }

  lemma XorZero(x: bv16, y: bv16)
    ensures Xor(x, 0) == x && Xor(0, x) == x && Xor(x, x) == 0
    ensures Xor(x, y) == 0 ==> x == y
  {
  }

  lemma HighShl8(b: byte)
    ensures Shl8(High(b)) == 0
  {
  }

  lemma LowHalfTopFree(c: bv16)
    ensures Shl8(LowHalf(c)) == Shl8(c)
  {
  }

  lemma HighXor(a: byte, b: byte)
    ensures High(a ^ b) == Xor(High(a), High(b))
  {
  }

  lemma Halves(c: bv16)
    ensures c == Xor(High(HighByte(c)), LowHalf(c))
  {
  }

  lemma IndexWord(c: bv16, b: byte)
    ensures Xor(c, High(b)) == Xor(High(Index(c, b)), LowHalf(c))
  {
    hide Xor, High, HighByte, LowHalf;
    Halves(c);
    HighXor(HighByte(c), b);
    XorSwap(High(HighByte(c)), LowHalf(c), High(b));
  }

  lemma JoinSplit(w: bv16)
    ensures Join(HighByte(w), LowByte(w)) == w
  {
  }

  lemma SplitJoin(hi: byte, lo: byte)
    ensures HighByte(Join(hi, lo)) == hi && LowByte(Join(hi, lo)) == lo
  {
  }

  lemma HighInjective(a: byte, b: byte)
    requires High(a) == High(b)
    ensures a == b
  {
  }

  lemma ShiftToEven(c: bv16)
    requires !LowBit(Shift(c))
    ensures !Top(c)
  {
  }

  lemma UnfeedClear(c: bv16)
    requires !Top(c)
    ensures Unfeed(Shl(c), false) == c
  {
  }

  lemma UnfeedSet(c: bv16)
    requires !Top(Xor(c, 0x8000))
    ensures Unfeed(Shl(Xor(c, 0x8000)), true) == c
  {
  }

  lemma FeedLinear(c1: bv16, b1: bool, c2: bv16, b2: bool)
    ensures Xor(Feed(c1, b1), Feed(c2, b2)) == Feed(Xor(c1, c2), b1 != b2)
  {
    hide Xor, Shift;
    var x1 := if b1 then Xor(c1, 0x8000) else c1;
    var x2 := if b2 then Xor(c2, 0x8000) else c2;
    ShiftXor(x1, x2);
    XorSwap(c1, c2, 0x8000);
    XorExchange(c1, 0x8000, c2, 0x8000);
    XorZero(0x8000, 0x8000);
    XorZero(Xor(c1, c2), 0);
  }

  lemma ShiftZero(c: bv16)
    ensures Shift(c) == 0 <==> c == 0
  {
  }

  /** The low 16 - n bits. */
  function Mask(n: nat): bv16
    requires n <= 16
  {
    match n
    case 0 => 0xFFFF case 1 => 0x7FFF case 2 => 0x3FFF case 3 => 0x1FFF
    case 4 => 0x0FFF case 5 => 0x07FF case 6 => 0x03FF case 7 => 0x01FF
    case 8 => 0x00FF case 9 => 0x007F case 10 => 0x003F case 11 => 0x001F
    case 12 => 0x000F case 13 => 0x0007 case 14 => 0x0003 case 15 => 0x0001
    case _ => 0
  }

  function And(x: bv16, y: bv16): bv16 { x & y }

  lemma MaskStep(n: nat)
    requires n < 16
    ensures LowBit(Mask(n)) && Mask(n + 1) == Mask(n) >> 1
  {
  }

  lemma UnfeedMask(w: bv16, bit: bool, m: bv16)
    requires And(w, m) == 0
    ensures And(Unfeed(w, bit), m >> 1) == 0
  {
  }

  lemma AndLowBit(w: bv16, m: bv16)
    requires And(w, m) == 0 && LowBit(m)
    ensures !LowBit(w)
  {
  }

  lemma UnfeedZero(w: bv16, bit: bool)
    requires Unfeed(w, bit) == 0 && !LowBit(w)
    ensures !bit && w == 0
  {
  }

  lemma LowHalfTops(c: bv16)
    ensures var w := LowHalf(c);
            && !Top(w) && !Top(Shl(w)) && !Top(Shl(Shl(w))) && !Top(Shl(Shl(Shl(w))))
            && !Top(Shl(Shl(Shl(Shl(w))))) && !Top(Shl(Shl(Shl(Shl(Shl(w))))))
            && !Top(Shl(Shl(Shl(Shl(Shl(Shl(w))))))) && !Top(Shl(Shl(Shl(Shl(Shl(Shl(Shl(w))))))))
  {
  }

  lemma JoinHighLow(hi: byte, lo: byte)
    ensures Shl8(Join(hi, lo)) == High(lo)
    ensures Join(hi, lo) == Xor(High(hi), LowHalf(Join(hi, lo)))
  {
  }
}
