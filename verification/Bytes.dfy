/** Bytes, their numeric values, and big-endian 16-bit fields. */
module Bytes {
  type byte = bv8

  function HighDigit(b: byte): bv4 { (b >> 4) as bv4 }

  function LowDigit(b: byte): bv4 { (b & 15) as bv4 }

  function FromDigits(h: bv4, l: bv4): (b: byte)
    ensures HighDigit(b) == h && LowDigit(b) == l
  {
    (h as bv8 << 4) | (l as bv8)
  }

  /** The value of one hexadecimal digit. */
  function DigitVal(d: bv4): (v: int)
    ensures 0 <= v < 16
  {
    (if d & 8 != 0 then 8 else 0) + (if d & 4 != 0 then 4 else 0)
    + (if d & 2 != 0 then 2 else 0) + (if d & 1 != 0 then 1 else 0)
  }

  function ToDigit(v: int): (d: bv4)
    requires 0 <= v < 16
    ensures DigitVal(d) == v
  {
    match v
    case 0 => 0 case 1 => 1 case 2 => 2 case 3 => 3
    case 4 => 4 case 5 => 5 case 6 => 6 case 7 => 7
    case 8 => 8 case 9 => 9 case 10 => 10 case 11 => 11
    case 12 => 12 case 13 => 13 case 14 => 14 case _ => 15
  }

  /** The number a byte denotes. */
  function Val(b: byte): (v: int)
    ensures 0 <= v < 256
  {
    16 * DigitVal(HighDigit(b)) + DigitVal(LowDigit(b))
  }

  /** The byte that denotes a number. */
  function ToByte(v: int): (b: byte)
    requires 0 <= v < 256
    ensures Val(b) == v
  {
    hide DigitVal, ToDigit, HighDigit, LowDigit, FromDigits;
    FromDigits(ToDigit(v / 16), ToDigit(v % 16))
  }

  lemma DigitValInjective(a: bv4, b: bv4)
    requires DigitVal(a) == DigitVal(b)
    ensures a == b
  {
  }

  lemma DigitsInjective(a: byte, b: byte)
    requires HighDigit(a) == HighDigit(b) && LowDigit(a) == LowDigit(b)
    ensures a == b
  {
  }

  lemma ValInjective(a: byte, b: byte)
    requires Val(a) == Val(b)
    ensures a == b
  {
    hide DigitVal, HighDigit, LowDigit;
    DigitValInjective(HighDigit(a), HighDigit(b));
    DigitValInjective(LowDigit(a), LowDigit(b));
    DigitsInjective(a, b);
  }

  /** Val counts up from zero, so it is the unsigned value of the byte. */
  lemma ValCounts(b: byte)
    ensures Val(0) == 0
    ensures b != 0xFF ==> Val(b + 1) == Val(b) + 1
  {
  }

  /** A big-endian 16-bit field as a number. */
  function Uint16(hi: byte, lo: byte): (v: int)
    ensures 0 <= v < 0x1_0000
  {
    hide Val;
    Val(hi) * 256 + Val(lo)
  }

  function PutUint16(v: int): (s: seq<byte>)
    requires 0 <= v < 0x1_0000
    ensures |s| == 2 && Uint16(s[0], s[1]) == v
  {
    hide Val, ToByte;
    [ToByte(v / 256), ToByte(v % 256)]
  }

  lemma PutUint16Back(hi: byte, lo: byte)
    ensures PutUint16(Uint16(hi, lo)) == [hi, lo]
  {
    hide Val, ToByte;
    var v := Uint16(hi, lo);
    assert v / 256 == Val(hi) && v % 256 == Val(lo);
    ValInjective(ToByte(v / 256), hi);
    ValInjective(ToByte(v % 256), lo);
  }
}
