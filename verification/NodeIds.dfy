/** Kademlia node identifiers: XOR distance, bucket numbers and the two distance orders. */
module NodeIds {
  import opened Bytes

  const ID_BYTES := 32
  const ID_BITS := 256

  type ID = s: seq<byte> | |s| == ID_BYTES witness seq(ID_BYTES, i => 0)

  function XorByte(x: byte, y: byte): byte { x ^ y }

  function Xor(a: ID, b: ID): ID {
    seq(ID_BYTES, i requires 0 <= i < ID_BYTES => XorByte(a[i], b[i]))
  }

  /** bits.LeadingZeros8 of a nonzero byte. */
  function LeadingZeros8(x: byte): (n: nat)
    ensures n < 8
  {
    if x & 0x80 != 0 then 0 else if x & 0x40 != 0 then 1
    else if x & 0x20 != 0 then 2 else if x & 0x10 != 0 then 3
    else if x & 0x08 != 0 then 4 else if x & 0x04 != 0 then 5
    else if x & 0x02 != 0 then 6 else 7
  }

  function BucketFrom(d: ID, i: nat): (n: nat)
    requires i <= ID_BYTES
    ensures n < ID_BITS
    decreases ID_BYTES - i
  {
    if i == ID_BYTES then ID_BITS - 1
    else if d[i] != 0 then i * 8 + LeadingZeros8(d[i])
    else BucketFrom(d, i + 1)
  }

  function BucketIndex(d: ID): (n: nat)
    ensures n < ID_BITS
  {
    BucketFrom(d, 0)
  }

  /** The loop of Closer: the first differing byte decides. */
  predicate LexLess(s: seq<byte>, t: seq<byte>)
    requires |s| == |t|
  {
    if s == [] then false
    else if s[0] != t[0] then Val(s[0]) < Val(t[0])
    else LexLess(s[1..], t[1..])
  }

  /** `a` is XOR-closer to `target` than `b`. */
  predicate Closer(a: ID, b: ID, target: ID) {
    LexLess(Xor(a, target), Xor(b, target))
  }

  // ---- Bytes ------------------------------------------------------------------------

  lemma XorByteFacts(x: byte, y: byte, z: byte)
    ensures XorByte(x, y) == XorByte(y, x)
    ensures XorByte(x, y) == 0 <==> x == y
    ensures XorByte(x, z) == XorByte(y, z) ==> x == y
  {
  }

  /** Bit `j` of a byte, most significant first. */
  function Bit8(x: byte, j: nat): bool
    requires j < 8
  {
    match j
    case 0 => x & 0x80 != 0 case 1 => x & 0x40 != 0 case 2 => x & 0x20 != 0 case 3 => x & 0x10 != 0
    case 4 => x & 0x08 != 0 case 5 => x & 0x04 != 0 case 6 => x & 0x02 != 0 case _ => x & 0x01 != 0
  }

  lemma Bit8Xor(x: byte, y: byte, j: nat)
    requires j < 8
    ensures Bit8(XorByte(x, y), j) <==> Bit8(x, j) != Bit8(y, j)
  {
    hide XorByte;
    BitsXor(x, y);
    match j {
      case 0 => case 1 => case 2 => case 3 => case 4 => case 5 => case 6 => case _ =>
    }
  }

  lemma BitsXor(x: byte, y: byte)
    ensures XorByte(x, y) & 0x80 != 0 <==> (x & 0x80 != 0) != (y & 0x80 != 0)
    ensures XorByte(x, y) & 0x40 != 0 <==> (x & 0x40 != 0) != (y & 0x40 != 0)
    ensures XorByte(x, y) & 0x20 != 0 <==> (x & 0x20 != 0) != (y & 0x20 != 0)
    ensures XorByte(x, y) & 0x10 != 0 <==> (x & 0x10 != 0) != (y & 0x10 != 0)
    ensures XorByte(x, y) & 0x08 != 0 <==> (x & 0x08 != 0) != (y & 0x08 != 0)
    ensures XorByte(x, y) & 0x04 != 0 <==> (x & 0x04 != 0) != (y & 0x04 != 0)
    ensures XorByte(x, y) & 0x02 != 0 <==> (x & 0x02 != 0) != (y & 0x02 != 0)
    ensures XorByte(x, y) & 0x01 != 0 <==> (x & 0x01 != 0) != (y & 0x01 != 0)
  {
  }

  lemma LeadingZeros8Bits(x: byte)
    requires x != 0
    ensures Bit8(x, LeadingZeros8(x))
    ensures forall j :: 0 <= j < LeadingZeros8(x) ==> !Bit8(x, j)
  {
  }

  lemma LeadingZeros8Order(x: byte, y: byte)
    requires x != 0 && y != 0 && LeadingZeros8(x) > LeadingZeros8(y)
    ensures Val(x) < Val(y)
  {
  }

  // ---- Bucket numbers -------------------------------------------------------------------

  /** Bit `k` of an identifier, most significant first. */
  function BitAt(a: ID, k: nat): bool
    requires k < ID_BITS
  {
    Bit8(a[k / 8], k % 8)
  }

  lemma {:induction false} SharedBitsFrom(a: ID, b: ID, i: nat)
    requires i <= ID_BYTES && a[i..] != b[i..]
    ensures var n := BucketFrom(Xor(a, b), i);
            && i * 8 <= n && BitAt(a, n) != BitAt(b, n)
            && forall k :: i * 8 <= k < n ==> BitAt(a, k) == BitAt(b, k)
    decreases ID_BYTES - i
  {
    hide XorByte, Bit8, LeadingZeros8;
    var d := Xor(a, b);
    var n := BucketFrom(d, i);
    XorByteFacts(a[i], b[i], b[i]);
    if d[i] == 0 {
      assert a[i..] == [a[i]] + a[i + 1..] && b[i..] == [b[i]] + b[i + 1..];
      SharedBitsFrom(a, b, i + 1);
    } else {
      LeadingZeros8Bits(d[i]);
      Bit8Xor(a[i], b[i], n % 8);
      forall k | i * 8 <= k < n
        ensures BitAt(a, k) == BitAt(b, k)
      {
        Bit8Xor(a[i], b[i], k % 8);
      }
    }
  }

  /** The bucket of a contact is the number of leading bits it shares with this node. */
  lemma BucketCountsSharedBits(self: ID, id: ID)
    requires self != id
    ensures var n := BucketIndex(Xor(self, id));
            && BitAt(self, n) != BitAt(id, n)
            && forall k :: 0 <= k < n ==> BitAt(self, k) == BitAt(id, k)
  {
    assert self[0..] == self && id[0..] == id;
    SharedBitsFrom(self, id, 0);
  }

  lemma {:induction false} HigherBucketLess(x: ID, y: ID, i: nat)
    requires i <= ID_BYTES && BucketFrom(x, i) > BucketFrom(y, i)
    ensures LexLess(x[i..], y[i..])
    decreases ID_BYTES - i
  {
    hide Val, LeadingZeros8;
    if y[i] == 0 {
      if x[i] == 0 {
        assert x[i..][1..] == x[i + 1..] && y[i..][1..] == y[i + 1..];
        HigherBucketLess(x, y, i + 1);
      } else {
        BucketFromGrows(y, i + 1);
        assert false;
      }
    } else if x[i] == 0 {
      ZeroLeast(y[i]);
    } else {
      LeadingZeros8Order(x[i], y[i]);
    }
  }

  lemma {:induction false} BucketFromGrows(d: ID, i: nat)
    requires i <= ID_BYTES
    ensures i < ID_BYTES ==> BucketFrom(d, i) >= i * 8
    ensures i == ID_BYTES ==> BucketFrom(d, i) == ID_BITS - 1
    decreases ID_BYTES - i
  {
    hide LeadingZeros8;
    if i < ID_BYTES {
      BucketFromGrows(d, i + 1);
    }
  }

  lemma ZeroLeast(x: byte)
    requires x != 0
    ensures Val(0) < Val(x)
  {
  }

  lemma XorCommutes(a: ID, b: ID)
    ensures Xor(a, b) == Xor(b, a)
  {
    hide XorByte;
    forall i | 0 <= i < ID_BYTES
      ensures XorByte(a[i], b[i]) == XorByte(b[i], a[i])
    {
      XorByteFacts(a[i], b[i], b[i]);
    }
  }

  /** A larger bucket number means closer to this node. */
  lemma HigherBucketCloser(self: ID, a: ID, b: ID)
    requires BucketIndex(Xor(self, a)) > BucketIndex(Xor(self, b))
    ensures Closer(a, b, self)
  {
    hide LexLess, BucketFrom, Xor;
    XorCommutes(self, a);
    XorCommutes(self, b);
    var x, y := Xor(a, self), Xor(b, self);
    HigherBucketLess(x, y, 0);
    assert x[0..] == x && y[0..] == y;
  }

  // ---- Closer is a strict total order --------------------------------------------------

  lemma {:induction false} LexLessTransitive(s: seq<byte>, t: seq<byte>, u: seq<byte>)
    requires |s| == |t| == |u| && LexLess(s, t) && LexLess(t, u)
    ensures LexLess(s, u)
  {
    hide Val;
    if s[0] == t[0] == u[0] {
      LexLessTransitive(s[1..], t[1..], u[1..]);
    }
  }

  lemma {:induction false} LexLessTotal(s: seq<byte>, t: seq<byte>)
    requires |s| == |t|
    ensures !(LexLess(s, t) && LexLess(t, s))
    ensures LexLess(s, t) || LexLess(t, s) <==> s != t
  {
    hide Val;
    if s != [] {
      if s[0] == t[0] {
        LexLessTotal(s[1..], t[1..]);
        assert s == [s[0]] + s[1..] && t == [t[0]] + t[1..];
      } else if Val(s[0]) == Val(t[0]) {
        ValInjective(s[0], t[0]);
        assert false;
      }
    }
  }

  lemma XorInjective(a: ID, b: ID, target: ID)
    requires Xor(a, target) == Xor(b, target)
    ensures a == b
  {
    hide XorByte;
    var x, y := Xor(a, target), Xor(b, target);
    forall i | 0 <= i < ID_BYTES
      ensures a[i] == b[i]
    {
      assert x[i] == XorByte(a[i], target[i]) && y[i] == XorByte(b[i], target[i]);
      XorByteFacts(a[i], b[i], target[i]);
    }
  }

  lemma CloserIsStrictTotalOrder(a: ID, b: ID, c: ID, target: ID)
    ensures !Closer(a, a, target)
    ensures !(Closer(a, b, target) && Closer(b, a, target))
    ensures a != b ==> Closer(a, b, target) || Closer(b, a, target)
    ensures Closer(a, b, target) && Closer(b, c, target) ==> Closer(a, c, target)
  {
    hide LexLess, Xor;
    LexLessTotal(Xor(a, target), Xor(b, target));
    LexLessTotal(Xor(a, target), Xor(a, target));
    if Xor(a, target) == Xor(b, target) {
      XorInjective(a, b, target);
    }
    if Closer(a, b, target) && Closer(b, c, target) {
      LexLessTransitive(Xor(a, target), Xor(b, target), Xor(c, target));
    }
  }

  // ---- The 64-bit distance used for sorting ---------------------------------------------

  /** A big-endian number. */
  function Number(s: seq<byte>): nat {
    if s == [] then 0 else 256 * Number(s[..|s| - 1]) + Val(s[|s| - 1])
  }

  /** binary.BigEndian.Uint64 of the first eight bytes of the distance. */
  function Distance64(a: ID, target: ID): nat {
    Number(Xor(a, target)[..8])
  }

  lemma {:induction false} LexLessConcat(s: seq<byte>, t: seq<byte>, u: seq<byte>, v: seq<byte>)
    requires |s| == |t| && |u| == |v|
    ensures LexLess(s + u, t + v) <==> LexLess(s, t) || (s == t && LexLess(u, v))
    decreases |s|
  {
    hide Val;
    if s == [] {
      assert s + u == u && t + v == v;
    } else {
      assert (s + u)[1..] == s[1..] + u && (t + v)[1..] == t[1..] + v;
      LexLessConcat(s[1..], t[1..], u, v);
      assert s == [s[0]] + s[1..] && t == [t[0]] + t[1..];
    }
  }

  /** Comparing numbers is comparing bytes from the left. */
  lemma {:induction false} NumberOrder(s: seq<byte>, t: seq<byte>)
    requires |s| == |t|
    ensures Number(s) < Number(t) <==> LexLess(s, t)
    ensures Number(s) == Number(t) <==> s == t
    decreases |s|
  {
    hide Val;
    if s != [] {
      var n := |s| - 1;
      NumberOrder(s[..n], t[..n]);
      assert s == s[..n] + [s[n]] && t == t[..n] + [t[n]];
      LexLessConcat(s[..n], t[..n], [s[n]], [t[n]]);
      LexLessByte(s[n], t[n]);
      if Val(s[n]) == Val(t[n]) {
        ValInjective(s[n], t[n]);
      }
    }
  }

  lemma LexLessByte(x: byte, y: byte)
    ensures LexLess([x], [y]) <==> Val(x) < Val(y)
  {
    hide Val;
  }

  /** Closer compares the distances as 256-bit numbers. */
  lemma CloserIsNumeric(a: ID, b: ID, target: ID)
    ensures Closer(a, b, target) <==> Number(Xor(a, target)) < Number(Xor(b, target))
  {
    hide LexLess, Xor, Number;
    NumberOrder(Xor(a, target), Xor(b, target));
  }

  /** Two identifiers tie in the 64-bit distance to a target exactly when their first eight bytes agree. */
  lemma TieExactly(a: ID, b: ID, target: ID)
    ensures Distance64(a, target) == Distance64(b, target) <==> a[..8] == b[..8]
  {
    hide Number, XorByte, LexLess;
    var x, y := Xor(a, target)[..8], Xor(b, target)[..8];
    NumberOrder(x, y);
    forall i | 0 <= i < 8
      ensures x[i] == y[i] <==> a[..8][i] == b[..8][i]
    {
      XorByteFacts(a[i], b[i], target[i]);
    }
    if a[..8] == b[..8] {
      assert forall i :: 0 <= i < 8 ==> x[i] == y[i];
    }
    if x == y {
      assert forall i :: 0 <= i < 8 ==> a[..8][i] == b[..8][i];
    }
  }

  /** A smaller 64-bit distance is a smaller distance. */
  lemma Distance64Closer(a: ID, b: ID, target: ID)
    requires Distance64(a, target) < Distance64(b, target)
    ensures Closer(a, b, target)
  {
    hide LexLess, Xor, Number;
    var x, y := Xor(a, target), Xor(b, target);
    NumberOrder(x[..8], y[..8]);
    assert x == x[..8] + x[8..] && y == y[..8] + y[8..];
    LexLessConcat(x[..8], y[..8], x[8..], y[8..]);
  }
}
