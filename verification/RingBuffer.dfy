/** The in-memory log ring: a circular byte buffer, and the byte history it stands for. */
module RingBuffer {
  import opened Bytes

  /** The last `n` bytes of `s`, or all of it if there are fewer. */
  function Last(n: nat, s: seq<byte>): (r: seq<byte>)
    ensures |r| == if |s| < n then |s| else n
  {
    if |s| <= n then s else s[|s| - n..]
  }

  /** What a reader of the buffer can tell: its capacity, its bytes oldest first, and whether it has wrapped. */
  datatype View = View(cap: nat, bytes: seq<byte>, full: bool) {
    ghost predicate Valid() {
      if full then |bytes| == cap else |bytes| < cap || (cap == 0 && bytes == [])
    }

    /** A write that stops exactly at the end of a buffer that has not wrapped. */
    predicate FillsExactly(n: nat) {
      !full && n < cap && |bytes| + n == cap
    }

    /** Write. A write that fills exactly moves `pos` to 0 and leaves `full` unset. */
    function Write(p: seq<byte>): View {
      if FillsExactly(|p|) then View(cap, [], false)
      else View(cap, Last(cap, bytes + p), full || |p| >= cap || |bytes| + |p| > cap)
    }

    function Reset(): View {
      View(cap, [], false)
    }
  }

  /** The bytes of the buffer, oldest first. */
  function Unrolled(b: seq<byte>, pos: nat, full: bool): seq<byte>
    requires pos <= |b|
  {
    if full then b[pos..] + b[..pos] else b[..pos]
  }

  lemma UnrolledSize(b: seq<byte>, pos: nat, full: bool)
    requires pos <= |b|
    ensures |Unrolled(b, pos, full)| == if full then |b| else pos
  {
  }

  class RingBuffer {
    const buf: array<byte>
    var pos: nat
    var full: bool

    ghost predicate Valid()
      reads this
    {
      if buf.Length == 0 then pos == 0 else pos < buf.Length
    }

    ghost function Value(): (v: View)
      reads this, buf
      requires Valid()
      ensures v.Valid()
    {
      View(buf.Length, Unrolled(buf[..], pos, full), full)
    }

    constructor (size: nat)
      ensures Valid() && fresh(buf)
      ensures Value() == View(size, [], false)
    {
      buf := new byte[size];
      pos := 0;
      full := false;
    }

    /** Go's copy into the buffer at offset `at`. */
    method Copy(at: nat, p: seq<byte>)
      requires at + |p| <= buf.Length
      modifies buf
      ensures buf[..] == Spliced(old(buf[..]), at, p)
    {
      forall i | 0 <= i < |p| {
        buf[at + i] := p[i];
      }
    }

    /** The two copies of a write that runs past the end of the array. */
    method CopyAround(p: seq<byte>)
      requires pos < buf.Length < pos + |p| && |p| < buf.Length
      modifies buf
      ensures var first := buf.Length - pos;
              buf[..] == p[first..] + old(buf[|p| - first..pos]) + p[..first]
    {
      hide Spliced;
      ghost var before := buf[..];
      var first := buf.Length - pos;
      SplicedAround(before, pos, p);
      Copy(pos, p[..first]);
      Copy(0, p[first..]);
    }

    method Write(p: seq<byte>) returns (n: nat)
      requires Valid()
      modifies this, buf
      ensures Valid()
      ensures n == |p| && Value() == old(Value()).Write(p)
    {
      hide Last, Unrolled;
      n := |p|;
      var cap := buf.Length;
      ghost var before := buf[..];
      if n >= cap {
        Replaced(before, pos, p, full);
        Copy(0, p[n - cap..]);
        assert buf[..] == p[n - cap..];
        pos := 0;
        full := true;
        return;
      }
      var end := pos + n;
      ModWithin(end, cap);
      if end <= cap {
        InPlace(before, pos, p, full, end % cap);
        Copy(pos, p);
        assert buf[..] == before[..pos] + p + before[end..];
      } else {
        Wrapped(before, pos, p, full, end % cap);
        CopyAround(p);
        full := true;
      }
      UnrolledSize(before, pos, old(full));
      pos := end % cap;
    }

    /** Snapshot: hands out the bytes and empties the buffer. */
    method Snapshot() returns (out: seq<byte>)
      requires Valid()
      modifies this
      ensures Valid()
      ensures out == old(Value()).bytes && Value() == old(Value()).Reset()
    {
      if !full {
        out := buf[..pos];
      } else {
        out := buf[pos..] + buf[..pos];
      }
      pos := 0;
      full := false;
    }
  }

  /** `b` with `p` copied over it at offset `at`. */
  function Spliced(b: seq<byte>, at: nat, p: seq<byte>): (r: seq<byte>)
    requires at + |p| <= |b|
    ensures |r| == |b|
  {
    b[..at] + p + b[at + |p|..]
  }

  lemma SplicedAround(b: seq<byte>, pos: nat, p: seq<byte>)
    requires pos < |b| < pos + |p| && |p| < |b|
    ensures var first := |b| - pos;
            Spliced(Spliced(b, pos, p[..first]), 0, p[first..]) == p[first..] + b[|p| - first..pos] + p[..first]
  {
    var first := |b| - pos;
    var mid := Spliced(b, pos, p[..first]);
    AroundMiddle(b, pos, p[..first], |p| - first);
    NothingBefore(mid, p[first..]);
    Regroup(p[first..], b[|p| - first..pos], p[..first]);
  }

  lemma Regroup(x: seq<byte>, y: seq<byte>, z: seq<byte>)
    ensures x + (y + z) == x + y + z
  {
  }

  /** The array between the two copies, from offset `k` on. */
  lemma AroundMiddle(b: seq<byte>, pos: nat, x: seq<byte>, k: nat)
    requires pos + |x| == |b| && k <= pos
    ensures Spliced(b, pos, x)[k..] == b[k..pos] + x
  {
    assert b[..pos] + x + b[pos + |x|..] == b[..pos] + x;
    assert (b[..pos] + x)[k..] == b[..pos][k..] + x;
  }

  lemma NothingBefore(b: seq<byte>, x: seq<byte>)
    ensures b[..0] + x == x
  {
  }

  lemma ModWithin(end: nat, cap: nat)
    requires 0 < cap && end < 2 * cap
    ensures end % cap == if end < cap then end else end - cap
  {
  }

  lemma LastSuffix(n: nat, x: seq<byte>, y: seq<byte>)
    requires |y| == n
    ensures Last(n, x + y) == y
  {
  }

  /** A write of at least the capacity. */
  lemma Replaced(b: seq<byte>, pos: nat, p: seq<byte>, full: bool)
    requires pos <= |b| <= |p|
    ensures Unrolled(p[|p| - |b|..], 0, true) == Last(|b|, Unrolled(b, pos, full) + p)
  {
    var u, y := Unrolled(b, pos, full), p[|p| - |b|..];
    assert u + p == (u + p[..|p| - |b|]) + y;
    LastSuffix(|b|, u + p[..|p| - |b|], y);
  }

  /** A write that ends before the end of the array, or exactly there. */
  lemma InPlace(b: seq<byte>, pos: nat, p: seq<byte>, full: bool, next: nat)
    requires pos < |b| && pos + |p| <= |b|
    requires next == if pos + |p| < |b| then pos + |p| else 0
    ensures Unrolled(b[..pos] + p + b[pos + |p|..], next, full) ==
            if !full && pos + |p| == |b| then [] else Last(|b|, Unrolled(b, pos, full) + p)
  {
    var end := pos + |p|;
    var after := b[..pos] + p + b[end..];
    assert after[..end] == b[..pos] + p && after[end..] == b[end..];
    if full {
      var y := b[end..] + (b[..pos] + p);
      assert b[pos..] + b[..pos] + p == b[pos..end] + y;
      LastSuffix(|b|, b[pos..end], y);
    }
  }

  /** A write that runs past the end of the array and continues at its start. */
  lemma Wrapped(b: seq<byte>, pos: nat, p: seq<byte>, full: bool, next: nat)
    requires pos < |b| && |p| < |b| && next == pos + |p| - |b| && next > 0
    ensures Unrolled(p[|b| - pos..] + b[next..pos] + p[..|b| - pos], next, true)
            == Last(|b|, Unrolled(b, pos, full) + p)
  {
    var first := |b| - pos;
    var x := if full then b[pos..] else [];
    Rejoined(p, first);
    Rotated(p[first..], b[next..pos], p[..first]);
    UnrolledAs(b, pos, full, next);
    Regrouped(x, b[..next], b[next..pos], p);
    LastSuffix(|b|, x + b[..next], b[next..pos] + p);
  }

  lemma Rejoined(p: seq<byte>, n: nat)
    requires n <= |p|
    ensures p[..n] + p[n..] == p
  {
  }

  lemma UnrolledAs(b: seq<byte>, pos: nat, full: bool, k: nat)
    requires k <= pos <= |b|
    ensures Unrolled(b, pos, full) == (if full then b[pos..] else []) + (b[..k] + b[k..pos])
  {
    assert b[..pos] == b[..k] + b[k..pos];
    assert [] + b[..pos] == b[..pos];
  }

  lemma Rotated(x: seq<byte>, y: seq<byte>, z: seq<byte>)
    ensures (x + y + z)[|x|..] + (x + y + z)[..|x|] == y + (z + x)
  {
    assert (x + y + z)[..|x|] == x && (x + y + z)[|x|..] == y + z;
  }

  lemma Regrouped(w: seq<byte>, x: seq<byte>, y: seq<byte>, z: seq<byte>)
    ensures w + (x + y) + z == (w + x) + (y + z)
  {
  }

  // ---- Whole runs -------------------------------------------------------------------

  datatype Op = Write(p: seq<byte>) | Snapshot

  function After(cap: nat, ops: seq<Op>): View {
    if ops == [] then View(cap, [], false)
    else
      var v := After(cap, ops[..|ops| - 1]);
      match ops[|ops| - 1]
      case Write(p) => v.Write(p)
      case Snapshot => v.Reset()
  }

  /** All bytes written since the last snapshot. */
  function Written(ops: seq<Op>): seq<byte> {
    if ops == [] then []
    else match ops[|ops| - 1]
      case Write(p) => Written(ops[..|ops| - 1]) + p
      case Snapshot => []
  }

  /** The bytes written since the last snapshot or exact fill, told from the write sizes alone. */
  function Since(cap: nat, ops: seq<Op>): seq<byte> {
    if ops == [] then []
    else
      var s := Since(cap, ops[..|ops| - 1]);
      match ops[|ops| - 1]
      case Snapshot => []
      case Write(p) => if |s| < cap && |p| < cap && |s| + |p| == cap then [] else s + p
  }

  lemma LastOfLast(n: nat, s: seq<byte>, p: seq<byte>)
    ensures Last(n, Last(n, s) + p) == Last(n, s + p)
  {
  }

  /** The buffer holds the last `cap` bytes since its last reset point, in every run. */
  lemma {:induction false} HoldsLast(cap: nat, ops: seq<Op>)
    ensures After(cap, ops).Valid()
    ensures After(cap, ops).cap == cap && After(cap, ops).bytes == Last(cap, Since(cap, ops))
    ensures cap > 0 ==> (After(cap, ops).full <==> |Since(cap, ops)| >= cap)
  {
    if ops != [] {
      var before := ops[..|ops| - 1];
      HoldsLast(cap, before);
      if ops[|ops| - 1].Write? {
        LastOfLast(cap, Since(cap, before), ops[|ops| - 1].p);
      }
    }
  }

  lemma {:induction false} SinceIsSuffix(cap: nat, ops: seq<Op>)
    ensures |Since(cap, ops)| <= |Written(ops)|
    ensures Since(cap, ops) == Written(ops)[|Written(ops)| - |Since(cap, ops)|..]
    ensures Since(cap, ops) != Written(ops) ==> |Written(ops)| >= cap
  {
    if ops != [] {
      SinceIsSuffix(cap, ops[..|ops| - 1]);
    }
  }

  /**
   The documented behaviour, "the last cap bytes written since the last snapshot",
   holds exactly when no write since then filled the buffer exactly, or at least
   `cap` bytes were written after the latest such write.
   */
  lemma PlainRingExactly(cap: nat, ops: seq<Op>)
    ensures After(cap, ops).bytes == Last(cap, Written(ops))
            <==> Since(cap, ops) == Written(ops) || |Since(cap, ops)| >= cap
  {
    HoldsLast(cap, ops);
    SinceIsSuffix(cap, ops);
  }

  /** Two one-byte writes into a two-byte ring leave nothing to snapshot. */
  lemma ExactFillLosesAll(a: byte, b: byte)
    ensures After(2, [Write([a]), Write([b])]).bytes == []
    ensures Last(2, Written([Write([a]), Write([b])])) == [a, b]
  {
    var ops := [Write([a]), Write([b])];
    assert ops[..1] == [Write([a])] && ops[..1][..0] == [];
    assert After(2, ops[..1]) == View(2, [a], false);
    assert Written(ops[..1]) == [a];
  }
}
