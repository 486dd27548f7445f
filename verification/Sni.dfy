/**
 The TLS ClientHello sniffer: the parser as the code writes it, what truncation can
 do to its answer, and its agreement with an encoder of well-formed hellos
 (sections 4.1.2, 4.2 and 5.1 of RFC 8446, section 3 of RFC 6066).
 */
module Sni {
  import opened Common
  import opened Bytes

  // ---- What the parser computes -------------------------------------------------

  /** The handshake bytes of the first record, as far as they arrived. */
  function Handshake(data: seq<byte>): Option<seq<byte>> {
    if |data| < 5 || Val(data[0]) != 0x16 then None
    else
      var end := 5 + Uint16(data[3], data[4]);
      Some(data[5..if end > |data| then |data| else end])
  }

  function Skip(b: seq<byte>, n: nat): (r: Option<seq<byte>>)
    ensures r.Some? ==> |r.value| <= |b|
  {
    if |b| < n then None else Some(b[n..])
  }

  /** Past a vector with a one-byte length. */
  function SkipVector8(b: seq<byte>): (r: Option<seq<byte>>)
    ensures r.Some? ==> |r.value| <= |b|
  {
    if |b| < 1 then None else Skip(b[1..], Val(b[0]))
  }

  /** Past a vector with a two-byte length. */
  function SkipVector16(b: seq<byte>): (r: Option<seq<byte>>)
    ensures r.Some? ==> |r.value| <= |b|
  {
    if |b| < 2 then None else Skip(b[2..], Uint16(b[0], b[1]))
  }

  function SkipHandshakeHeader(b: seq<byte>): (r: Option<seq<byte>>)
    ensures r.Some? ==> |r.value| <= |b|
  {
    if |b| < 4 || Val(b[0]) != 0x01 then None else Some(b[4..])
  }

  /** From the handshake header to the length field of the extensions. */
  function SkipHello(b: seq<byte>): (r: Option<seq<byte>>)
    ensures r.Some? ==> |r.value| <= |b|
  {
    var hello :- SkipHandshakeHeader(b);
    var sessionId :- Skip(hello, 34);     // client_version, random
    var cipherSuites :- SkipVector8(sessionId);
    var compression :- SkipVector16(cipherSuites);
    SkipVector8(compression)
  }

  function Extensions(b: seq<byte>): Option<seq<byte>> {
    var field :- SkipHello(b);
    if |field| < 2 then None
    else
      var extLen := Uint16(field[0], field[1]);
      Some(field[2..2 + if |field| - 2 < extLen then |field| - 2 else extLen])
  }

  datatype Names = Host(name: seq<byte>) | Malformed | NoHost

  function FindName(list: seq<byte>): Names
    decreases |list|
  {
    if |list| < 3 then NoHost
    else
      var n := Uint16(list[1], list[2]);
      if |list| - 3 < n then Malformed
      else if Val(list[0]) == 0 then Host(list[3..3 + n])
      else FindName(list[3 + n..])
  }

  function FindHost(ext: seq<byte>): seq<byte>
    decreases |ext|
  {
    if |ext| < 4 then []
    else
      var n := Uint16(ext[2], ext[3]);
      if |ext| - 4 < n then []
      else if Uint16(ext[0], ext[1]) != 0 then FindHost(ext[4 + n..])
      else if n < 2 then []
      else match FindName(ext[6..4 + n])
        case Host(name) => name
        case Malformed => []
        case NoHost => FindHost(ext[4 + n..])
  }

  /** The hostname extractSNI returns; the empty string means none. */
  function Hostname(data: seq<byte>): seq<byte> {
    match Handshake(data)
    case None => []
    case Some(b) =>
      match Extensions(b)
      case None => []
      case Some(ext) => FindHost(ext)
  }

  // ---- The code ---------------------------------------------------------------------

  /**
   extractSNI. Every index and slice below is in bounds, so the deferred recover is
   never needed.
   */
  method ExtractSNI(data: seq<byte>) returns (host: seq<byte>)
    ensures host == Hostname(data)
  {
    hide Val, Uint16, FindHost, Extensions;
    if |data| < 5 || Val(data[0]) != 0x16 {
      return [];
    }
    var recLen := Uint16(data[3], data[4]);
    var end := 5 + recLen;
    if end > |data| {
      end := |data|;
    }
    var extensions := SkipToExtensions(data[5..end]);
    if extensions.None? {
      return [];
    }
    host := ScanExtensions(extensions.value);
  }

  /** The straight-line part of extractSNI, from the handshake header to the extensions. */
  method SkipToExtensions(b: seq<byte>) returns (r: Option<seq<byte>>)
    ensures r == Extensions(b)
  {
    hide Val, Uint16, SkipVector8, SkipVector16;
    var body := b;
    if |body| < 4 || Val(body[0]) != 0x01 {
      return None;
    }
    body := body[4..];

    // client_version, random
    if |body| < 34 {
      return None;
    }
    body := body[34..];

    // session_id
    var rest := SkipByteVector(body);
    if rest.None? {
      return None;
    }
    body := rest.value;

    // cipher_suites
    rest := SkipWordVector(body);
    if rest.None? {
      return None;
    }
    body := rest.value;

    // compression_methods
    rest := SkipByteVector(body);
    if rest.None? {
      return None;
    }
    body := rest.value;
    ghost var field := body;

    // extensions
    if |body| < 2 {
      return None;
    }
    var extLen := Uint16(body[0], body[1]);
    body := body[2..];
    if |body| < extLen {
      extLen := |body|;
    }
    assert body[..extLen] == field[2..2 + extLen];
    return Some(body[..extLen]);
  }

  method SkipByteVector(b: seq<byte>) returns (r: Option<seq<byte>>)
    ensures r == SkipVector8(b)
  {
    hide Val;
    var body := b;
    if |body| < 1 {
      return None;
    }
    var n := Val(body[0]);
    body := body[1..];
    if |body| < n {
      return None;
    }
    return Some(body[n..]);
  }

  method SkipWordVector(b: seq<byte>) returns (r: Option<seq<byte>>)
    ensures r == SkipVector16(b)
  {
    hide Uint16;
    var body := b;
    if |body| < 2 {
      return None;
    }
    var n := Uint16(body[0], body[1]);
    body := body[2..];
    if |body| < n {
      return None;
    }
    return Some(body[n..]);
  }

  /** The outer loop of extractSNI, over the extensions. */
  method ScanExtensions(ext: seq<byte>) returns (host: seq<byte>)
    ensures host == FindHost(ext)
  {
    hide Val, Uint16, FindName;
    var extensions := ext;
    while |extensions| >= 4
      invariant FindHost(extensions) == FindHost(ext)
      decreases |extensions|
    {
      ghost var whole := extensions;
      var extType := Uint16(extensions[0], extensions[1]);
      var length := Uint16(extensions[2], extensions[3]);
      extensions := extensions[4..];
      if |extensions| < length {
        return [];
      }
      var payload := extensions[..length];
      extensions := extensions[length..];
      assert extensions == whole[4 + length..];
      if extType != 0x0000 {
        continue;
      }
      if |payload| < 2 {
        return [];
      }
      assert payload[2..] == whole[6..4 + length];
      var names := ScanNames(payload[2..]);
      match names {
        case Host(name) => return name;
        case Malformed => return [];
        case NoHost =>
      }
    }
    return [];
  }

  /** The inner loop, over the entries of a server_name_list. */
  method ScanNames(entries: seq<byte>) returns (r: Names)
    ensures r == FindName(entries)
  {
    hide Val, Uint16;
    var list := entries;
    while |list| >= 3
      invariant FindName(list) == FindName(entries)
      decreases |list|
    {
      ghost var whole := list;
      var nameType := Val(list[0]);
      var nameLen := Uint16(list[1], list[2]);
      list := list[3..];
      if |list| < nameLen {
        return Malformed;
      }
      assert list[..nameLen] == whole[3..3 + nameLen];
      if nameType == 0 {
        return Host(list[..nameLen]);
      }
      list := list[nameLen..];
      assert list == whole[3 + nameLen..];
    }
    return NoHost;
  }

  // ---- Truncation ---------------------------------------------------------------------

  lemma HandshakePrefix(p: seq<byte>, f: seq<byte>)
    requires p <= f && Handshake(p).Some?
    ensures Handshake(f).Some? && Handshake(p).value <= Handshake(f).value
  {
    hide Val, Uint16;
  }

  /** Drops the last `k` bytes. */
  function Lop(s: seq<byte>, k: nat): seq<byte>
    requires k <= |s|
  {
    s[..|s| - k]
  }

  /** A parser that skips bytes, run on a buffer that lost its last `k` bytes. */
  function LopRest(r: Option<seq<byte>>, k: nat): Option<seq<byte>> {
    if r.Some? && k <= |r.value| then Some(Lop(r.value, k)) else None
  }

  lemma LopSkip(b: seq<byte>, n: nat, k: nat)
    requires k <= |b|
    ensures Skip(Lop(b, k), n) == LopRest(Skip(b, n), k)
  {
    if n + k <= |b| {
      assert Lop(b, k)[n..] == Lop(b[n..], k);
    }
  }

  lemma LopVector8(b: seq<byte>, k: nat)
    requires k <= |b|
    ensures SkipVector8(Lop(b, k)) == LopRest(SkipVector8(b), k)
  {
    hide Val;
    if k < |b| {
      assert Lop(b, k)[1..] == Lop(b[1..], k);
      LopSkip(b[1..], Val(b[0]), k);
    }
  }

  lemma LopVector16(b: seq<byte>, k: nat)
    requires k <= |b|
    ensures SkipVector16(Lop(b, k)) == LopRest(SkipVector16(b), k)
  {
    hide Uint16;
    if k + 2 <= |b| {
      assert Lop(b, k)[2..] == Lop(b[2..], k);
      LopSkip(b[2..], Uint16(b[0], b[1]), k);
    }
  }

  lemma LopHeader(b: seq<byte>, k: nat)
    requires k <= |b|
    ensures SkipHandshakeHeader(Lop(b, k)) == LopRest(SkipHandshakeHeader(b), k)
  {
    hide Val;
    if k + 4 <= |b| {
      assert Lop(b, k)[4..] == Lop(b[4..], k);
    }
  }

  /** Losing the end of a hello moves nothing that comes before it. */
  lemma LopHello(b: seq<byte>, k: nat)
    requires k <= |b|
    ensures SkipHello(Lop(b, k)) == LopRest(SkipHello(b), k)
  {
    hide SkipHandshakeHeader, Skip, SkipVector8, SkipVector16, Lop;
    LopHeader(b, k);
    var hello := SkipHandshakeHeader(b);
    if hello.Some? && k <= |hello.value| {
      LopSkip(hello.value, 34, k);
      var sessionId := Skip(hello.value, 34);
      if sessionId.Some? && k <= |sessionId.value| {
        LopVector8(sessionId.value, k);
        var cipherSuites := SkipVector8(sessionId.value);
        if cipherSuites.Some? && k <= |cipherSuites.value| {
          LopVector16(cipherSuites.value, k);
          var compression := SkipVector16(cipherSuites.value);
          if compression.Some? && k <= |compression.value| {
            LopVector8(compression.value, k);
          }
        }
      }
    }
  }

  lemma ExtensionsPrefix(p: seq<byte>, f: seq<byte>)
    requires p <= f && Extensions(p).Some?
    ensures Extensions(f).Some? && Extensions(p).value <= Extensions(f).value
  {
    hide Uint16, SkipHello, LopRest;
    var k := |f| - |p|;
    assert p == Lop(f, k);
    LopHello(f, k);
    LopRestIs(SkipHello(f), k);
    var a, b := SkipHello(p).value, SkipHello(f).value;
    assert a <= b;
    ClippedPrefix(a, b, Uint16(b[0], b[1]));
  }

  lemma LopRestIs(r: Option<seq<byte>>, k: nat)
    ensures LopRest(r, k).Some? ==> r.Some? && k <= |r.value| && LopRest(r, k).value <= r.value
  {
  }

  lemma ClippedPrefix(a: seq<byte>, b: seq<byte>, n: nat)
    requires a <= b && |a| >= 2
    ensures a[0] == b[0] && a[1] == b[1]
    ensures a[2..2 + if |a| - 2 < n then |a| - 2 else n] <= b[2..2 + if |b| - 2 < n then |b| - 2 else n]
  {
  }

  lemma {:induction false} FindHostPrefix(p: seq<byte>, f: seq<byte>)
    requires p <= f && FindHost(p) != []
    ensures FindHost(f) == FindHost(p)
    decreases |p|
  {
    hide Val, Uint16, FindName;
    var n := Uint16(p[2], p[3]);
    assert f[..4] == p[..4] && f[0] == p[0] && f[1] == p[1] && f[2] == p[2] && f[3] == p[3];
    assert p[4 + n..] <= f[4 + n..];
    if n >= 2 {
      assert p[6..4 + n] == f[6..4 + n];
    }
    if FindHost(p) == FindHost(p[4 + n..]) {
      FindHostPrefix(p[4 + n..], f[4 + n..]);
    }
  }

  /** Truncation can lose the hostname but never change it. */
  lemma TruncationStable(p: seq<byte>, f: seq<byte>)
    requires p <= f && Hostname(p) != []
    ensures Hostname(f) == Hostname(p)
  {
    hide Handshake, Extensions, FindHost;
    HandshakePrefix(p, f);
    ExtensionsPrefix(Handshake(p).value, Handshake(f).value);
    FindHostPrefix(Extensions(Handshake(p).value).value, Extensions(Handshake(f).value).value);
  }
}
