/** Well-formed ClientHello records, and what extractSNI finds in any prefix of one. */
module SniEncoder {
  import opened Common
  import opened Bytes
  import opened Sni

  datatype Name = Name(kind: byte, text: seq<byte>)

  datatype Extension =
    | ServerName(names: seq<Name>)
    | Other(kind: int, body: seq<byte>)

  datatype Hello = Hello(
    recordVersion: seq<byte>,
    version: seq<byte>,
    random: seq<byte>,
    sessionId: seq<byte>,
    cipherSuites: seq<byte>,
    compression: seq<byte>,
    extensions: seq<Extension>)

  // ---- The host name a hello asks for -------------------------------------------

  function FirstHostName(names: seq<Name>): Option<seq<byte>> {
    if names == [] then None
    else if Val(names[0].kind) == 0 then Some(names[0].text)
    else FirstHostName(names[1..])
  }

  function HostIn(e: Extension): Option<seq<byte>> {
    match e
    case ServerName(names) => FirstHostName(names)
    case Other(_, _) => None
  }

  /** The first host_name entry of the first server_name extension that has one. */
  function FirstHost(es: seq<Extension>): Option<seq<byte>> {
    if es == [] then None
    else if HostIn(es[0]).Some? then HostIn(es[0])
    else FirstHost(es[1..])
  }

  // ---- Encoding -------------------------------------------------------------------

  function NamesSize(names: seq<Name>): nat {
    if names == [] then 0 else 3 + |names[0].text| + NamesSize(names[1..])
  }

  function BodySize(e: Extension): nat {
    match e
    case ServerName(names) => 2 + NamesSize(names)
    case Other(_, body) => |body|
  }

  function ExtensionsSize(es: seq<Extension>): nat {
    if es == [] then 0 else 4 + BodySize(es[0]) + ExtensionsSize(es[1..])
  }

  predicate FitsExtension(e: Extension) {
    BodySize(e) < 0x1_0000 && (e.Other? ==> 0 < e.kind < 0x1_0000)
  }

  predicate FitAll(es: seq<Extension>) {
    forall i :: 0 <= i < |es| ==> FitsExtension(es[i])
  }

  function HelloSize(h: Hello): nat {
    44 + |h.sessionId| + |h.cipherSuites| + |h.compression| + ExtensionsSize(h.extensions)
  }

  /** The size limits of the length fields, for a hello carried by one record. */
  predicate Fits(h: Hello) {
    && |h.recordVersion| == |h.version| == 2 && |h.random| == 32
    && |h.sessionId| < 0x100 && |h.compression| < 0x100
    && FitAll(h.extensions)
    && HelloSize(h) < 0x1_0000
  }

  function EncodeNames(names: seq<Name>): (s: seq<byte>)
    requires NamesSize(names) < 0x1_0000
    ensures |s| == NamesSize(names)
  {
    if names == [] then []
    else [names[0].kind] + PutUint16(|names[0].text|) + names[0].text + EncodeNames(names[1..])
  }

  function EncodeBody(e: Extension): (s: seq<byte>)
    requires FitsExtension(e)
    ensures |s| == BodySize(e)
  {
    match e
    case ServerName(names) => PutUint16(NamesSize(names)) + EncodeNames(names)
    case Other(_, body) => body
  }

  function EncodeExtension(e: Extension): (s: seq<byte>)
    requires FitsExtension(e)
    ensures |s| == 4 + BodySize(e)
  {
    PutUint16(if e.Other? then e.kind else 0) + PutUint16(BodySize(e)) + EncodeBody(e)
  }

  function EncodeExtensions(es: seq<Extension>): (s: seq<byte>)
    requires FitAll(es)
    ensures |s| == ExtensionsSize(es)
  {
    if es == [] then [] else EncodeExtension(es[0]) + EncodeExtensions(es[1..])
  }

  /** The extensions with their length field. */
  function EncodeField(h: Hello): (s: seq<byte>)
    requires Fits(h)
    ensures |s| == 2 + ExtensionsSize(h.extensions)
  {
    PutUint16(ExtensionsSize(h.extensions)) + EncodeExtensions(h.extensions)
  }

  function EncodeHandshake(h: Hello): (s: seq<byte>)
    requires Fits(h)
    ensures |s| == HelloSize(h)
  {
    [ToByte(1), ToByte(0)] + PutUint16(HelloSize(h) - 4)
    + (h.version + h.random
       + ([ToByte(|h.sessionId|)] + h.sessionId
          + (PutUint16(|h.cipherSuites|) + h.cipherSuites
             + ([ToByte(|h.compression|)] + h.compression
                + EncodeField(h)))))
  }

  /** One TLS record of type handshake. */
  function Encode(h: Hello): (s: seq<byte>)
    requires Fits(h)
    ensures |s| == 5 + HelloSize(h)
  {
    [ToByte(0x16)] + h.recordVersion + PutUint16(HelloSize(h)) + EncodeHandshake(h)
  }

  // ---- Reading the pieces back ----------------------------------------------------

  lemma {:induction false} FindNameEncoded(names: seq<Name>)
    requires NamesSize(names) < 0x1_0000
    ensures FindName(EncodeNames(names)) ==
            match FirstHostName(names) case None => NoHost case Some(text) => Host(text)
    decreases |names|
  {
    hide Val, ToByte, Uint16, PutUint16;
    if names != [] {
      var s, t := EncodeNames(names), names[0].text;
      var len := PutUint16(|t|);
      assert s[0] == names[0].kind && s[1] == len[0] && s[2] == len[1];
      assert s[3..3 + |t|] == t && s[3 + |t|..] == EncodeNames(names[1..]);
      FindNameEncoded(names[1..]);
    }
  }

  /** Where the extension that holds the host name ends. */
  function HostEnd(es: seq<Extension>): (n: nat)
    requires FirstHost(es).Some?
    ensures n <= ExtensionsSize(es)
  {
    if HostIn(es[0]).Some? then 4 + BodySize(es[0]) else 4 + BodySize(es[0]) + HostEnd(es[1..])
  }

  lemma ExtensionHeader(e: Extension)
    requires FitsExtension(e)
    ensures var x := EncodeExtension(e);
            Uint16(x[0], x[1]) == (if e.Other? then e.kind else 0) && Uint16(x[2], x[3]) == BodySize(e)
  {
    hide Val, ToByte, Uint16, PutUint16;
  }

  /** A whole extension is read, or passed over. */
  lemma FindHostWhole(e: Extension, rest: seq<byte>)
    requires FitsExtension(e)
    ensures FindHost(EncodeExtension(e) + rest) == if HostIn(e).Some? then HostIn(e).value else FindHost(rest)
  {
    hide Val, ToByte, Uint16, PutUint16, FindName, EncodeNames, FirstHostName;
    var x, n := EncodeExtension(e), BodySize(e);
    var ext := x + rest;
    ExtensionHeader(e);
    assert ext[4 + n..] == rest;
    if e.ServerName? {
      assert ext[6..4 + n] == EncodeNames(e.names);
      FindNameEncoded(e.names);
    }
  }

  /** A cut extension is not read. */
  lemma FindHostCut(e: Extension, k: nat)
    requires FitsExtension(e) && k < 4 + BodySize(e)
    ensures FindHost(EncodeExtension(e)[..k]) == []
  {
    hide Val, ToByte, Uint16, FindName, EncodeExtension;
    ExtensionHeader(e);
  }

  lemma {:induction false} FindHostEncoded(es: seq<Extension>, m: nat)
    requires FitAll(es) && m <= ExtensionsSize(es)
    ensures FindHost(EncodeExtensions(es)[..m]) ==
            if FirstHost(es).Some? && m >= HostEnd(es) then FirstHost(es).value else []
    decreases |es|
  {
    hide FindHost, EncodeExtension, HostIn;
    if es == [] {
      assert FindHost([]) == [] by { FindHostNothing(); }
    } else {
      var x, rest, n := EncodeExtension(es[0]), EncodeExtensions(es[1..]), 4 + BodySize(es[0]);
      if m < n {
        assert (x + rest)[..m] == x[..m];
        FindHostCut(es[0], m);
      } else {
        assert (x + rest)[..m] == x + rest[..m - n];
        FindHostWhole(es[0], rest[..m - n]);
        FindHostEncoded(es[1..], m - n);
      }
    }
  }

  lemma FindHostNothing()
    ensures FindHost([]) == []
  {
  }

  lemma SkipVector8Encoded(v: seq<byte>, rest: seq<byte>)
    requires |v| < 0x100
    ensures SkipVector8([ToByte(|v|)] + v + rest) == Some(rest)
  {
    hide Val, ToByte;
    assert ([ToByte(|v|)] + v + rest)[1..][|v|..] == rest;
  }

  lemma SkipVector16Encoded(v: seq<byte>, rest: seq<byte>)
    requires |v| < 0x1_0000
    ensures SkipVector16(PutUint16(|v|) + v + rest) == Some(rest)
  {
    hide Uint16, PutUint16;
    assert (PutUint16(|v|) + v + rest)[2..][|v|..] == rest;
  }

  lemma SkipHelloEncoded(h: Hello)
    requires Fits(h)
    ensures SkipHello(EncodeHandshake(h)) == Some(EncodeField(h))
  {
    hide Val, ToByte, PutUint16, EncodeField, SkipVector8, SkipVector16;
    var compression := [ToByte(|h.compression|)] + h.compression + EncodeField(h);
    var suites := PutUint16(|h.cipherSuites|) + h.cipherSuites + compression;
    var sessionId := [ToByte(|h.sessionId|)] + h.sessionId + suites;
    var hello := h.version + h.random + sessionId;
    var header := [ToByte(1), ToByte(0)] + PutUint16(HelloSize(h) - 4);
    assert EncodeHandshake(h) == header + hello;
    assert (header + hello)[4..] == hello;
    assert Skip(hello, 34) == Some(sessionId);
    SkipVector8Encoded(h.sessionId, suites);
    SkipVector16Encoded(h.cipherSuites, compression);
    SkipVector8Encoded(h.compression, EncodeField(h));
  }

  /** What a read of up to `k` bytes sees. */
  function Received(data: seq<byte>, k: nat): seq<byte> {
    if k < |data| then data[..k] else data
  }

  lemma HandshakeReceived(h: Hello, tail: seq<byte>, k: nat)
    requires Fits(h)
    ensures Handshake(Received(Encode(h) + tail, k)) ==
            if k < 5 then None
            else Some(EncodeHandshake(h)[..if k - 5 < HelloSize(h) then k - 5 else HelloSize(h)])
  {
    hide Val, ToByte, Uint16, PutUint16, EncodeHandshake;
    var data := Encode(h) + tail;
    var len := PutUint16(HelloSize(h));
    assert data[..5] == [ToByte(0x16)] + h.recordVersion + len;
    assert data[3] == data[..5][3] == len[0] && data[4] == data[..5][4] == len[1];
    assert data[5..5 + HelloSize(h)] == EncodeHandshake(h);
    if k >= 5 {
      var p := Received(data, k);
      assert p[0] == data[0] && p[3] == data[3] && p[4] == data[4];
      var end := if 5 + HelloSize(h) > |p| then |p| else 5 + HelloSize(h);
      assert p[5..end] == data[5..5 + HelloSize(h)][..end - 5];
    }
  }

  /** The number of received bytes from which the host name is known. */
  function HostOffset(h: Hello): nat
    requires Fits(h) && FirstHost(h.extensions).Some?
  {
    |Encode(h)| - ExtensionsSize(h.extensions) + HostEnd(h.extensions)
  }

  lemma ExtensionsReceived(h: Hello, lost: nat)
    requires Fits(h) && lost <= HelloSize(h)
    ensures Extensions(Lop(EncodeHandshake(h), lost)) ==
            if lost <= ExtensionsSize(h.extensions)
            then Some(EncodeExtensions(h.extensions)[..ExtensionsSize(h.extensions) - lost])
            else None
  {
    hide Uint16, PutUint16, EncodeExtensions, EncodeHandshake, SkipHello;
    LopHello(EncodeHandshake(h), lost);
    SkipHelloEncoded(h);
    var field, n := EncodeField(h), ExtensionsSize(h.extensions);
    var len := PutUint16(n);
    assert field[0] == len[0] && field[1] == len[1] && field[2..] == EncodeExtensions(h.extensions);
    if lost <= n {
      assert Lop(field, lost)[2..] == field[2..][..n - lost];
      assert Lop(field, lost)[2..2 + n - lost] == Lop(field, lost)[2..];
    }
  }

  /**
   Whatever part of a well-formed hello has arrived, and whatever follows it, the
   sniffer answers with the requested host name from the moment its extension is
   complete, and with nothing before that.
   */
  lemma HostnameReceived(h: Hello, tail: seq<byte>, k: nat)
    requires Fits(h)
    ensures Hostname(Received(Encode(h) + tail, k)) ==
            if FirstHost(h.extensions).Some? && k >= HostOffset(h) then FirstHost(h.extensions).value else []
  {
    hide Extensions, Handshake, Received, Encode, EncodeHandshake, EncodeExtensions, FindHost, FirstHost, HostEnd;
    HandshakeReceived(h, tail, k);
    if k >= 5 {
      var size, n := HelloSize(h), ExtensionsSize(h.extensions);
      var got := if k - 5 < size then k - 5 else size;
      var lost := size - got;
      assert EncodeHandshake(h)[..got] == Lop(EncodeHandshake(h), lost);
      ExtensionsReceived(h, lost);
      if lost <= n {
        FindHostEncoded(h.extensions, n - lost);
      }
    }
  }
}
