/**
 What extractSNI answers on every input, told by how the input is put together: the layout
 of a ClientHello with arbitrary lengths, padding and damage behind the host name.
 */
module SniExact {
  import opened Common
  import opened Bytes
  import opened Sni
  import opened SniEncoder

  // ---- The entries of a server_name_list ------------------------------------------------

  /** An entry that is not a host_name. */
  predicate Passed(n: Name) {
    Val(n.kind) != 0 && |n.text| < 0x1_0000
  }

  predicate AllPassed(names: seq<Name>) {
    forall i :: 0 <= i < |names| ==> Passed(names[i])
  }

  function Entry(kind: byte, text: seq<byte>): seq<byte>
    requires |text| < 0x1_0000
  {
    [kind] + PutUint16(|text|) + text
  }

  function Entries(names: seq<Name>): seq<byte>
    requires AllPassed(names)
  {
    if names == [] then [] else Entry(names[0].kind, names[0].text) + Entries(names[1..])
  }

  /** The entry at the front claims more bytes than there are. */
  predicate Overlong(r: seq<byte>) {
    |r| >= 3 && |r| - 3 < Uint16(r[1], r[2])
  }

  /** How a list gives an answer: entries of other types, and then what decides. */
  ghost predicate ListPut(list: seq<byte>, answer: Names, names: seq<Name>, r: seq<byte>) {
    && AllPassed(names) && list == Entries(names) + r
    && match answer
       case NoHost => |r| < 3
       case Malformed => Overlong(r)
       case Host(text) => |text| < 0x1_0000 && Entry(0, text) <= r
  }

  lemma EntryRead(kind: byte, text: seq<byte>, rest: seq<byte>)
    requires |text| < 0x1_0000
    ensures var s := Entry(kind, text) + rest;
            && |s| >= 3 + |text| && s[0] == kind && Uint16(s[1], s[2]) == |text|
            && s[3..3 + |text|] == text && s[3 + |text|..] == rest
  {
    hide Val, ToByte, Uint16, PutUint16;
    var len := PutUint16(|text|);
    var s := [kind] + len + text + rest;
    assert s[1] == len[0] && s[2] == len[1];
  }

  lemma {:induction false} PassEntries(names: seq<Name>, r: seq<byte>)
    requires AllPassed(names)
    ensures FindName(Entries(names) + r) == FindName(r)
    decreases |names|
  {
    hide Val, Uint16, PutUint16, Entry;
    if names == [] {
      assert Entries(names) + r == r;
    } else {
      var rest := Entries(names[1..]) + r;
      assert Entries(names) + r == Entry(names[0].kind, names[0].text) + rest;
      EntryRead(names[0].kind, names[0].text, rest);
      PassEntries(names[1..], r);
    }
  }

  lemma ZeroByte(b: byte)
    ensures Val(b) == 0 <==> b == 0
  {
    assert Val(0) == 0;
    hide Val;
    if Val(b) == 0 {
      ValInjective(b, 0);
    }
  }

  lemma ListPutRead(list: seq<byte>, answer: Names, names: seq<Name>, r: seq<byte>)
    requires ListPut(list, answer, names, r)
    ensures FindName(list) == answer
  {
    hide Val, Uint16, PutUint16, Entry, Entries;
    PassEntries(names, r);
    if answer.Host? {
      var rest := r[|Entry(0, answer.name)|..];
      assert r == Entry(0, answer.name) + rest;
      EntryRead(0, answer.name, rest);
      ZeroByte(0);
    }
  }

  /** Every non-empty list of three bytes or more begins with an entry or is overlong. */
  lemma EntryThere(r: seq<byte>)
    requires |r| >= 3 && !Overlong(r)
    ensures var n := Uint16(r[1], r[2]);
            n < 0x1_0000 && r == Entry(r[0], r[3..3 + n]) + r[3 + n..]
  {
    hide Val, Uint16, PutUint16;
    PutUint16Back(r[1], r[2]);
    var n := Uint16(r[1], r[2]);
    assert r == [r[0]] + [r[1], r[2]] + r[3..3 + n] + r[3 + n..];
  }

  lemma {:induction false} ListSplits(list: seq<byte>) returns (names: seq<Name>, r: seq<byte>)
    ensures ListPut(list, FindName(list), names, r)
    decreases |list|
  {
    hide Val, Uint16, PutUint16, Entry, FindName, ListPut;
    FrontEntry(list);
    names, r := [], list;
    if |list| < 3 || Overlong(list) || Val(list[0]) == 0 {
      DecidedAtOnce(list);
    } else {
      EntryThere(list);
      var n := Uint16(list[1], list[2]);
      var first, rest := Name(list[0], list[3..3 + n]), list[3 + n..];
      var more;
      more, r := ListSplits(rest);
      names := [first] + more;
      ListPutCons(first, rest, FindName(rest), more, r);
    }
  }

  lemma DecidedAtOnce(list: seq<byte>)
    requires |list| < 3 || Overlong(list) || Val(list[0]) == 0
    ensures ListPut(list, FindName(list), [], list)
  {
    hide Val, Uint16, PutUint16, Entry, FindName;
    FrontEntry(list);
    assert Entries([]) + list == list;
    if |list| >= 3 && !Overlong(list) {
      EntryThere(list);
      ZeroByte(list[0]);
      var text := list[3..3 + Uint16(list[1], list[2])];
      assert list == Entry(0, text) + list[3 + |text|..];
    }
  }

  /** One entry at the front. */
  lemma FrontEntry(list: seq<byte>)
    ensures FindName(list) ==
            if |list| < 3 then NoHost
            else if Overlong(list) then Malformed
            else
              var n := Uint16(list[1], list[2]);
              if Val(list[0]) == 0 then Host(list[3..3 + n]) else FindName(list[3 + n..])
  {
    hide Val, Uint16;
  }

  lemma ListPutCons(n: Name, rest: seq<byte>, answer: Names, names: seq<Name>, r: seq<byte>)
    requires Passed(n) && ListPut(rest, answer, names, r)
    ensures ListPut(Entry(n.kind, n.text) + rest, answer, [n] + names, r)
  {
    hide Val, Entry, Entries, Overlong;
    ConsEntries(n, names, r);
  }

  lemma ConsEntries(n: Name, names: seq<Name>, r: seq<byte>)
    requires Passed(n) && AllPassed(names)
    ensures AllPassed([n] + names)
    ensures Entries([n] + names) + r == Entry(n.kind, n.text) + (Entries(names) + r)
  {
    hide Val, Entry;
    assert ([n] + names)[1..] == names;
    assert Entries([n] + names) == Entry(n.kind, n.text) + Entries(names);
  }

  /** The inner loop answers exactly by how the list is put together. */
  lemma ListExactly(list: seq<byte>, answer: Names)
    ensures FindName(list) == answer <==> exists names, r :: ListPut(list, answer, names, r)
  {
    hide FindName, ListPut;
    if names, r :| ListPut(list, answer, names, r) {
      ListPutRead(list, answer, names, r);
    }
    if FindName(list) == answer {
      var names, r := ListSplits(list);
    }
  }

  // ---- The extensions -----------------------------------------------------------------------

  datatype Item = Item(kind: int, body: seq<byte>)

  predicate ItemFits(x: Item) {
    0 <= x.kind < 0x1_0000 && |x.body| < 0x1_0000
  }

  /** An extension the search passes over: not a server_name, or one whose list has no host name. */
  predicate SkippedItem(x: Item) {
    ItemFits(x) && (x.kind != 0 || (|x.body| >= 2 && FindName(x.body[2..]) == NoHost))
  }

  predicate AllSkipped(items: seq<Item>) {
    forall i :: 0 <= i < |items| ==> SkippedItem(items[i])
  }

  function PutItem(x: Item): seq<byte>
    requires ItemFits(x)
  {
    PutUint16(x.kind) + PutUint16(|x.body|) + x.body
  }

  function PutItems(items: seq<Item>): seq<byte>
    requires AllSkipped(items)
  {
    if items == [] then [] else PutItem(items[0]) + PutItems(items[1..])
  }

  /** The extensions ask for `text`: skipped ones, then a server_name with that host name, then anything. */
  ghost predicate Asks(ext: seq<byte>, text: seq<byte>, items: seq<Item>, body: seq<byte>) {
    && AllSkipped(items) && 2 <= |body| < 0x1_0000 && FindName(body[2..]) == Host(text)
    && PutItems(items) + PutItem(Item(0, body)) <= ext
  }

  lemma ItemRead(x: Item, rest: seq<byte>)
    requires ItemFits(x)
    ensures var s := PutItem(x) + rest;
            && |s| >= 4 + |x.body| && Uint16(s[0], s[1]) == x.kind && Uint16(s[2], s[3]) == |x.body|
            && s[4..4 + |x.body|] == x.body && s[4 + |x.body|..] == rest
  {
    hide Val, ToByte, Uint16, PutUint16;
    var k, len := PutUint16(x.kind), PutUint16(|x.body|);
    var s := k + len + x.body + rest;
    assert s[0] == k[0] && s[1] == k[1] && s[2] == len[0] && s[3] == len[1];
  }

  /** One extension at the front. */
  lemma FrontItem(x: Item, rest: seq<byte>)
    requires ItemFits(x)
    ensures FindHost(PutItem(x) + rest) ==
            if x.kind != 0 then FindHost(rest)
            else if |x.body| < 2 then []
            else match FindName(x.body[2..])
              case Host(name) => name
              case Malformed => []
              case NoHost => FindHost(rest)
  {
    hide Val, Uint16, PutUint16, FindName, PutItem;
    ItemRead(x, rest);
    var s := PutItem(x) + rest;
    if |x.body| >= 2 {
      assert s[6..4 + |x.body|] == s[4..4 + |x.body|][2..];
    }
  }

  lemma {:induction false} PassItems(items: seq<Item>, rest: seq<byte>)
    requires AllSkipped(items)
    ensures FindHost(PutItems(items) + rest) == FindHost(rest)
    decreases |items|
  {
    hide FindHost, PutItem, FindName;
    if items == [] {
      assert PutItems(items) + rest == rest;
    } else {
      var more := PutItems(items[1..]) + rest;
      assert PutItems(items) + rest == PutItem(items[0]) + more;
      FrontItem(items[0], more);
      PassItems(items[1..], rest);
    }
  }

  lemma AsksRead(ext: seq<byte>, text: seq<byte>, items: seq<Item>, body: seq<byte>)
    requires Asks(ext, text, items, body)
    ensures FindHost(ext) == text
  {
    hide FindHost, FindName, PutItem, PutItems;
    var x := Item(0, body);
    var front := PutItems(items) + PutItem(x);
    var rest := ext[|front|..];
    assert ext == front + rest;
    assert front + rest == PutItems(items) + (PutItem(x) + rest);
    PassItems(items, PutItem(x) + rest);
    FrontItem(x, rest);
  }

  lemma ItemThere(ext: seq<byte>)
    requires |ext| >= 4 && |ext| - 4 >= Uint16(ext[2], ext[3])
    ensures var n := Uint16(ext[2], ext[3]);
            var x := Item(Uint16(ext[0], ext[1]), ext[4..4 + n]);
            ItemFits(x) && ext == PutItem(x) + ext[4 + n..]
  {
    hide Val, Uint16, PutUint16;
    PutUint16Back(ext[0], ext[1]);
    PutUint16Back(ext[2], ext[3]);
    var n := Uint16(ext[2], ext[3]);
    assert ext == [ext[0], ext[1]] + [ext[2], ext[3]] + ext[4..4 + n] + ext[4 + n..];
  }

  lemma ConsItems(x: Item, items: seq<Item>)
    requires SkippedItem(x) && AllSkipped(items)
    ensures AllSkipped([x] + items) && PutItems([x] + items) == PutItem(x) + PutItems(items)
  {
    hide SkippedItem, PutItem;
    assert ([x] + items)[1..] == items;
  }

  lemma PrefixLonger(x: seq<byte>, y: seq<byte>, z: seq<byte>, rest: seq<byte>)
    requires y + z <= rest
    ensures x + y + z <= x + rest
  {
    assert rest == y + z + rest[|y + z|..];
    assert x + rest == x + y + z + rest[|y + z|..];
  }

  lemma AsksCons(x: Item, rest: seq<byte>, text: seq<byte>, items: seq<Item>, body: seq<byte>)
    requires SkippedItem(x) && Asks(rest, text, items, body)
    ensures Asks(PutItem(x) + rest, text, [x] + items, body)
  {
    hide PutItem, PutItems, FindName;
    ConsItems(x, items);
    PrefixLonger(PutItem(x), PutItems(items), PutItem(Item(0, body)), rest);
  }

  /** The extension at the front decides, or is passed over. */
  lemma FrontDecides(ext: seq<byte>) returns (x: Item, rest: seq<byte>)
    requires FindHost(ext) != []
    ensures ItemFits(x) && ext == PutItem(x) + rest && |rest| < |ext|
    ensures || (SkippedItem(x) && FindHost(rest) == FindHost(ext))
            || (x.kind == 0 && |x.body| >= 2 && FindName(x.body[2..]) == Host(FindHost(ext)))
  {
    hide Val, Uint16, PutUint16, FindName, PutItem, FindHost;
    FoundBehindItem(ext);
    var n := Uint16(ext[2], ext[3]);
    x, rest := Item(Uint16(ext[0], ext[1]), ext[4..4 + n]), ext[4 + n..];
    ItemThere(ext);
    FrontItem(x, rest);
  }

  lemma {:induction false} ExtensionsSplit(ext: seq<byte>) returns (items: seq<Item>, body: seq<byte>)
    requires FindHost(ext) != []
    ensures Asks(ext, FindHost(ext), items, body)
    decreases |ext|
  {
    hide FindName, PutItem, PutItems, FindHost, SkippedItem;
    var x, rest := FrontDecides(ext);
    if SkippedItem(x) && FindHost(rest) == FindHost(ext) {
      hide Asks;
      items, body := ExtensionsSplit(rest);
      AsksCons(x, rest, FindHost(ext), items, body);
      items := [x] + items;
    } else {
      items, body := [], x.body;
      NoItems(PutItem(x));
      assert x == Item(0, body);
    }
  }

  lemma FoundBehindItem(ext: seq<byte>)
    requires FindHost(ext) != []
    ensures |ext| >= 4 && |ext| - 4 >= Uint16(ext[2], ext[3])
  {
    hide Val, Uint16, FindName;
  }

  lemma NoItems(s: seq<byte>)
    ensures PutItems([]) + s == s
  {
  }

  // ---- The whole input ------------------------------------------------------------------------

  function Clip(s: seq<byte>, n: nat): seq<byte> {
    if |s| < n then s else s[..n]
  }

  /** One TLS record of type handshake, its body as far as it arrived. */
  ghost predicate RecordOf(data: seq<byte>, version: seq<byte>, length: nat, rest: seq<byte>) {
    |version| == 2 && length < 0x1_0000 && data == [ToByte(0x16)] + version + PutUint16(length) + rest
  }

  /** The fields of a ClientHello up to its extensions. */
  datatype Head = Head(length: seq<byte>, fixed: seq<byte>, session: seq<byte>, suites: seq<byte>, compression: seq<byte>)

  predicate HeadFits(h: Head) {
    |h.length| == 3 && |h.fixed| == 34 && |h.session| < 0x100 && |h.suites| < 0x1_0000 && |h.compression| < 0x100
  }

  function PutHead(h: Head, field: seq<byte>): seq<byte>
    requires HeadFits(h)
  {
    [ToByte(1)] + h.length
    + (h.fixed
       + ([ToByte(|h.session|)] + h.session
          + (PutUint16(|h.suites|) + h.suites
             + ([ToByte(|h.compression|)] + h.compression + field))))
  }

  lemma HeadRead(h: Head, field: seq<byte>)
    requires HeadFits(h)
    ensures SkipHello(PutHead(h, field)) == Some(field)
  {
    hide Val, ToByte, PutUint16, SkipVector8, SkipVector16;
    var compression := [ToByte(|h.compression|)] + h.compression + field;
    var suites := PutUint16(|h.suites|) + h.suites + compression;
    var session := [ToByte(|h.session|)] + h.session + suites;
    var header := [ToByte(1)] + h.length;
    var hello := h.fixed + session;
    assert PutHead(h, field) == header + hello && (header + hello)[4..] == hello;
    assert Skip(hello, 34) == Some(session);
    SkipVector8Encoded(h.session, suites);
    SkipVector16Encoded(h.suites, compression);
    SkipVector8Encoded(h.compression, field);
  }

  lemma Vector8There(b: seq<byte>) returns (v: seq<byte>)
    requires SkipVector8(b).Some?
    ensures |v| < 0x100 && b == [ToByte(|v|)] + v + SkipVector8(b).value
  {
    hide Val, ToByte;
    var n := Val(b[0]);
    v := b[1..1 + n];
    ValInjective(ToByte(n), b[0]);
    assert b[1..][n..] == b[1 + n..];
    assert b == [b[0]] + v + b[1 + n..];
  }

  lemma Vector16There(b: seq<byte>) returns (v: seq<byte>)
    requires SkipVector16(b).Some?
    ensures |v| < 0x1_0000 && b == PutUint16(|v|) + v + SkipVector16(b).value
  {
    hide Uint16, PutUint16;
    var n := Uint16(b[0], b[1]);
    v := b[2..2 + n];
    PutUint16Back(b[0], b[1]);
    assert b[2..][n..] == b[2 + n..];
    assert b == [b[0], b[1]] + v + b[2 + n..];
  }

  lemma HeadThere(b: seq<byte>) returns (h: Head)
    requires SkipHello(b).Some?
    ensures HeadFits(h) && b == PutHead(h, SkipHello(b).value)
  {
    hide Val, ToByte, PutUint16, SkipVector8, SkipVector16;
    var hello := b[4..];
    var session := hello[34..];
    var suites := SkipVector8(session).value;
    var compression := SkipVector16(suites).value;
    var field := SkipVector8(compression).value;
    var v1 := Vector8There(session);
    var v2 := Vector16There(suites);
    var v3 := Vector8There(compression);
    OneByte(b[0]);
    h := Head(b[1..4], hello[..34], v1, v2, v3);
    assert b == [b[0]] + b[1..4] + hello && hello == hello[..34] + session;
  }

  lemma OneByte(b: byte)
    ensures Val(b) == 0x01 ==> b == ToByte(0x01)
    ensures Val(b) == 0x16 ==> b == ToByte(0x16)
  {
    hide Val, ToByte;
    if Val(b) == 0x01 {
      ValInjective(b, ToByte(0x01));
    }
    if Val(b) == 0x16 {
      ValInjective(b, ToByte(0x16));
    }
  }

  /** The parts of an input that asks for a host name. */
  datatype Parts = Parts(
    version: seq<byte>,
    length: nat,
    rest: seq<byte>,
    head: Head,
    extLength: nat,
    exts: seq<byte>,
    items: seq<Item>,
    body: seq<byte>)

  /**
   `data` is a handshake record whose body, clipped to the record length, is a ClientHello
   whose extensions, clipped to their length, ask for `text`.
   */
  ghost predicate AsksFor(data: seq<byte>, text: seq<byte>, p: Parts) {
    && RecordOf(data, p.version, p.length, p.rest)
    && HeadFits(p.head) && p.extLength < 0x1_0000
    && Clip(p.rest, p.length) == PutHead(p.head, PutUint16(p.extLength) + p.exts)
    && Asks(Clip(p.exts, p.extLength), text, p.items, p.body)
  }

  lemma RecordRead(data: seq<byte>, version: seq<byte>, length: nat, rest: seq<byte>)
    requires RecordOf(data, version, length, rest)
    ensures Handshake(data) == Some(Clip(rest, length))
  {
    hide Val, ToByte, Uint16, PutUint16;
    var len := PutUint16(length);
    assert data[3] == len[0] && data[4] == len[1] && data[5..] == rest;
    var end := if 5 + length > |data| then |data| else 5 + length;
    assert data[5..end] == data[5..][..end - 5];
    assert Clip(rest, length) == rest[..end - 5];
  }

  lemma FieldRead(b: seq<byte>, extLength: nat, exts: seq<byte>)
    requires extLength < 0x1_0000 && SkipHello(b) == Some(PutUint16(extLength) + exts)
    ensures Extensions(b) == Some(Clip(exts, extLength))
  {
    hide Uint16, PutUint16, SkipHello;
    var len := PutUint16(extLength);
    var field := len + exts;
    assert field[0] == len[0] && field[1] == len[1] && field[2..] == exts;
    var n := if |exts| < extLength then |exts| else extLength;
    assert field[2..2 + n] == field[2..][..n];
    assert Clip(exts, extLength) == exts[..n];
  }

  lemma RecordThere(data: seq<byte>) returns (version: seq<byte>, length: nat, rest: seq<byte>)
    requires Handshake(data).Some?
    ensures RecordOf(data, version, length, rest)
  {
    hide Val, ToByte, Uint16, PutUint16;
    version, length, rest := data[1..3], Uint16(data[3], data[4]), data[5..];
    PutUint16Back(data[3], data[4]);
    OneByte(data[0]);
    assert data == [data[0]] + version + [data[3], data[4]] + rest;
  }

  lemma FieldThere(b: seq<byte>) returns (extLength: nat, exts: seq<byte>)
    requires Extensions(b).Some?
    ensures extLength < 0x1_0000 && SkipHello(b) == Some(PutUint16(extLength) + exts)
  {
    hide Uint16, PutUint16, SkipHello;
    var field := SkipHello(b).value;
    extLength, exts := Uint16(field[0], field[1]), field[2..];
    PutUint16Back(field[0], field[1]);
    assert field == [field[0], field[1]] + exts;
  }

  /**
   On every input: extractSNI returns `text` if the input asks for it, and a host name it
   returns is asked for. In all other cases it returns the empty string.
   */
  lemma HostnameExactly(data: seq<byte>, text: seq<byte>)
    requires text != []
    ensures Hostname(data) == text <==> exists p :: AsksFor(data, text, p)
  {
    hide AsksFor, Hostname;
    if p :| AsksFor(data, text, p) {
      AsksForRead(data, text, p);
    }
    if Hostname(data) == text {
      var p := AsksForThere(data);
    }
  }

  lemma AsksForRead(data: seq<byte>, text: seq<byte>, p: Parts)
    requires AsksFor(data, text, p)
    ensures Hostname(data) == text
  {
    hide RecordOf, HeadFits, PutHead, Asks, Handshake, Extensions, FindHost, SkipHello, PutUint16, Clip;
    RecordRead(data, p.version, p.length, p.rest);
    HeadRead(p.head, PutUint16(p.extLength) + p.exts);
    FieldRead(Clip(p.rest, p.length), p.extLength, p.exts);
    AsksRead(Clip(p.exts, p.extLength), text, p.items, p.body);
  }

  lemma AsksForThere(data: seq<byte>) returns (p: Parts)
    requires Hostname(data) != []
    ensures AsksFor(data, Hostname(data), p)
  {
    hide RecordOf, HeadFits, PutHead, Asks, Handshake, Extensions, FindHost, SkipHello, PutUint16, Clip;
    var version, length, rest := RecordThere(data);
    RecordRead(data, version, length, rest);
    var b := Clip(rest, length);
    var extLength, exts := FieldThere(b);
    FieldRead(b, extLength, exts);
    var head := HeadThere(b);
    var items, body := ExtensionsSplit(Clip(exts, extLength));
    p := Parts(version, length, rest, head, extLength, exts, items, body);
  }
}
