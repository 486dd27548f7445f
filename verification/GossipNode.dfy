/**
 One DHT node's side of manifest gossip: the control-manifest channel, the
 content-manifest channel that mirrors it, and the index of peers that completed
 a download. A channel is modelled once and used for both.
 */
module GossipNode {
  import opened Common

  type Raw = string
  type Addr = string

  /** What a node holds on one channel; `complete` is used by the content channel only. */
  datatype Channel = Channel(raw: Raw, ts: int, complete: bool) {
    /** SetManifest and SetContent: only a newer version is installed, and it is not yet complete. */
    function Set(raw: Raw, ts: int): Channel {
      if ts > this.ts then Channel(raw, ts, false) else this
    }

    /** SetContentComplete: a report for any other version is ignored. */
    function SetComplete(ts: int, flag: bool): Channel {
      if ts == this.ts then this.(complete := flag) else this
    }

    /** A Have is answered with a Want. */
    predicate Wants(ts: int) {
      ts > this.ts
    }

    /** What a Want is answered with. */
    function Served(): Option<(Raw, int)> {
      if raw == "" then None else Some((raw, ts))
    }

    /** A Have is sent at all. */
    predicate Advertises() {
      ts != 0
    }
  }

  const NOTHING := Channel("", 0, false)

  /** One row of the index of peers, by address. */
  datatype Peer = Peer(ts: int, complete: bool, lastSeen: int)

  predicate Fresh(p: Peer, now: int) {
    p.lastSeen > now - TTL
  }

  class Node {
    var manifestRaw: Raw
    var manifestTS: int
    var contentRaw: Raw
    var contentTS: int
    var contentComplete: bool
    var peers: map<Addr, Peer>

    ghost function Manifest(): Channel
      reads this
    {
      Channel(manifestRaw, manifestTS, false)
    }

    ghost function Content(): Channel
      reads this
    {
      Channel(contentRaw, contentTS, contentComplete)
    }

    constructor ()
      ensures Manifest() == Content() == NOTHING && peers == map[]
    {
      manifestRaw, manifestTS := "", 0;
      contentRaw, contentTS, contentComplete := "", 0, false;
      peers := map[];
    }

    method SetManifest(raw: Raw, ts: int)
      modifies this`manifestRaw, this`manifestTS
      ensures Manifest() == old(Manifest()).Set(raw, ts)
    {
      if ts > manifestTS {
        manifestRaw := raw;
        manifestTS := ts;
      }
    }

    method HandleManifestHave(ts: int) returns (want: bool)
      ensures want <==> Manifest().Wants(ts)
    {
      var ours := manifestTS;
      want := ts > ours;
    }

    method HandleManifestWant() returns (reply: Option<(Raw, int)>)
      ensures reply == Manifest().Served()
    {
      var raw, ts := manifestRaw, manifestTS;
      if |raw| == 0 {
        return None;
      }
      return Some((raw, ts));
    }

    /** handleManifestData: whether the manifest is passed to the callback. */
    method HandleManifestData(ts: int) returns (pass: bool)
      ensures pass <==> Manifest().Wants(ts)
    {
      if ts <= manifestTS {
        return false;
      }
      return true;
    }

    method GossipManifestHave() returns (have: Option<int>)
      ensures have == if Manifest().Advertises() then Some(Manifest().ts) else None
    {
      var ts := manifestTS;
      if ts == 0 {
        return None;
      }
      return Some(ts);
    }

    method SetContent(raw: Raw, ts: int)
      modifies this`contentRaw, this`contentTS, this`contentComplete
      ensures Content() == old(Content()).Set(raw, ts)
    {
      if ts > contentTS {
        contentRaw := raw;
        contentTS := ts;
        contentComplete := false;
      }
    }

    method SetContentComplete(ts: int, complete: bool)
      modifies this`contentComplete
      ensures Content() == old(Content()).SetComplete(ts, complete)
    {
      if ts == contentTS {
        contentComplete := complete;
      }
    }

    method GossipContentHave() returns (have: Option<(int, bool)>)
      ensures have == if Content().Advertises() then Some((Content().ts, Content().complete)) else None
    {
      var ts, complete := contentTS, contentComplete;
      if ts == 0 {
        return None;
      }
      return Some((ts, complete));
    }

    /** handleContentHave: the sender is recorded whether or not the manifest is wanted. */
    method HandleContentHave(src: Addr, ts: int, complete: bool, now: int) returns (want: bool)
      modifies this`peers
      ensures peers == old(peers)[src := Peer(ts, complete, now)]
      ensures want <==> Content().Wants(ts)
    {
      peers := peers[src := Peer(ts, complete, now)];
      var ours := contentTS;
      want := ts > ours;
    }

    method HandleContentWant() returns (reply: Option<(Raw, int)>)
      ensures reply == Content().Served()
    {
      var raw, ts := contentRaw, contentTS;
      if |raw| == 0 {
        return None;
      }
      return Some((raw, ts));
    }

    method HandleContentData(ts: int) returns (pass: bool)
      ensures pass <==> Content().Wants(ts)
    {
      if ts <= contentTS {
        return false;
      }
      return true;
    }

    /** CompletePeers: addresses last heard complete for exactly `ts`, within the TTL. */
    method CompletePeers(ts: int, now: int) returns (out: set<Addr>)
      ensures out == ListedComplete(peers, ts, now)
    {
      out := {};
      var todo := peers;
      while todo != map[]
        invariant todo.Keys <= peers.Keys && forall a :: a in todo ==> todo[a] == peers[a]
        invariant out == ListedComplete(peers - todo.Keys, ts, now)
        decreases todo.Keys
      {
        var a :| a in todo;
        var e := todo[a];
        ghost var before := peers - todo.Keys;
        todo := todo - {a};
        assert peers - todo.Keys == before[a := e];
        if e.complete && e.ts == ts && Fresh(e, now) {
          out := out + {a};
        }
      }
      assert peers - todo.Keys == peers;
    }
  }

  function ListedComplete(peers: map<Addr, Peer>, ts: int, now: int): set<Addr> {
    set a | a in peers && peers[a].complete && peers[a].ts == ts && Fresh(peers[a], now)
  }
}
