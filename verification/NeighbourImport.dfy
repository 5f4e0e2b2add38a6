/** Importing neighbours.json into the node and packet tables of a Meshpoint database. */
module NeighbourImport {
  import opened Common
  import opened MeshcoreIdentity
  import opened MeshcoreNodes

  datatype RawNeighbour = RawNeighbour(
    pubkey: Option<string>, name: Option<string>, kind: Option<int>, lat: Option<int>, lon: Option<int>,
    snr: Option<int>, secsAgo: Option<int>, lastAdvert: Option<int>)

  /** A prepared row. */
  datatype Heard = Heard(pubkey: string, name: string, role: Option<RoleText>,
                         lat: Option<int>, lon: Option<int>, snr: Option<int>, time: int)

  datatype Node = Node(name: string, protocol: string, role: Option<RoleText>,
                       lat: Option<int>, lon: Option<int>, lastHeard: int, firstSeen: int, packetCount: int)

  datatype Packet = Packet(packetId: string, sourceId: string, snr: Option<int>, time: int)

  /** The two tables; `ids` are the node ids in the order a SELECT returns them. `stamp` writes a time as
      text. */
  datatype Db = Db(ids: seq<string>, nodes: map<string, Node>, packets: seq<Packet>)

  ghost predicate Valid(db: Db) {
    (forall id :: id in db.ids <==> id in db.nodes)
    && forall i, j :: 0 <= i < j < |db.ids| ==> db.ids[i] != db.ids[j]
  }

  // ---------------------------------------------------------------- preparing the rows

  /** `_clamp_future` */
  function ClampFuture(t: int, now: int): (r: int)
    ensures r <= now + 120
    ensures t <= now + 120 ==> r == t
  {
    if t > now + 120 then now else t
  }

  function HeardAt(n: RawNeighbour, now: int): int {
    var claimed := if n.secsAgo.Some? then Some(now - n.secsAgo.value) else IsoFromUnix(n.lastAdvert);
    ClampFuture(GetOr(claimed, now), now)
  }

  function Prepare(n: RawNeighbour, now: int): Option<Heard> {
    var pubkey, name := Lower(Trim(GetOr(n.pubkey, ""))), Trim(GetOr(n.name, ""));
    if pubkey == "" || name == "" then None
    else Some(Heard(pubkey, name, NeighbourRole(n.kind), n.lat, n.lon, n.snr, HeardAt(n, now)))
  }

  function Prepared(ns: seq<RawNeighbour>, now: int): seq<Heard> {
    if ns == [] then []
    else
      var h := Prepare(ns[|ns| - 1], now);
      Prepared(ns[..|ns| - 1], now) + if h.Some? then [h.value] else []
  }

  // ---------------------------------------------------------------- packets

  /** The packet id starts with the neighbour mark; the comparison ignores case. */
  predicate IsSynthetic(packetId: string) { "nb:" <= Lower(packetId) }

  /** The packet id starts with the mark and this node id; the id is taken to have no wildcard characters. */
  predicate IsSyntheticOf(packetId: string, id: string) { Lower("nb:" + id + ":") <= Lower(packetId) }

  function Without(ps: seq<Packet>, ids: set<string>): seq<Packet> {
    if ps == [] then []
    else
      var p := ps[|ps| - 1];
      Without(ps[..|ps| - 1], ids)
      + if exists id :: id in ids && IsSyntheticOf(p.packetId, id) then [] else [p]
  }

  function Captured(ps: seq<Packet>): seq<Packet> {
    if ps == [] then []
    else
      Captured(ps[..|ps| - 1]) + if IsSynthetic(ps[|ps| - 1].packetId) then [] else [ps[|ps| - 1]]
  }

  /** The latest time of a captured packet from this node. */
  function NewestCaptured(ps: seq<Packet>, id: string): Option<int> {
    if ps == [] then None
    else
      var before, p := NewestCaptured(ps[..|ps| - 1], id), ps[|ps| - 1];
      if p.sourceId != id || IsSynthetic(p.packetId) then before
      else Some(if before.None? || p.time > before.value then p.time else before.value)
  }

  function SyntheticPacket(id: string, h: Heard, stamp: int -> string): Packet {
    Packet("nb:" + id + ":" + stamp(h.time), id, h.snr, h.time)
  }

  function StepPackets(ps: seq<Packet>, id: string, h: Heard, stamp: int -> string): seq<Packet> {
    if h.snr.None? then ps else Without(ps, {id}) + [SyntheticPacket(id, h, stamp)]
  }

  // ---------------------------------------------------------------- nodes

  function NewNode(h: Heard): Node {
    Node(h.name, "meshcore", h.role, h.lat, h.lon, h.time, h.time, 0)
  }

  /** The time a matched row ends with: the fresh one, but never below a captured packet. */
  function Anchored(time: int, newest: Option<int>): int {
    if newest.Some? && newest.value > time then newest.value else time
  }

  function Updated(n: Node, h: Heard, newest: Option<int>): Node {
    n.(role := h.role, name := h.name, lat := OrElse(h.lat, n.lat), lon := OrElse(h.lon, n.lon),
       lastHeard := Anchored(h.time, newest))
  }

  function Upserted(prior: Option<Node>, h: Heard, newest: Option<int>): Node {
    if prior.None? then NewNode(h) else Updated(prior.value, h, newest)
  }

  function LookupNode(db: Db, id: string): Option<Node> {
    if id in db.nodes then Some(db.nodes[id]) else None
  }

  /** First eight characters of an existing MeshCore node id, lower-cased, to that id. */
  function PrefixMap(ids: seq<string>, nodes: map<string, Node>): map<string, string> {
    if ids == [] then map[]
    else
      var id, before := ids[|ids| - 1], PrefixMap(ids[..|ids| - 1], nodes);
      if id in nodes && nodes[id].protocol == "meshcore" then before[Lower(Prefix(id, 8)) := id] else before
  }

  function Target(prefixes: map<string, string>, h: Heard): string {
    if h.pubkey in prefixes && prefixes[h.pubkey] != "" then prefixes[h.pubkey] else h.pubkey
  }

  function Step(db: Db, id: string, h: Heard, stamp: int -> string): Db {
    Db(if id in db.nodes then db.ids else db.ids + [id],
       db.nodes[id := Upserted(LookupNode(db, id), h, NewestCaptured(db.packets, id))],
       StepPackets(db.packets, id, h, stamp))
  }

  function Steps(db: Db, prefixes: map<string, string>, hs: seq<Heard>, stamp: int -> string): Db {
    if hs == [] then db
    else
      var h := hs[|hs| - 1];
      Step(Steps(db, prefixes, hs[..|hs| - 1], stamp), Target(prefixes, h), h, stamp)
  }

  /** `import_neighbours`, as a function of the tables and the clock. */
  function Import(db: Db, hs: seq<Heard>, stamp: int -> string): Db {
    Steps(db, PrefixMap(db.ids, db.nodes), hs, stamp)
  }

  class MeshpointDb {
    var db: Db

    constructor (db: Db)
      ensures this.db == db
    {
      this.db := db;
    }

    /** The rows of the file, prepared. */
    method PrepareRows(ns: seq<RawNeighbour>, now: int) returns (rows: seq<Heard>)
      ensures rows == Prepared(ns, now)
    {
      hide Prepare;
      rows := [];
      var i := 0;
      assert ns[..|ns|] == ns;
      while i < |ns|
        invariant 0 <= i <= |ns| && rows == Prepared(ns[..i], now)
      {
        var h := Prepare(ns[i], now);
        assert ns[..i + 1][..i] == ns[..i];
        if h.Some? {
          rows := rows + [h.value];
        }
        i := i + 1;
      }
    }

    /** The prefixes of the MeshCore nodes the table holds. */
    method BuildPrefixMap() returns (prefixes: map<string, string>)
      ensures prefixes == PrefixMap(db.ids, db.nodes)
    {
      prefixes := map[];
      var i := 0;
      assert db.ids[..|db.ids|] == db.ids;
      while i < |db.ids|
        invariant 0 <= i <= |db.ids| && prefixes == PrefixMap(db.ids[..i], db.nodes)
      {
        var id := db.ids[i];
        assert db.ids[..i + 1][..i] == db.ids[..i];
        if id in db.nodes && db.nodes[id].protocol == "meshcore" {
          prefixes := prefixes[Lower(Prefix(id, 8)) := id];
        }
        i := i + 1;
      }
    }

    method ImportNeighbours(ns: seq<RawNeighbour>, now: int, stamp: int -> string, dryRun: bool)
      modifies this
      ensures db == if dryRun then old(db) else Import(old(db), Prepared(ns, now), stamp)
    {
      hide Step, Prepared, PrefixMap, Target;
      var rows := PrepareRows(ns, now);
      if dryRun {
        return;
      }
      var prefixes := BuildPrefixMap();
      var i := 0;
      assert rows[..|rows|] == rows;
      while i < |rows|
        invariant 0 <= i <= |rows|
        invariant db == Steps(old(db), prefixes, rows[..i], stamp)
      {
        assert rows[..i + 1][..i] == rows[..i];
        db := Step(db, Target(prefixes, rows[i]), rows[i], stamp);
        i := i + 1;
      }
    }
  }
}
