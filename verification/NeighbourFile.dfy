/** What a neighbours file leaves in the tables, said of its entries as they stand in the file. */
module NeighbourFile {
  import opened Common
  import opened MeshcoreIdentity
  import opened MeshcoreNodes
  import opened NeighbourImport
  import opened NeighbourLaws

  function KeyText(n: RawNeighbour): string { Lower(Trim(GetOr(n.pubkey, ""))) }

  function NameText(n: RawNeighbour): string { Trim(GetOr(n.name, "")) }

  /** Only entries with a key and a name are imported. */
  predicate Usable(n: RawNeighbour) { KeyText(n) != "" && NameText(n) != "" }

  /** The time of an entry: so many seconds before now if it says how many, whatever the node itself claims; if it does
      not say, the node's own time; and now, if that is more than two minutes ahead or does not convert. */
  predicate TimeIs(n: RawNeighbour, now: int, t: int) {
    if n.secsAgo.Some? then t == if n.secsAgo.value >= -120 then now - n.secsAgo.value else now
    else if n.lastAdvert.Some? && -62135596800 <= n.lastAdvert.value < 253402300800
            && n.lastAdvert.value <= now + 120 then t == n.lastAdvert.value
    else t == now
  }

  predicate RoleIs(kind: Option<int>, role: Option<RoleText>) {
    role == if kind == Some(0) then None
            else if kind == Some(1) then Some(Named("CLIENT"))
            else if kind == Some(3) then Some(Named("ROOMSERVER"))
            else if kind == Some(4) then Some(Named("SENSOR"))
            else Some(Named("REPEATER"))
  }

  /** The record of an entry carries the entry's own values. */
  lemma PreparedTells(n: RawNeighbour, now: int)
    ensures Prepare(n, now).Some? <==> Usable(n)
    ensures Usable(n) ==>
              var h := Prepare(n, now).value;
              TimeIs(n, now, h.time) && RoleIs(n.kind, h.role)
              && h.pubkey == KeyText(n) && h.name == NameText(n)
              && h.lat == n.lat && h.lon == n.lon && h.snr == n.snr
  {
    hide Lower, Trim;
  }

  // ---------------------------------------------------------------- which row an entry is about

  /** The id at place j of the node table is a MeshCore id that starts with this key. */
  predicate StartsWith(ids: seq<string>, nodes: map<string, Node>, j: int, key: string) {
    0 <= j < |ids| && ids[j] in nodes && nodes[ids[j]].protocol == "meshcore" && Lower(Prefix(ids[j], 8)) == key
  }

  ghost predicate IsLastStart(ids: seq<string>, nodes: map<string, Node>, j: int, key: string) {
    StartsWith(ids, nodes, j, key) && forall i :: j < i < |ids| ==> !StartsWith(ids, nodes, i, key)
  }

  /** The entry is about node `id`: the last MeshCore node whose id starts with its key or, if there is none, the node
      with the key itself as its id. */
  ghost predicate About(db: Db, n: RawNeighbour, id: string) {
    Usable(n)
    && if exists j :: StartsWith(db.ids, db.nodes, j, KeyText(n))
       then exists j :: IsLastStart(db.ids, db.nodes, j, KeyText(n)) && db.ids[j] == id
       else id == KeyText(n)
  }

  lemma {:induction false} PrefixMapTells(ids: seq<string>, nodes: map<string, Node>, key: string) returns (j: int)
    ensures key in PrefixMap(ids, nodes) <==> exists i :: StartsWith(ids, nodes, i, key)
    ensures key in PrefixMap(ids, nodes) ==> IsLastStart(ids, nodes, j, key) && PrefixMap(ids, nodes)[key] == ids[j]
  {
    hide Lower, Prefix;
    j := 0;
    if ids != [] {
      var n := |ids| - 1;
      j := PrefixMapTells(ids[..n], nodes, key);
      forall i
        ensures StartsWith(ids, nodes, i, key) <==> StartsWith(ids[..n], nodes, i, key)
                                                    || (i == n && StartsWith(ids, nodes, n, key))
      {
        if 0 <= i < n { assert ids[..n][i] == ids[i]; }
      }
      if StartsWith(ids, nodes, n, key) { j := n; }
    }
  }

  lemma TargetTells(db: Db, n: RawNeighbour, now: int, id: string)
    requires Usable(n) && Prepare(n, now).Some?
    ensures Target(PrefixMap(db.ids, db.nodes), Prepare(n, now).value) == id <==> About(db, n, id)
  {
    PreparedTells(n, now);
    hide Lower, Trim, PrefixMap, Prepare, StartsWith;
    var key := KeyText(n);
    var j := PrefixMapTells(db.ids, db.nodes, key);
    if key in PrefixMap(db.ids, db.nodes) {
      StartNotBlank(db.ids, db.nodes, j, key);
      forall i | IsLastStart(db.ids, db.nodes, i, key)
        ensures i == j
      {
        StartInside(db.ids, db.nodes, i, key);
        StartInside(db.ids, db.nodes, j, key);
      }
    }
  }

  lemma StartInside(ids: seq<string>, nodes: map<string, Node>, j: int, key: string)
    requires StartsWith(ids, nodes, j, key)
    ensures 0 <= j < |ids|
  {
  }

  lemma StartNotBlank(ids: seq<string>, nodes: map<string, Node>, j: int, key: string)
    requires StartsWith(ids, nodes, j, key) && key != ""
    ensures 0 <= j < |ids| && ids[j] != ""
  {
  }

  // ---------------------------------------------------------------- the records of one row

  function Records(db: Db, ns: seq<RawNeighbour>, now: int, id: string): seq<Heard> {
    NeighbourLaws.Mine(Prepared(ns, now), PrefixMap(db.ids, db.nodes), id)
  }

  lemma RecordsSnoc(db: Db, ns: seq<RawNeighbour>, n: RawNeighbour, now: int, id: string)
    ensures About(db, n, id) ==> Prepare(n, now).Some?
    ensures Records(db, ns + [n], now, id)
         == Records(db, ns, now, id) + if About(db, n, id) then [Prepare(n, now).value] else []
  {
    assert (ns + [n])[..|ns|] == ns;
    PreparedTells(n, now);
    hide Prepare, Usable, PrefixMap, About;
    var hs := Prepared(ns, now);
    AboutIsUsable(db, n, id);
    if Usable(n) {
      TargetTells(db, n, now, id);
      var h := Prepare(n, now).value;
      assert (hs + [h])[..|hs|] == hs;
    } else {
      assert hs + [] == hs;
    }
    assert Records(db, ns, now, id) + [] == Records(db, ns, now, id);
  }

  lemma AboutIsUsable(db: Db, n: RawNeighbour, id: string)
    ensures About(db, n, id) ==> Usable(n)
  {
  }

  /** Entry k is the last about node `id`. */
  ghost predicate LastAbout(db: Db, ns: seq<RawNeighbour>, id: string, k: int) {
    0 <= k < |ns| && About(db, ns[k], id) && forall i :: k < i < |ns| ==> !About(db, ns[i], id)
  }

  lemma {:induction false} RecordsEnd(db: Db, ns: seq<RawNeighbour>, now: int, id: string, k: int)
    requires LastAbout(db, ns, id, k)
    ensures Prepare(ns[k], now).Some?
    ensures var mine := Records(db, ns, now, id);
            mine != [] && mine[|mine| - 1] == Prepare(ns[k], now).value
            && mine[..|mine| - 1] == Records(db, ns[..k], now, id)
  {
    hide About, Records, Prepare;
    var n := |ns| - 1;
    assert ns == ns[..n] + [ns[n]];
    RecordsSnoc(db, ns[..n], ns[n], now, id);
    if k < n {
      assert ns[..n][..k] == ns[..k];
      RecordsEnd(db, ns[..n], now, id, k);
      assert Records(db, ns[..n], now, id) + [] == Records(db, ns[..n], now, id);
    }
  }

  lemma {:induction false} NoRecords(db: Db, ns: seq<RawNeighbour>, now: int, id: string)
    requires forall i :: 0 <= i < |ns| ==> !About(db, ns[i], id)
    ensures Records(db, ns, now, id) == []
  {
    hide About, Prepare;
    if ns != [] {
      var n := |ns| - 1;
      assert ns == ns[..n] + [ns[n]];
      RecordsSnoc(db, ns[..n], ns[n], now, id);
      NoRecords(db, ns[..n], now, id);
    }
  }

  // ---------------------------------------------------------------- from the file to the row

  /** A packet that was captured from this node, not made by an import. */
  predicate CapturedFrom(ps: seq<Packet>, i: int, id: string) {
    0 <= i < |ps| && ps[i].sourceId == id && !("nb:" <= Lower(ps[i].packetId))
  }

  lemma {:induction false} NewestTells(ps: seq<Packet>, id: string)
    ensures NewestCaptured(ps, id).None? <==> forall i :: !CapturedFrom(ps, i, id)
    ensures NewestCaptured(ps, id).Some? ==>
              (forall i :: CapturedFrom(ps, i, id) ==> ps[i].time <= NewestCaptured(ps, id).value)
              && exists i :: CapturedFrom(ps, i, id) && ps[i].time == NewestCaptured(ps, id).value
  {
    hide Lower;
    if ps != [] {
      var n := |ps| - 1;
      NewestTells(ps[..n], id);
      forall i
        ensures CapturedFrom(ps, i, id) <==> CapturedFrom(ps[..n], i, id) || (i == n && CapturedFrom(ps, n, id))
        ensures CapturedFrom(ps[..n], i, id) ==> ps[..n][i] == ps[i]
      {
      }
    }
  }

  /** The time is the one said, or that of a captured packet, whichever is later. */
  ghost predicate NotBelowCaptured(ps: seq<Packet>, id: string, said: int, heard: int) {
    heard >= said && (forall i :: CapturedFrom(ps, i, id) ==> ps[i].time <= heard)
    && (heard == said || exists i :: CapturedFrom(ps, i, id) && ps[i].time == heard)
  }

  lemma AnchoredTells(ps: seq<Packet>, id: string, said: int)
    ensures NotBelowCaptured(ps, id, said, Anchored(said, NewestCaptured(ps, id)))
  {
    hide NewestCaptured, CapturedFrom;
    NewestTells(ps, id);
  }

  lemma {:induction false} FoldedKeeps(n: Node, mine: seq<Heard>, newest: Option<int>)
    ensures var f := Folded(Some(n), mine, newest);
            f.Some? && f.value.firstSeen == n.firstSeen && f.value.protocol == n.protocol
            && f.value.packetCount == n.packetCount
  {
    if mine != [] { FoldedKeeps(n, mine[..|mine| - 1], newest); }
  }

  /** What an import leaves in the row of a node, from the last entry of the file about it: name, role and, where the
      entry has one, the position are the entry's. A row that existed keeps when it was first seen and its count, and is
      heard at the entry's time but never before a packet captured from it; a row made of one entry is heard and first
      seen at the entry's time. */
  lemma FileToRow(db: Db, ns: seq<RawNeighbour>, now: int, stamp: Stamp, id: string, k: int) returns (t: int)
    requires LastAbout(db, ns, id, k)
    ensures TimeIs(ns[k], now, t) && id in Import(db, Prepared(ns, now), stamp).nodes
    ensures var (r, e) := (Import(db, Prepared(ns, now), stamp).nodes[id], ns[k]);
            r.name == NameText(e) && RoleIs(e.kind, r.role)
            && (e.lat.Some? ==> r.lat == e.lat) && (e.lon.Some? ==> r.lon == e.lon)
            && (id in db.nodes ==>
                  NotBelowCaptured(db.packets, id, t, r.lastHeard) && r.firstSeen == db.nodes[id].firstSeen
                  && r.protocol == db.nodes[id].protocol && r.packetCount == db.nodes[id].packetCount)
            && (id !in db.nodes && (forall i :: 0 <= i < k ==> !About(db, ns[i], id)) ==>
                  r == Node(NameText(e), "meshcore", r.role, e.lat, e.lon, t, t, 0))
  {
    hide About, Prepared, Prepare, PrefixMap, Steps, NewestCaptured, NeighbourLaws.Mine, NotBelowCaptured, TimeIs,
         RoleIs, Usable, LastAbout;
    var hs, prefixes := Prepared(ns, now), PrefixMap(db.ids, db.nodes);
    var mine, newest := Records(db, ns, now, id), NewestCaptured(db.packets, id);
    LastIsUsable(db, ns, id, k);
    RecordsEnd(db, ns, now, id, k);
    PreparedTells(ns[k], now);
    var h := mine[|mine| - 1];
    t := h.time;
    ImportRow(db, prefixes, hs, stamp, id);
    FoldedPosition(LookupNode(db, id), mine, newest);
    AnchoredTells(db.packets, id, t);
    if id in db.nodes { FoldedKeeps(db.nodes[id], mine, newest); }
    if forall i :: 0 <= i < k ==> !About(db, ns[i], id) {
      forall i | 0 <= i < k ensures !About(db, ns[..k][i], id) { assert ns[..k][i] == ns[i]; }
      NoRecords(db, ns[..k], now, id);
      assert mine == mine[..|mine| - 1] + [h];
    }
  }

  lemma LastIsUsable(db: Db, ns: seq<RawNeighbour>, id: string, k: int)
    requires LastAbout(db, ns, id, k)
    ensures 0 <= k < |ns| && Usable(ns[k])
  {
  }

  /** A node the file says nothing about keeps its row, or stays unknown. */
  lemma OthersStay(db: Db, ns: seq<RawNeighbour>, now: int, stamp: Stamp, id: string)
    requires forall i :: 0 <= i < |ns| ==> !About(db, ns[i], id)
    ensures var after := Import(db, Prepared(ns, now), stamp);
            (id in after.nodes <==> id in db.nodes) && (id in db.nodes ==> after.nodes[id] == db.nodes[id])
  {
    hide About, Prepared, PrefixMap, Steps, NewestCaptured, NeighbourLaws.Mine;
    NoRecords(db, ns, now, id);
    ImportRow(db, PrefixMap(db.ids, db.nodes), Prepared(ns, now), stamp, id);
  }

  /** Entry k is the last about node `id` that carries a signal. */
  ghost predicate LastSignalled(db: Db, ns: seq<RawNeighbour>, id: string, k: int) {
    0 <= k < |ns| && About(db, ns[k], id) && ns[k].snr.Some?
    && forall i :: k < i < |ns| ==> !(About(db, ns[i], id) && ns[i].snr.Some?)
  }

  lemma {:induction false} SignalEnd(db: Db, ns: seq<RawNeighbour>, now: int, id: string, k: int)
    requires LastSignalled(db, ns, id, k)
    ensures Prepare(ns[k], now).Some? && LastSignal(Records(db, ns, now, id)) == Some(Prepare(ns[k], now).value)
  {
    hide About, Records, Prepare, Usable;
    var n := |ns| - 1;
    var mine := Records(db, ns[..n], now, id);
    assert ns == ns[..n] + [ns[n]];
    RecordsSnoc(db, ns[..n], ns[n], now, id);
    if About(db, ns[n], id) {
      AboutIsUsable(db, ns[n], id);
      PreparedTells(ns[n], now);
      assert (mine + [Prepare(ns[n], now).value])[..|mine|] == mine;
    } else {
      assert mine + [] == mine;
    }
    if k < n { SignalEnd(db, ns[..n], now, id, k); }
  }

  /** The one synthetic packet of a node carries the signal and the time of the last entry about it that has a
      signal. */
  lemma FileToPacket(db: Db, ns: seq<RawNeighbour>, now: int, stamp: Stamp, id: string, k: int) returns (t: int)
    requires HexKeys(db, Prepared(ns, now)) && IsHex(id) && LastSignalled(db, ns, id, k)
    ensures TimeIs(ns[k], now, t)
    ensures SyntheticsOf(Import(db, Prepared(ns, now), stamp).packets, id)
         == [Packet("nb:" + id + ":" + stamp(t), id, ns[k].snr, t)]
  {
    hide About, Prepared, Prepare, PrefixMap, Import, NeighbourLaws.Mine, TimeIs, Usable, HexKeys, IsHex, SyntheticsOf;
    SignalEnd(db, ns, now, id, k);
    AboutIsUsable(db, ns[k], id);
    PreparedTells(ns[k], now);
    OneSyntheticEach(db, Prepared(ns, now), stamp, id);
    t := Prepare(ns[k], now).value.time;
  }
}
