/** Which field of a message ends in which column of the radar's node table: by message, and over whole runs. */
module RadarColumns {
  import opened Common
  import opened RadarStore
  import opened RadarHistory

  /** Present and not blank. */
  predicate Said(s: Option<string>) { s.Some? && s.value != "" }

  /** A text column after a message that offers `said` for it: that text, or what was there if it says nothing. */
  predicate Told(said: Option<string>, before: Option<string>, after: Option<string>) {
    if Said(said) then after == said else after == before || (!Said(before) && !Said(after))
  }

  /** Rows are keyed by the id without one leading "!". */
  predicate Writes(id: Option<string>, bare: string) {
    Said(id) && (id.value == "!" + bare || (id.value == bare && (bare == "" || bare[0] != '!')))
  }

  predicate NamesPacket(p: PacketMsg, k: Key) { p.device == k.0 && Writes(p.sourceId, k.1) }

  predicate NamesEntry(device: string, e: NodeEntry, k: Key) { device == k.0 && Writes(e.nodeId, k.1) }

  lemma WritesIsStrip(id: Option<string>, bare: string)
    ensures Writes(id, bare) <==> NonBlank(id).Some? && Strip(id.value) == bare
  {
    if Said(id) && Strip(id.value) == bare && Bang(id.value) {
      assert id.value == "!" + bare;
    }
    if Said(id) && id.value == "!" + bare {
      assert Strip(id.value) == bare;
    }
  }

  const NOBODY := Row(None, None, None, None, None, None, None, None, None, None, None, None, None, None, None,
                      None, None, 0)

  function Was(nodes: map<Key, Row>, k: Key): Row { if k in nodes then nodes[k] else NOBODY }

  predicate IsReading(name: string) {
    name == "battery_level" || name == "voltage" || name == "channel_utilization" || name == "air_util_tx"
    || name == "uptime_seconds" || name == "temperature" || name == "humidity" || name == "barometric_pressure"
  }

  /** The readings of a telemetry packet under the eight names, if it has any, replace those of the row. */
  ghost predicate ReadingsTold(p: PacketMsg, was: Row, r: Row) {
    if p.packetType == "telemetry" && exists n: string :: n in p.payload.readings && IsReading(n) then
      r.telemetry.Some?
      && forall n: string :: (n in r.telemetry.value <==> n in p.payload.readings && IsReading(n))
                             && (n in r.telemetry.value ==> r.telemetry.value[n] == p.payload.readings[n])
    else r.telemetry == was.telemetry
  }

  /** Only a nodeinfo packet names a node. */
  predicate IdentityTold(p: PacketMsg, was: Row, r: Row) {
    if p.packetType == "nodeinfo" then
      Told(p.payload.longName, was.longName, r.longName) && Told(p.payload.shortName, was.shortName, r.shortName)
      && Told(p.payload.role, was.role, r.role) && Told(p.payload.publicKey, was.publicKey, r.publicKey)
      && Told(if Said(p.payload.hwModel) then p.payload.hwModel else p.payload.hardwareModel, was.hardware, r.hardware)
    else
      r.longName == was.longName && r.shortName == was.shortName && r.role == was.role
      && r.publicKey == was.publicKey && r.hardware == was.hardware
  }

  /** The name shown: the long name, else the short one, else what was shown, else "!" and the id. */
  predicate NameTold(p: PacketMsg, id: string, known: bool, was: Row, r: Row) {
    r.displayName == if p.packetType == "nodeinfo" && Said(p.payload.longName) then p.payload.longName
                     else if p.packetType == "nodeinfo" && Said(p.payload.shortName) then p.payload.shortName
                     else if known then was.displayName else Some("!" + id)
  }

  /** What row `r` of node `id` says after packet `p`, where `was` is the row before, if it was `known`. */
  ghost predicate PacketTold(p: PacketMsg, now: int, id: string, known: bool, was: Row, r: Row) {
    IdentityTold(p, was, r) && NameTold(p, id, known, was, r) && ReadingsTold(p, was, r)
    && r.firmware == was.firmware
    && r.latitude == was.latitude && r.longitude == was.longitude && r.altitude == was.altitude
    && r.signal == p.signal && r.updatedAt == now
    && var heard := if p.timestamp.Some? then p.timestamp.value else now;
       if known then
         r.protocol == was.protocol && r.firstSeen == was.firstSeen && r.hasPosition == was.hasPosition
         && r.packetCount == (if was.packetCount.None? then None else Some(was.packetCount.value + 1))
         && r.lastHeard == (if was.lastHeard.None? then None
                            else Some(if heard >= was.lastHeard.value then heard else was.lastHeard.value))
       else
         r.protocol == p.protocol && r.firstSeen == Some(heard) && r.lastHeard == Some(heard)
         && r.hasPosition == Some(0) && r.packetCount == Some(1)
  }

  /** The same for a heartbeat entry. */
  predicate EntryTold(e: NodeEntry, now: int, known: bool, was: Row, r: Row) {
    Told(e.longName, was.longName, r.longName) && Told(e.shortName, was.shortName, r.shortName)
    && Told(e.hardware, was.hardware, r.hardware) && Told(e.firmware, was.firmware, r.firmware)
    && Told(e.protocol, was.protocol, r.protocol) && Told(e.role, was.role, r.role)
    && Told(e.publicKey, was.publicKey, r.publicKey)
    && r.latitude == (if e.latitude.Some? then e.latitude else was.latitude)
    && r.longitude == (if e.longitude.Some? then e.longitude else was.longitude)
    && r.altitude == (if e.altitude.Some? then e.altitude else was.altitude)
    && r.lastHeard == e.lastHeard && r.packetCount == e.packetCount && r.hasPosition == e.hasPosition
    && r.firstSeen == (if known then was.firstSeen else e.firstSeen)
    && r.displayName == (if !known then e.displayName
                         else if Said(e.longName) then e.longName
                         else if Said(e.shortName) then e.shortName else was.displayName)
    && r.signal == (if e.latestSignal.Some? then e.latestSignal else Some("null"))
    && r.telemetry == (if e.latestTelemetry.Some? && e.latestTelemetry.value != map[] then e.latestTelemetry
                       else was.telemetry)
    && r.updatedAt == now
  }

  // ---------------------------------------------------------------- one message

  /** Every other row is as it was. */
  ghost predicate OnlyRow(before: map<Key, Row>, after: map<Key, Row>, k: Key) {
    k in after && forall j :: j != k ==> (j in after <==> j in before) && (j in before ==> after[j] == before[j])
  }

  lemma ApplyOne(nodes: map<Key, Row>, ev: Event)
    ensures var after := ApplyAll(nodes, [ev]);
            OnlyRow(nodes, after, ev.key)
            && after[ev.key] == if ev.key in nodes then Update(nodes[ev.key], ev.touch)
                                else Insert(ev.key.1, ev.touch)
  {
    hide Insert, Update;
    assert [ev][..0] == [];
    assert ApplyAll(nodes, [ev]) == Apply(nodes, ev);
  }

  lemma EntryEvent(device: string, e: NodeEntry, now: int, k: Key)
    ensures NamesEntry(device, e, k) ==> EntryEvents(device, [e], now) == [Event(k, ByEntry(e, now))]
    ensures !NamesEntry(device, e, k) ==>
              forall ev :: ev in EntryEvents(device, [e], now) ==> ev.key != k
    ensures |EntryEvents(device, [e], now)| <= 1
  {
    WritesIsStrip(e.nodeId, k.1);
    EntryEventsOne(device, e, now);
  }

  /** What touches other keys leaves this row alone. */
  lemma {:induction false} OtherKeys(nodes: map<Key, Row>, evs: seq<Event>, k: Key)
    requires forall ev :: ev in evs ==> ev.key != k
    ensures SameRow(nodes, ApplyAll(nodes, evs), k)
  {
    hide Insert, Update;
    if evs != [] { OtherKeys(nodes, evs[..|evs| - 1], k); }
  }

  ghost predicate SameRow(a: map<Key, Row>, b: map<Key, Row>, k: Key) {
    (k in a <==> k in b) && (k in a && k in b ==> a[k] == b[k])
  }

  lemma SameRowOn(a: map<Key, Row>, b: map<Key, Row>, c: map<Key, Row>, k: Key)
    requires SameRow(a, b, k) && SameRow(b, c, k)
    ensures SameRow(a, c, k)
  {
  }

  lemma PacketEvent(p: PacketMsg, now: int, k: Key)
    ensures EventsIn(Packet(p, now))
         == if NonBlank(p.sourceId).Some? then [Event((p.device, Strip(p.sourceId.value)), ByPacket(p, now))] else []
    ensures NamesPacket(p, k) ==> EventsIn(Packet(p, now)) == [Event(k, ByPacket(p, now))]
  {
    WritesIsStrip(p.sourceId, k.1);
  }

  lemma TelemetryOfPacket(p: PacketMsg, now: int, was: Row, r: Row)
    requires r.telemetry == OrElse(TelemetryIn(ByPacket(p, now)), was.telemetry)
    ensures ReadingsTold(p, was, r)
  {
    var kept := map n | n in p.payload.readings && n in TELEMETRY_FIELDS :: p.payload.readings[n];
    assert forall n :: n in kept <==> n in p.payload.readings && IsReading(n);
    if n :| n in p.payload.readings && IsReading(n) { assert n in kept; }
  }

  lemma InsertedByPacket(p: PacketMsg, now: int, id: string)
    ensures PacketTold(p, now, id, false, NOBODY, Insert(id, ByPacket(p, now)))
  {
    TelemetryOfPacket(p, now, NOBODY, Insert(id, ByPacket(p, now)));
    hide TelemetryIn, ReadingsTold;
  }

  lemma UpdatedByPacket(p: PacketMsg, now: int, id: string, was: Row)
    ensures PacketTold(p, now, id, true, was, Update(was, ByPacket(p, now)))
  {
    TelemetryOfPacket(p, now, was, Update(was, ByPacket(p, now)));
    hide TelemetryIn, ReadingsTold;
  }

  lemma TouchedByEntry(e: NodeEntry, now: int, id: string, was: Row)
    ensures EntryTold(e, now, false, NOBODY, Insert(id, ByEntry(e, now)))
    ensures EntryTold(e, now, true, was, Update(was, ByEntry(e, now)))
  {
  }

  /** A packet changes the row of its source and no other, each column from its own field. */
  lemma PacketSets(nodes: map<Key, Row>, p: PacketMsg, now: int, k: Key)
    requires NamesPacket(p, k)
    ensures var after := ApplyAll(nodes, EventsIn(Packet(p, now)));
            OnlyRow(nodes, after, k) && PacketTold(p, now, k.1, k in nodes, Was(nodes, k), after[k])
  {
    hide PacketTold, Insert, Update, Apply, ApplyAll, OnlyRow, EventsIn, NamesPacket;
    PacketEvent(p, now, k);
    ApplyOne(nodes, Event(k, ByPacket(p, now)));
    InsertedByPacket(p, now, k.1);
    if k in nodes { UpdatedByPacket(p, now, k.1, nodes[k]); }
  }

  /** So does a heartbeat entry. */
  lemma EntrySets(nodes: map<Key, Row>, device: string, e: NodeEntry, now: int, k: Key)
    requires NamesEntry(device, e, k)
    ensures var after := ApplyAll(nodes, EntryEvents(device, [e], now));
            OnlyRow(nodes, after, k) && EntryTold(e, now, k in nodes, Was(nodes, k), after[k])
  {
    hide EntryTold, Insert, Update, Apply, ApplyAll, OnlyRow, EntryEvents, NamesEntry;
    EntryEvent(device, e, now, k);
    ApplyOne(nodes, Event(k, ByEntry(e, now)));
    TouchedByEntry(e, now, k.1, Was(nodes, k));
  }

  // ---------------------------------------------------------------- messages about other nodes

  ghost predicate Names(m: Message, k: Key) {
    match m
    case Packet(p, _) => NamesPacket(p, k)
    case Heartbeat(device, es, _) => exists i :: 0 <= i < |es| && NamesEntry(device, es[i], k)
  }

  lemma NoEntries(nodes: map<Key, Row>, device: string, now: int, k: Key)
    ensures SameRow(nodes, ApplyAll(nodes, EntryEvents(device, [], now)), k)
  {
  }

  lemma {:induction false} OtherEntries(nodes: map<Key, Row>, device: string, es: seq<NodeEntry>, now: int, k: Key)
    requires forall i :: 0 <= i < |es| ==> !NamesEntry(device, es[i], k)
    ensures SameRow(nodes, ApplyAll(nodes, EntryEvents(device, es, now)), k)
  {
    hide NamesEntry, ApplyAll, EntryEvents, SameRow;
    if es == [] {
      NoEntries(nodes, device, now, k);
    } else {
      var n := |es| - 1;
      var mid := ApplyAll(nodes, EntryEvents(device, es[..n], now));
      OtherEntries(nodes, device, es[..n], now, k);
      OneMoreEntry(nodes, device, es[..n], es[n], now);
      assert es[..n] + [es[n]] == es;
      OtherEntry(mid, device, es[n], now, k);
      SameRowOn(nodes, mid, ApplyAll(nodes, EntryEvents(device, es, now)), k);
    }
  }

  lemma OneMoreEntry(nodes: map<Key, Row>, device: string, es: seq<NodeEntry>, e: NodeEntry, now: int)
    ensures ApplyAll(nodes, EntryEvents(device, es + [e], now))
         == ApplyAll(ApplyAll(nodes, EntryEvents(device, es, now)), EntryEvents(device, [e], now))
  {
    assert (es + [e])[..|es|] == es;
    EntryEventsOne(device, e, now);
    ApplyAllConcat(nodes, EntryEvents(device, es, now), EntryEvents(device, [e], now));
  }

  lemma OtherEntry(nodes: map<Key, Row>, device: string, e: NodeEntry, now: int, k: Key)
    requires !NamesEntry(device, e, k)
    ensures SameRow(nodes, ApplyAll(nodes, EntryEvents(device, [e], now)), k)
  {
    hide ApplyAll, EntryEvents, SameRow, NamesEntry;
    EntryEvent(device, e, now, k);
    OtherKeys(nodes, EntryEvents(device, [e], now), k);
  }

  lemma OtherMessage(nodes: map<Key, Row>, m: Message, k: Key)
    requires !Names(m, k)
    ensures SameRow(nodes, ApplyAll(nodes, EventsIn(m)), k)
  {
    match m
    case Packet(p, now) =>
      hide ApplyAll, SameRow;
      WritesIsStrip(p.sourceId, k.1);
      PacketEvent(p, now, k);
      OtherKeys(nodes, EventsIn(m), k);
    case Heartbeat(device, es, now) => OtherEntries(nodes, device, es, now, k);
  }

  // ---------------------------------------------------------------- a heartbeat, and whole runs

  /** A heartbeat leaves in a row what the last of its entries about that node says. */
  lemma HeartbeatSets(nodes: map<Key, Row>, device: string, es: seq<NodeEntry>, now: int, n: nat, k: Key)
    requires n < |es| && NamesEntry(device, es[n], k)
    requires forall i :: n < i < |es| ==> !NamesEntry(device, es[i], k)
    ensures var (mid, after) := (ApplyAll(nodes, EventsIn(Heartbeat(device, es[..n], now))),
                                 ApplyAll(nodes, EventsIn(Heartbeat(device, es, now))));
            k in after && EntryTold(es[n], now, k in mid, Was(mid, k), after[k])
    decreases |es|
  {
    hide NamesEntry, EntryTold, ApplyAll, EntryEvents;
    var last := |es| - 1;
    assert es == es[..last] + [es[last]];
    OneMoreEntry(nodes, device, es[..last], es[last], now);
    var before := ApplyAll(nodes, EntryEvents(device, es[..last], now));
    if n == last {
      EntrySets(before, device, es[n], now, k);
    } else {
      assert es[..last][..n] == es[..n];
      HeartbeatSets(nodes, device, es[..last], now, n, k);
      OtherEntry(before, device, es[last], now, k);
    }
  }

  lemma RunSnoc(ms: seq<Message>, m: Message)
    ensures Run(ms + [m]) == ApplyAll(Run(ms), EventsIn(m))
  {
    hide EventsIn;
    assert (ms + [m])[..|ms|] == ms;
    ApplyAllConcat(map[], EventsOf(ms), EventsIn(m));
  }

  lemma {:induction false} QuietRun(ms: seq<Message>, rest: seq<Message>, k: Key)
    requires forall i :: 0 <= i < |rest| ==> !Names(rest[i], k)
    ensures SameRow(Run(ms), Run(ms + rest), k)
    decreases |rest|
  {
    hide Run, Names;
    if rest == [] {
      assert ms + rest == ms;
    } else {
      var n := |rest| - 1;
      QuietRun(ms, rest[..n], k);
      assert ms + rest == (ms + rest[..n]) + [rest[n]];
      RunSnoc(ms + rest[..n], rest[n]);
      OtherMessage(Run(ms + rest[..n]), rest[n], k);
    }
  }

  /** Over every run: what the row says when a packet was the last message about its node. */
  lemma LastPacketTold(ms: seq<Message>, p: PacketMsg, now: int, rest: seq<Message>, k: Key)
    requires NamesPacket(p, k) && forall i :: 0 <= i < |rest| ==> !Names(rest[i], k)
    ensures var all := ms + [Packet(p, now)] + rest;
            k in Run(all) && PacketTold(p, now, k.1, k in Run(ms), Was(Run(ms), k), Run(all)[k])
  {
    hide Run, Names, NamesPacket, PacketTold, EventsIn, ApplyAll;
    RunSnoc(ms, Packet(p, now));
    PacketSets(Run(ms), p, now, k);
    QuietRun(ms + [Packet(p, now)], rest, k);
  }

  /** And when entry n of a heartbeat was. */
  lemma LastEntryTold(ms: seq<Message>, device: string, es: seq<NodeEntry>, now: int, n: nat, rest: seq<Message>,
                      k: Key)
    requires n < |es| && NamesEntry(device, es[n], k)
    requires forall i :: n < i < |es| ==> !NamesEntry(device, es[i], k)
    requires forall i :: 0 <= i < |rest| ==> !Names(rest[i], k)
    ensures var (mid, all) := (ms + [Heartbeat(device, es[..n], now)], ms + [Heartbeat(device, es, now)] + rest);
            k in Run(all) && EntryTold(es[n], now, k in Run(mid), Was(Run(mid), k), Run(all)[k])
  {
    hide Run, Names, NamesEntry, EntryTold, EventsIn, ApplyAll;
    RunSnoc(ms, Heartbeat(device, es, now));
    RunSnoc(ms, Heartbeat(device, es[..n], now));
    HeartbeatSets(Run(ms), device, es, now, n, k);
    QuietRun(ms + [Heartbeat(device, es, now)], rest, k);
  }
}
