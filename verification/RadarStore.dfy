/** The node table of the local radar server: the two upserts that feed it, and what a whole run of
    packet and heartbeat messages leaves in each row. Columns are optional because SQL's are nullable;
    times are integers; JSON columns hold the value they serialise. */
module RadarStore {
  import opened Common

  type Key = (string, string)         // device_id, node_id
  type Readings = map<string, int>

  datatype Row = Row(
    protocol: Option<string>, longName: Option<string>, shortName: Option<string>,
    hardware: Option<string>, firmware: Option<string>, role: Option<string>, publicKey: Option<string>,
    latitude: Option<int>, longitude: Option<int>, altitude: Option<int>,
    lastHeard: Option<int>, firstSeen: Option<int>, packetCount: Option<int>,
    displayName: Option<string>, hasPosition: Option<int>,
    signal: Option<string>, telemetry: Option<Readings>, updatedAt: int)

  datatype Payload = Payload(
    longName: Option<string>, shortName: Option<string>, hwModel: Option<string>,
    hardwareModel: Option<string>, role: Option<string>, publicKey: Option<string>, readings: Readings)

  datatype PacketMsg = PacketMsg(
    device: string, sourceId: Option<string>, protocol: Option<string>, packetType: string,
    payload: Payload, timestamp: Option<int>, signal: Option<string>)

  /** One entry of heartbeat.nodes[]. */
  datatype NodeEntry = NodeEntry(
    nodeId: Option<string>, longName: Option<string>, shortName: Option<string>,
    hardware: Option<string>, firmware: Option<string>, protocol: Option<string>,
    role: Option<string>, publicKey: Option<string>,
    latitude: Option<int>, longitude: Option<int>, altitude: Option<int>,
    lastHeard: Option<int>, firstSeen: Option<int>, packetCount: Option<int>,
    displayName: Option<string>, hasPosition: Option<int>,
    latestSignal: Option<string>, latestTelemetry: Option<Readings>)

  datatype Message =
    | Packet(packet: PacketMsg, now: int)
    | Heartbeat(device: string, nodes: seq<NodeEntry>, now: int)

  const TELEMETRY_FIELDS: set<string> :=
    {"battery_level", "voltage", "channel_utilization", "air_util_tx", "uptime_seconds", "temperature",
     "humidity", "barometric_pressure"}

  /** NULLIF(s, '') */
  function NonBlank(s: Option<string>): Option<string> {
    if s == Some("") then None else s
  }

  /** COALESCE(NULLIF(a, ''), b) */
  function Coalesce(a: Option<string>, b: Option<string>): Option<string> {
    OrElse(NonBlank(a), b)
  }

  /** The second string where the first is missing or blank; a blank result stays blank. */
  function PyOr(a: Option<string>, b: Option<string>): Option<string> {
    if NonBlank(a).Some? then a else b
  }

  predicate Bang(id: string) { |id| > 0 && id[0] == '!' }

  predicate DoubleBang(id: string) { |id| >= 2 && id[..2] == "!!" }

  function Strip(id: string): string { if Bang(id) then id[1..] else id }

  /** SQLite's two-argument MAX: NULL when either side is NULL. */
  function SqlMax(a: Option<int>, b: Option<int>): Option<int> {
    if a.None? || b.None? then None else Some(Max(a.value, b.value))
  }

  function Max(a: int, b: int): int { if a >= b then a else b }

  // ---------------------------------------------------------------- one touch of a row

  datatype Touch = ByPacket(p: PacketMsg, at: int) | ByEntry(e: NodeEntry, at: int)

  datatype TextColumn = Long | Short | Hardware | Firmware | Role | PublicKey

  function Column(r: Row, c: TextColumn): Option<string> {
    match c
    case Long => r.longName
    case Short => r.shortName
    case Hardware => r.hardware
    case Firmware => r.firmware
    case Role => r.role
    case PublicKey => r.publicKey
  }

  /** The value a touch binds for a text column; only a NODEINFO packet names a node. */
  function Bound(t: Touch, c: TextColumn): Option<string> {
    match t
    case ByPacket(p, _) =>
      if p.packetType != "nodeinfo" then None
      else (match c
            case Long => p.payload.longName
            case Short => p.payload.shortName
            case Hardware => PyOr(p.payload.hwModel, p.payload.hardwareModel)
            case Firmware => None
            case Role => p.payload.role
            case PublicKey => p.payload.publicKey)
    case ByEntry(e, _) =>
      match c
      case Long => e.longName
      case Short => e.shortName
      case Hardware => e.hardware
      case Firmware => e.firmware
      case Role => e.role
      case PublicKey => e.publicKey
  }

  function TelemetryIn(t: Touch): Option<Readings> {
    match t
    case ByPacket(p, _) =>
      var kept := map k | k in p.payload.readings && k in TELEMETRY_FIELDS :: p.payload.readings[k];
      if p.packetType == "telemetry" && kept != map[] then Some(kept) else None
    case ByEntry(e, _) =>
      if e.latestTelemetry == Some(map[]) then None else e.latestTelemetry
  }

  function Time(t: Touch): Option<int> {
    match t
    case ByPacket(p, at) => Some(GetOr(p.timestamp, at))
    case ByEntry(e, _) => e.lastHeard
  }

  /** A heartbeat without a signal writes the JSON text "null", not NULL. */
  function SignalIn(t: Touch): Option<string> {
    match t
    case ByPacket(p, _) => p.signal
    case ByEntry(e, _) => Some(GetOr(e.latestSignal, "null"))
  }

  function Position(t: Touch): (Option<int>, Option<int>, Option<int>) {
    match t
    case ByPacket(_, _) => (None, None, None)
    case ByEntry(e, _) => (e.latitude, e.longitude, e.altitude)
  }

  function NameIn(t: Touch): Option<string> {
    OrElse(NonBlank(Bound(t, Long)), NonBlank(Bound(t, Short)))
  }

  /** The INSERT ... VALUES branch. */
  function Insert(id: string, t: Touch): Row {
    var pos := Position(t);
    Row(if t.ByPacket? then t.p.protocol else t.e.protocol,
        Bound(t, Long), Bound(t, Short), Bound(t, Hardware), Bound(t, Firmware), Bound(t, Role),
        Bound(t, PublicKey), pos.0, pos.1, pos.2, Time(t),
        if t.ByPacket? then Time(t) else t.e.firstSeen,
        if t.ByPacket? then Some(1) else t.e.packetCount,
        if t.ByPacket? then OrElse(NameIn(t), Some("!" + id)) else t.e.displayName,
        if t.ByPacket? then Some(0) else t.e.hasPosition,
        SignalIn(t), TelemetryIn(t), t.at)
  }

  /** The ON CONFLICT ... DO UPDATE branch. */
  function Update(r: Row, t: Touch): Row {
    var pos := Position(t);
    Row(if t.ByPacket? then r.protocol else Coalesce(t.e.protocol, r.protocol),
        Coalesce(Bound(t, Long), r.longName), Coalesce(Bound(t, Short), r.shortName),
        Coalesce(Bound(t, Hardware), r.hardware), Coalesce(Bound(t, Firmware), r.firmware),
        Coalesce(Bound(t, Role), r.role), Coalesce(Bound(t, PublicKey), r.publicKey),
        OrElse(pos.0, r.latitude), OrElse(pos.1, r.longitude), OrElse(pos.2, r.altitude),
        if t.ByPacket? then SqlMax(Time(t), r.lastHeard) else t.e.lastHeard,
        r.firstSeen,
        if t.ByEntry? then t.e.packetCount
        else if r.packetCount.None? then None else Some(r.packetCount.value + 1),
        OrElse(NameIn(t), r.displayName),
        if t.ByPacket? then r.hasPosition else t.e.hasPosition,
        SignalIn(t), OrElse(TelemetryIn(t), r.telemetry), t.at)
  }

  datatype Event = Event(key: Key, touch: Touch)

  function Apply(nodes: map<Key, Row>, ev: Event): map<Key, Row> {
    nodes[ev.key := if ev.key in nodes then Update(nodes[ev.key], ev.touch)
                    else Insert(ev.key.1, ev.touch)]
  }

  function ApplyAll(nodes: map<Key, Row>, evs: seq<Event>): map<Key, Row> {
    if evs == [] then nodes else Apply(ApplyAll(nodes, evs[..|evs| - 1]), evs[|evs| - 1])
  }

  /** The row touches a message amounts to: none without a node id. */
  function EventsIn(m: Message): seq<Event> {
    match m
    case Packet(p, now) =>
      if NonBlank(p.sourceId).None? then []
      else [Event((p.device, Strip(p.sourceId.value)), ByPacket(p, now))]
    case Heartbeat(device, nodes, now) => EntryEvents(device, nodes, now)
  }

  function EntryEvents(device: string, nodes: seq<NodeEntry>, now: int): seq<Event> {
    if nodes == [] then []
    else
      var e := nodes[|nodes| - 1];
      EntryEvents(device, nodes[..|nodes| - 1], now)
      + if NonBlank(e.nodeId).None? then []
        else [Event((device, Strip(e.nodeId.value)), ByEntry(e, now))]
  }

  // ---------------------------------------------------------------- the server

  class RadarDb {
    var nodes: map<Key, Row>
    var packets: seq<PacketMsg>

    constructor ()
      ensures nodes == map[] && packets == []
    {
      nodes, packets := map[], [];
    }

    /** `_touch_node_from_packet` */
    method TouchNodeFromPacket(p: PacketMsg, now: int)
      modifies this`nodes
      ensures nodes == ApplyAll(old(nodes), EventsIn(Packet(p, now)))
    {
      if NonBlank(p.sourceId).None? {
        return;
      }
      var nodeId := Strip(p.sourceId.value);
      var t := ByPacket(p, now);
      if (p.device, nodeId) in nodes {
        nodes := nodes[(p.device, nodeId) := Update(nodes[(p.device, nodeId)], t)];
      } else {
        nodes := nodes[(p.device, nodeId) := Insert(nodeId, t)];
      }
    }

    /** `_upsert_node` */
    method UpsertNode(device: string, e: NodeEntry, now: int)
      modifies this`nodes
      ensures nodes == ApplyAll(old(nodes), EntryEvents(device, [e], now))
    {
      if NonBlank(e.nodeId).None? {
        return;
      }
      var nodeId := Strip(e.nodeId.value);
      var t := ByEntry(e, now);
      if (device, nodeId) in nodes {
        nodes := nodes[(device, nodeId) := Update(nodes[(device, nodeId)], t)];
      } else {
        nodes := nodes[(device, nodeId) := Insert(nodeId, t)];
      }
    }

    /** `handle_packet`: the packet is stored in any case, and the row it touched is reported back. */
    method HandlePacket(p: PacketMsg, now: int) returns (node: Option<Row>)
      modifies this
      ensures packets == old(packets) + [p]
      ensures nodes == ApplyAll(old(nodes), EventsIn(Packet(p, now)))
      ensures node.Some? <==> NonBlank(p.sourceId).Some?
      ensures node.Some? ==> var k := (p.device, Strip(p.sourceId.value)); k in nodes && node.value == nodes[k]
    {
      packets := packets + [p];
      TouchNodeFromPacket(p, now);
      if NonBlank(p.sourceId).None? {
        return None;
      }
      node := Some(nodes[(p.device, Strip(p.sourceId.value))]);
    }

    /** `handle_heartbeat` */
    method HandleHeartbeat(device: string, incoming: seq<NodeEntry>, now: int)
      modifies this`nodes
      ensures nodes == ApplyAll(old(nodes), EventsIn(Heartbeat(device, incoming, now)))
    {
      var i := 0;
      assert incoming[..|incoming|] == incoming;
      while i < |incoming|
        invariant 0 <= i <= |incoming|
        invariant nodes == ApplyAll(old(nodes), EntryEvents(device, incoming[..i], now))
      {
        var e := incoming[i];
        ghost var before := EntryEvents(device, incoming[..i], now);
        UpsertNode(device, e, now);
        ApplyAllConcat(old(nodes), before, EntryEvents(device, [e], now));
        EntryEventsOne(device, e, now);
        assert incoming[..i + 1][..i] == incoming[..i];
        i := i + 1;
      }
    }
  }

  lemma EntryEventsOne(device: string, e: NodeEntry, now: int)
    ensures EntryEvents(device, [e], now)
         == if NonBlank(e.nodeId).None? then []
            else [Event((device, Strip(e.nodeId.value)), ByEntry(e, now))]
  {
  }

  lemma {:induction false} ApplyAllConcat(nodes: map<Key, Row>, a: seq<Event>, b: seq<Event>)
    ensures ApplyAll(nodes, a + b) == ApplyAll(ApplyAll(nodes, a), b)
    decreases |b|
  {
    if b == [] {
      assert a + b == a;
    } else {
      assert (a + b)[..|a + b| - 1] == a + b[..|b| - 1];
      ApplyAllConcat(nodes, a, b[..|b| - 1]);
    }
  }
}
