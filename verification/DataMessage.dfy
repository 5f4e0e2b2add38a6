/** The outer Data message: port number, payload, and the decoder the payload is handed to; and the
    laws of the decoders as a whole. */
module DataMessage {
  import opened Common
  import opened Wire
  import opened DecoderRun
  import opened Fields
  import opened Meshtastic
  import opened MeshtasticNested

  const KNOWN_PORTS: set<nat> :=
    {1, 2, 3, 4, 5, 6, 8, 10, 34, 64, 65, 66, 67, 68, 69, 70, 71, 72, 73, 74, 75}

  datatype Body =
    | Nothing
    | Text(text: Bytes)
    | PositionBody(position: Position)
    | WaypointBody(waypoint: Waypoint)
    | StoreForwardBody(sf: StoreForward)
    | TelemetryBody(metrics: seq<Metrics>)
    | TracerouteBody(traceroute: Traceroute)
    | NeighborBody(neighbors: NeighborInfo)
    | Undecoded(payload: Bytes)              // ports 4, 5, 34 and 73: decoders that are not modelled
    | Hex(shown: Bytes, size: nat)           // every other known port: at most 24 bytes are shown

  /** Not a Meshtastic message (or the wrong key), or the port with what its payload decodes to. */
  datatype DataResult = Rejected | Accepted(port: nat, body: Body)

  function BodyOf(port: nat, p: Bytes): Body {
    match port
    case 1 | 10 | 66 => Text(p)
    case 3 => PositionBody(PositionOf(Read(p)))
    case 8 => WaypointBody(WaypointOf(Read(p)))
    case 65 => StoreForwardBody(StoreForwardOf(Read(p)))
    case 67 => TelemetryBody(TelemetryOf(Read(p)))
    case 70 => TracerouteBody(TracerouteOf(Read(p)))
    case 71 => NeighborBody(NeighborInfoOf(Read(p)))
    case 4 | 5 | 34 | 73 => Undecoded(p)
    case _ => Hex(if |p| < 24 then p else p[..24], |p|)
  }

  function DataOf(fs: seq<Field>): DataResult { DataFrom(UintOrZero(fs, 1), LastBody(fs, 2)) }

  function DataFrom(port: nat, payload: Option<Bytes>): DataResult {
    if port !in KNOWN_PORTS then Rejected
    else if payload.None? || payload.value == [] then Accepted(port, Nothing)
    else Accepted(port, BodyOf(port, payload.value))
  }

  /** The loops over the payload end, as far as the decoder of its port reads it. */
  ghost predicate PayloadEnds(port: nat, p: Bytes) {
    (port in {3, 8, 65, 67, 70, 71} ==> LoopEnds(p))
    && (port == 8 ==> Backs(p) !! {2, 3})
    && (port == 65 ==> BodiesEnd(Read(p), {3, 5}))
    && (port == 67 ==> BodiesEnd(Read(p), METRIC_FIELDS))
    && (port == 71 ==> BodiesEnd(Read(p), {4}))
  }

  /** The loop over the message ends, that over its payload too, and the payload's length is not negative. */
  ghost predicate DataEnds(d: Bytes) {
    LoopEnds(d) && 2 !in Backs(d)
    && (LastBody(Read(d), 2).Some? ==> PayloadEnds(UintOrZero(Read(d), 1), LastBody(Read(d), 2).value))
  }

  method DecodeBody(port: nat, p: Bytes) returns (b: Body)
    requires PayloadEnds(port, p)
    ensures b == BodyOf(port, p)
  {
    hide Read, BodiesEnd, Backs, LoopEnds;
    match port {
      case 1 | 10 | 66 => b := Text(p);
      case 3 => var m := DecodePosition(p); b := PositionBody(m);
      case 8 => var m := DecodeWaypoint(p); b := WaypointBody(m);
      case 65 => var m := DecodeStoreForward(p); b := StoreForwardBody(m);
      case 67 => var m := DecodeTelemetry(p); b := TelemetryBody(m);
      case 70 => var m := DecodeTraceroute(p); b := TracerouteBody(m);
      case 71 => var m := DecodeNeighborInfo(p); b := NeighborBody(m);
      case 4 | 5 | 34 | 73 => b := Undecoded(p);
      case _ => b := Hex(if |p| < 24 then p else p[..24], |p|);
    }
  }

  method DecodeData(d: Bytes) returns (r: DataResult)
    requires DataEnds(d)
    ensures r == DataOf(Read(d))
  {
    hide Read, FieldAt, ReadField, Going, LoopEnds, Remaining, VarintVal, LastVarint, LastBody, Int32,
         BodyOf, PayloadEnds;
    Started(d);
    NothingSeen();
    var portnum := 0;
    var payload: Option<Bytes> := None;
    var pos: int := 0;
    ghost var seen: seq<Field>, visited: set<int> := [], {};
    while pos < |d|
      invariant Going(d, pos, visited, seen)
      invariant portnum == UintOrZero(seen, 1) && payload == LastBody(seen, 2)
      decreases Remaining(d, visited)
    {
      Turn(d, pos, visited, seen);
      var prev := pos;
      var tag;
      tag, pos := PbVarint(d, pos);
      if pos == prev { break; }
      var wt, num := tag % 8, FieldNumber(tag);
      if wt == 0 {
        var v;
        v, pos := PbVarint(d, pos);
        if num == 1 { portnum := v % TWO_32; }
      } else if wt == 2 {
        var sp := pos;
        var sz;
        sz, pos := PbVarint(d, pos);
        if pos == sp || Int32(pos + Int32(sz)) > |d| { break; }
        if num == 2 { payload := Some(Slice(d, pos, Int32(sz))); }
        pos := pos + Int32(sz);
      } else {
        var ok, next := PbSkip(d, pos, wt);
        if !ok { break; }
        pos := next;
      }
      Snoc(seen, FieldAt(d, prev));
      seen, visited := seen + [FieldAt(d, prev)], visited + {prev};
    }
    Over(d, pos, visited, seen);
    if portnum !in KNOWN_PORTS || (portnum == 0 && payload.None?) {
      return Rejected;
    }
    if payload.None? || payload.value == [] {
      return Accepted(portnum, Nothing);
    }
    var b := DecodeBody(portnum, payload.value);
    r := Accepted(portnum, b);
  }

  // ---------------------------------------------------------------- concatenations

  lemma {:induction false} TelemetryConcat(a: seq<Field>, b: seq<Field>)
    ensures TelemetryOf(a + b) == TelemetryOf(a) + TelemetryOf(b)
    decreases |b|
  {
    hide MetricsIn;
    if b == [] {
      assert a + b == a;
    } else {
      var front, f := b[..|b| - 1], b[|b| - 1];
      assert a + b == (a + front) + [f] && b == front + [f];
      TelemetryConcat(a, front);
      TelemetrySnoc(a + front, f);
      TelemetrySnoc(front, f);
    }
  }

  // ---------------------------------------------------------------- unknown fields

  /** A field a decoder has no branch for changes nothing, wherever it stands. */
  lemma UnknownFieldsIgnored(a: seq<Field>, f: Field, b: seq<Field>)
    ensures !(f.FVarint? && f.num in {1, 2, 3}) ==> PositionOf(a + [f] + b) == PositionOf(a + b)
    ensures !(f.FVarint? && f.num in {1, 5}) && !(f.FFixed32? && f.num in {2, 3, 4})
            ==> DeviceMetricsOf(a + [f] + b) == DeviceMetricsOf(a + b)
    ensures !(f.FFixed32? && f.num in {1, 2, 3}) ==> EnvMetricsOf(a + [f] + b) == EnvMetricsOf(a + b)
    ensures !(f.FVarint? && f.num in {1, 4, 5, 6, 7}) && !(f.FFixed32? && f.num in {2, 3})
            ==> LocalStatsOf(a + [f] + b) == LocalStatsOf(a + b)
    ensures !(f.FFixed32? && f.num in {1, 2, 3, 4, 5, 6}) ==> PowerMetricsOf(a + [f] + b) == PowerMetricsOf(a + b)
    ensures !(f.FVarint? && f.num in {1, 4, 5, 6}) && !(f.FBytes? && f.num in {2, 3})
            ==> WaypointOf(a + [f] + b) == WaypointOf(a + b)
    ensures !(f.FVarint? && f.num == 1) && !(f.FBytes? && f.num in {3, 5})
            ==> StoreForwardOf(a + [f] + b) == StoreForwardOf(a + b)
    ensures !(f.FBytes? && f.num in METRIC_FIELDS) ==> TelemetryOf(a + [f] + b) == TelemetryOf(a + b)
    ensures !(f.FBytes? && f.num in {1, 2, 3, 4}) ==> TracerouteOf(a + [f] + b) == TracerouteOf(a + b)
    ensures !(f.FBytes? && f.num == 4) ==> NeighborInfoOf(a + [f] + b) == NeighborInfoOf(a + b)
    ensures !(f.FVarint? && f.num == 1) && !(f.FBytes? && f.num == 2)
            ==> DataOf(a + [f] + b) == DataOf(a + b)
  {
    hide LastVarint, LastWord, LastBody, Bodies, TelemetryOf, AllWords, AllZigzags, PbZigzag, Int32,
         First16, NeighborsOf, SubFields, Clip, BodyOf;
    Irrelevant(a, f, b, 1);
    Irrelevant(a, f, b, 2);
    Irrelevant(a, f, b, 3);
    Irrelevant(a, f, b, 4);
    Irrelevant(a, f, b, 5);
    Irrelevant(a, f, b, 6);
    Irrelevant(a, f, b, 7);
    TelemetryConcat(a + [f], b);
    TelemetryConcat(a, b);
    TelemetrySnoc(a, f);
    assert TelemetryOf(a) + [] == TelemetryOf(a);
  }

  // ---------------------------------------------------------------- round trips of records

  function VarintField(num: nat, v: Option<nat>): seq<Field> {
    if v.Some? then [FVarint(num, v.value)] else []
  }

  function WordField(num: nat, v: Option<nat>): seq<Field> {
    if v.Some? then [FFixed32(num, v.value)] else []
  }

  /** sint32 on the wire. */
  function SintField(num: nat, v: Option<int>): seq<Field> {
    if v.Some? then [FVarint(num, EncZigzag(v.value))] else []
  }

  /** int32 on the wire: negative values are sign-extended to 64 bits. */
  function IntField(num: nat, v: Option<int>): seq<Field> {
    if v.Some? then [FVarint(num, v.value % TWO_64)] else []
  }

  predicate IsInt32(v: Option<int>) { v.Some? ==> -INT_LIMIT <= v.value < INT_LIMIT }

  predicate IsUint32(v: Option<nat>) { v.Some? ==> v.value < TWO_32 }

  function PositionFields(p: Position): seq<Field> {
    SintField(1, p.lat) + SintField(2, p.lon) + IntField(3, p.alt)
  }

  function DeviceMetricsFields(m: DeviceMetrics): seq<Field> {
    VarintField(1, m.battery) + WordField(2, m.voltage) + WordField(3, m.channelUtil)
    + WordField(4, m.airUtil) + VarintField(5, m.uptime)
  }

  lemma SignExtended(v: int)
    requires -INT_LIMIT <= v < INT_LIMIT
    ensures Int32(v % TWO_64) == v
  {
    if v >= 0 {
      assert v % TWO_64 == v;
    } else {
      assert v % TWO_64 == v + TWO_64;
      assert v + TWO_64 == (v + TWO_32) + TWO_32 * (TWO_32 - 1);
      assert (v + TWO_64) % TWO_32 == v + TWO_32;
    }
  }

  lemma LastWinsFirstFive(a: seq<Field>, b: seq<Field>)
    ensures forall num :: 1 <= num <= 5 ==>
              LastVarint(a + b, num) == OrElse(LastVarint(b, num), LastVarint(a, num))
    ensures forall num :: 1 <= num <= 5 ==>
              LastWord(a + b, num) == OrElse(LastWord(b, num), LastWord(a, num))
  {
    hide LastVarint, LastWord, LastBody, Bodies;
    LastWins(a, b, 1);
    LastWins(a, b, 2);
    LastWins(a, b, 3);
    LastWins(a, b, 4);
    LastWins(a, b, 5);
  }

  lemma PositionRoundTrip(p: Position)
    requires IsInt32(p.lat) && IsInt32(p.lon) && IsInt32(p.alt)
    ensures AllWellFormed(PositionFields(p)) && PositionOf(PositionFields(p)) == p
  {
    hide PbZigzag, EncZigzag, Int32;
    if p.lat.Some? { ZigzagInverse(p.lat.value); }
    if p.lon.Some? { ZigzagInverse(p.lon.value); }
    if p.alt.Some? { SignExtended(p.alt.value); }
    var a, b, c := SintField(1, p.lat), SintField(2, p.lon), IntField(3, p.alt);
    LastWinsFirstFive(a, b);
    LastWinsFirstFive(a + b, c);
  }

  lemma DeviceMetricsRoundTrip(m: DeviceMetrics)
    requires IsUint32(m.battery) && IsUint32(m.voltage) && IsUint32(m.channelUtil)
    requires IsUint32(m.airUtil) && IsUint32(m.uptime)
    ensures AllWellFormed(DeviceMetricsFields(m)) && DeviceMetricsOf(DeviceMetricsFields(m)) == m
  {
    hide LastVarint, LastWord;
    var a, b, c := VarintField(1, m.battery), WordField(2, m.voltage), WordField(3, m.channelUtil);
    var d, e := WordField(4, m.airUtil), VarintField(5, m.uptime);
    VarintFieldFound(1, m.battery);
    WordFieldFound(2, m.voltage);
    WordFieldFound(3, m.channelUtil);
    WordFieldFound(4, m.airUtil);
    VarintFieldFound(5, m.uptime);
    LastWinsFirstFive(a, b);
    LastWinsFirstFive(a + b, c);
    LastWinsFirstFive(a + b + c, d);
    LastWinsFirstFive(a + b + c + d, e);
  }

  lemma VarintFieldFound(num: nat, v: Option<nat>)
    ensures forall n :: LastVarint(VarintField(num, v), n) == if n == num then v else None
    ensures forall n :: LastWord(VarintField(num, v), n) == None
  {
  }

  lemma WordFieldFound(num: nat, v: Option<nat>)
    ensures forall n :: LastWord(WordField(num, v), n) == if n == num then v else None
    ensures forall n :: LastVarint(WordField(num, v), n) == None
  {
  }

  // ---------------------------------------------------------------- nesting

  lemma EncodedPair(f: Field, g: Field)
    ensures EncFields([f, g]) == EncField(f) + EncField(g)
    ensures EncFields([g]) == EncField(g)
  {
    assert [f, g][1..] == [g];
    assert EncFields([g]) == EncField(g) + [];
  }

  lemma EnvelopeFits(port: nat, p: Bytes)
    requires port < TWO_32 && |p| + 20 < INT_LIMIT
    ensures AllWellFormed([FVarint(1, port), FBytes(2, p)]) && |EncFields([FVarint(1, port), FBytes(2, p)])| < INT_LIMIT
  {
    hide EncVarint;
    var f, g := FVarint(1, port), FBytes(2, p);
    VarintLength(8, 1);
    VarintLength(18, 1);
    assert Pow128(1) == 128;
    assert TWO_32 <= Pow128(5) by { assert Pow128(3) == 0x20_0000; }
    VarintLength(port, 5);
    VarintLength(|p|, 5);
    EncodedPair(f, g);
  }

  /** A port number and a payload, encoded as a Data message, come out of the decoder as they went in. */
  lemma DataEnvelope(port: nat, payload: Bytes)
    requires port in KNOWN_PORTS && payload != []
    requires |payload| + 20 < INT_LIMIT
    ensures var d := EncFields([FVarint(1, port), FBytes(2, payload)]);
            Read(d) == [FVarint(1, port), FBytes(2, payload)]
            && DataOf(Read(d)) == Accepted(port, BodyOf(port, payload))
            && (PayloadEnds(port, payload) ==> DataEnds(d))
  {
    hide BodyOf, Read, Backs, LoopEnds, PayloadEnds, EncFields, AllWellFormed, LastVarint, LastBody;
    var fs := [FVarint(1, port), FBytes(2, payload)];
    EnvelopeFits(port, payload);
    ReadEncoded(fs);
    EnvelopeRead(port, payload);
  }

  lemma EnvelopeRead(port: nat, payload: Bytes)
    ensures var fs := [FVarint(1, port), FBytes(2, payload)];
            LastVarint(fs, 1) == Some(port) && LastBody(fs, 2) == Some(payload)
  {
    var f, g := FVarint(1, port), FBytes(2, payload);
    Snoc([f], g);
    Snoc([], f);
    assert [f] + [g] == [f, g] && [] + [f] == [f];
  }

  /** Data -> Telemetry -> DeviceMetrics: for every well-formed list of metric fields, the innermost
      record is the last-one-wins reading of that list. */
  lemma TelemetryNesting(gs: seq<Field>)
    requires AllWellFormed(gs) && |EncFields(gs)| + 40 < INT_LIMIT
    ensures var telemetry := EncFields([FBytes(2, EncFields(gs))]);
            var d := EncFields([FVarint(1, 67), FBytes(2, telemetry)]);
            DataEnds(d)
            && DataOf(Read(d)) == Accepted(67, TelemetryBody([Device(DeviceMetricsOf(gs))]))
  {
    hide EncVarint, Read, Backs, LoopEnds, DeviceMetricsOf, DataOf, DataEnds;
    var inner := EncFields(gs);
    ReadEncoded(gs);
    var f := FBytes(2, inner);
    EncodedPair(f, f);
    VarintLength(18, 1);
    assert Pow128(1) == 128;
    assert |inner| < Pow128(5) by { assert Pow128(3) == 0x20_0000; }
    VarintLength(|inner|, 5);
    ReadEncoded([f]);
    TelemetrySnoc([], f);
    TelemetryNone();
    assert [] + [f] == [f];
    assert MetricsIn(f) == [Device(DeviceMetricsOf(gs))];
    var payload := EncFields([f]);
    assert TelemetryOf(Read(payload)) == [Device(DeviceMetricsOf(gs))];
    assert BodyOf(67, payload) == TelemetryBody(TelemetryOf(Read(payload)));
    DataEnvelope(67, payload);
  }

  /** Data -> Position, on records. */
  lemma PositionNesting(p: Position)
    requires IsInt32(p.lat) && IsInt32(p.lon) && IsInt32(p.alt) && p != Position(None, None, None)
    requires |EncFields(PositionFields(p))| + 20 < INT_LIMIT
    ensures var d := EncFields([FVarint(1, 3), FBytes(2, EncFields(PositionFields(p)))]);
            DataEnds(d)
            && DataOf(Read(d)) == Accepted(3, PositionBody(p))
  {
    hide EncVarint, Read, Backs, LoopEnds, PositionOf, DataOf, DataEnds, EncField;
    PositionRoundTrip(p);
    ReadEncoded(PositionFields(p));
    DataEnvelope(3, EncFields(PositionFields(p)));
  }

  // ---------------------------------------------------------------- packed lists

  function EncWords(ws: seq<nat>): Bytes {
    if ws == [] then [] else LittleEndian(ws[0], 4) + EncWords(ws[1..])
  }

  function EncZigzags(xs: seq<int>): Bytes {
    if xs == [] then [] else EncVarint(EncZigzag(xs[0])) + EncZigzags(xs[1..])
  }

  lemma {:induction false} WordsInverse(ws: seq<nat>)
    requires forall i :: 0 <= i < |ws| ==> ws[i] < TWO_32
    ensures Words(EncWords(ws)) == ws
  {
    if ws != [] {
      var b := EncWords(ws);
      assert b[..4] == LittleEndian(ws[0], 4) && b[4..] == EncWords(ws[1..]);
      assert Pow256(4) == TWO_32 by { assert Pow256(2) == 0x1_0000; }
      LittleEndianInverse(ws[0], 4);
      WordsInverse(ws[1..]);
    }
  }

  lemma {:induction false} ZigzagsInverse(d: Bytes, pos: nat, xs: seq<int>)
    requires forall i :: 0 <= i < |xs| ==> -INT_LIMIT <= xs[i] < INT_LIMIT
    requires At(d, pos, EncZigzags(xs))
    ensures Zigzags(d, pos) == xs + Zigzags(d, pos + |EncZigzags(xs)|)
    decreases |xs|
  {
    hide PbZigzag, EncZigzag, EncVarint, VarintVal, VarintEnd, At;
    AtLength(d, pos, EncZigzags(xs));
    if xs != [] {
      var n := EncZigzag(xs[0]);
      AtSplit(d, pos, EncVarint(n), EncZigzags(xs[1..]));
      AtLength(d, pos, EncVarint(n));
      ZigzagInverse(xs[0]);
      VarintValInverse(d, pos, n);
      ZigzagsInverse(d, pos + |EncVarint(n)|, xs[1..]);
      ConsAssoc(xs, Zigzags(d, pos + |EncZigzags(xs)|));
    }
  }

  lemma ZigzagsWhole(xs: seq<int>)
    requires forall i :: 0 <= i < |xs| ==> -INT_LIMIT <= xs[i] < INT_LIMIT
    ensures Zigzags(EncZigzags(xs), 0) == xs
  {
    hide EncZigzags, Zigzags;
    var z := EncZigzags(xs);
    assert z[0..|z|] == z;
    ZigzagsInverse(z, 0, xs);
    ZigzagsEnd(z);
  }

  lemma ZigzagsEnd(b: Bytes)
    ensures Zigzags(b, |b|) == []
  {
  }

  lemma AllSingle(b: Bytes)
    ensures AllWords([b]) == Words(b) && AllZigzags([b]) == Zigzags(b, 0)
  {
  }
}
