/** Encoders for the messages the sniffer decodes, and their round trips through every level of nesting: which number
    each value is written under, and where it is reported. */
module MessageRoundTrips {
  import opened Common
  import opened Wire
  import opened DecoderRun
  import opened Fields
  import opened Meshtastic
  import opened MeshtasticNested
  import opened DataMessage

  /** The first n elements, or all if there are no more. */
  function Front<T>(s: seq<T>, n: nat): seq<T> { if |s| <= n then s else s[..n] }

  // ---------------------------------------------------------------- looking things up

  lemma Joined(a: seq<Field>, b: seq<Field>)
    ensures forall num :: LastVarint(a + b, num) == OrElse(LastVarint(b, num), LastVarint(a, num))
    ensures forall num :: LastWord(a + b, num) == OrElse(LastWord(b, num), LastWord(a, num))
    ensures forall num :: LastBody(a + b, num) == OrElse(LastBody(b, num), LastBody(a, num))
    ensures forall num :: Bodies(a + b, num) == Bodies(a, num) + Bodies(b, num)
  {
    hide LastVarint, LastWord, LastBody, Bodies;
    forall num: nat
      ensures LastVarint(a + b, num) == OrElse(LastVarint(b, num), LastVarint(a, num))
      ensures LastWord(a + b, num) == OrElse(LastWord(b, num), LastWord(a, num))
      ensures LastBody(a + b, num) == OrElse(LastBody(b, num), LastBody(a, num))
      ensures Bodies(a + b, num) == Bodies(a, num) + Bodies(b, num)
    {
      LastWins(a, b, num);
    }
  }

  lemma VarintPiece(num: nat, v: Option<nat>)
    ensures forall n :: LastVarint(VarintField(num, v), n) == if n == num then v else None
    ensures forall n :: LastWord(VarintField(num, v), n) == None
    ensures forall n :: LastBody(VarintField(num, v), n) == None && Bodies(VarintField(num, v), n) == []
  {
    if v.Some? { OneFound(FVarint(num, v.value)); } else { NothingSeen(); }
    hide LastVarint, LastWord, LastBody, Bodies;
  }

  lemma WordPiece(num: nat, v: Option<nat>)
    ensures forall n :: LastWord(WordField(num, v), n) == if n == num then v else None
    ensures forall n :: LastVarint(WordField(num, v), n) == None
    ensures forall n :: LastBody(WordField(num, v), n) == None && Bodies(WordField(num, v), n) == []
  {
    if v.Some? { OneFound(FFixed32(num, v.value)); } else { NothingSeen(); }
    hide LastVarint, LastWord, LastBody, Bodies;
  }

  lemma SintPiece(num: nat, v: Option<int>)
    ensures var f := if v.Some? then Some(EncZigzag(v.value)) else None;
            (forall n :: LastVarint(SintField(num, v), n) == if n == num then f else None)
            && forall n :: LastWord(SintField(num, v), n) == None && LastBody(SintField(num, v), n) == None
                           && Bodies(SintField(num, v), n) == []
  {
    if v.Some? { OneFound(FVarint(num, EncZigzag(v.value))); } else { NothingSeen(); }
    hide LastVarint, LastWord, LastBody, Bodies;
  }

  lemma OneFound(f: Field)
    ensures forall n :: LastVarint([f], n) == if f.FVarint? && f.num == n then Some(f.v) else None
    ensures forall n :: LastWord([f], n) == if f.FFixed32? && f.num == n then Some(f.word) else None
    ensures forall n :: LastBody([f], n) == if f.FBytes? && f.num == n then Some(f.body) else None
    ensures forall n :: Bodies([f], n) == if f.FBytes? && f.num == n then [f.body] else []
  {
    hide LastVarint, LastWord, LastBody, Bodies;
    NothingSeen();
    Snoc([], f);
    assert [] + [f] == [f] && forall b: Bytes :: [] + [b] == [b];
  }

  // ---------------------------------------------------------------- the metrics of a telemetry message

  function EnvMetricsFields(m: EnvMetrics): seq<Field> {
    WordField(1, m.temperature) + WordField(2, m.humidity) + WordField(3, m.pressure)
  }

  lemma EnvMetricsRoundTrip(m: EnvMetrics)
    requires IsUint32(m.temperature) && IsUint32(m.humidity) && IsUint32(m.pressure)
    ensures AllWellFormed(EnvMetricsFields(m)) && EnvMetricsOf(EnvMetricsFields(m)) == m
  {
    EnvMetricsFound(m);
    hide EnvMetricsOf;
  }

  lemma EnvMetricsFound(m: EnvMetrics)
    ensures EnvMetricsOf(EnvMetricsFields(m)) == m
  {
    hide LastVarint, LastWord, LastBody, Bodies, WordField;
    var a, b, c := WordField(1, m.temperature), WordField(2, m.humidity), WordField(3, m.pressure);
    WordPiece(1, m.temperature);
    WordPiece(2, m.humidity);
    WordPiece(3, m.pressure);
    Joined(a, b);
    Joined(a + b, c);
  }

  function LocalStatsFields(m: LocalStats): seq<Field> {
    VarintField(1, m.uptime) + WordField(2, m.channelUtil) + WordField(3, m.airUtil) + VarintField(4, m.tx)
    + VarintField(5, m.rx) + VarintField(6, m.online) + VarintField(7, m.total)
  }

  lemma LocalStatsRoundTrip(m: LocalStats)
    requires IsUint32(m.uptime) && IsUint32(m.channelUtil) && IsUint32(m.airUtil) && IsUint32(m.tx)
    requires IsUint32(m.rx) && IsUint32(m.online) && IsUint32(m.total)
    ensures AllWellFormed(LocalStatsFields(m)) && LocalStatsOf(LocalStatsFields(m)) == m
  {
    LocalStatsFound(m);
    hide LocalStatsOf, AllWellFormed, VarintField, WordField, IsUint32;
    var a, b, c := VarintField(1, m.uptime), WordField(2, m.channelUtil), WordField(3, m.airUtil);
    var d, e, f, g := VarintField(4, m.tx), VarintField(5, m.rx), VarintField(6, m.online), VarintField(7, m.total);
    VarintWellFormed(1, m.uptime);
    WordWellFormed(2, m.channelUtil);
    WordWellFormed(3, m.airUtil);
    VarintWellFormed(4, m.tx);
    VarintWellFormed(5, m.rx);
    VarintWellFormed(6, m.online);
    VarintWellFormed(7, m.total);
    WellFormedJoined(a, b);
    WellFormedJoined(a + b, c);
    WellFormedJoined(a + b + c, d);
    WellFormedJoined(a + b + c + d, e);
    WellFormedJoined(a + b + c + d + e, f);
    WellFormedJoined(a + b + c + d + e + f, g);
  }

  lemma VarintWellFormed(num: nat, v: Option<nat>)
    requires num < 16 && IsUint32(v)
    ensures AllWellFormed(VarintField(num, v))
  {
  }

  lemma WordWellFormed(num: nat, v: Option<nat>)
    requires num < 16 && IsUint32(v)
    ensures AllWellFormed(WordField(num, v))
  {
  }

  lemma WellFormedJoined(a: seq<Field>, b: seq<Field>)
    requires AllWellFormed(a) && AllWellFormed(b)
    ensures AllWellFormed(a + b)
  {
  }

  lemma LocalStatsFound(m: LocalStats)
    requires IsUint32(m.uptime) && IsUint32(m.tx) && IsUint32(m.rx) && IsUint32(m.online) && IsUint32(m.total)
    ensures LocalStatsOf(LocalStatsFields(m)) == m
  {
    hide LastVarint, LastWord, LastBody, Bodies, VarintField, WordField;
    var a, b, c := VarintField(1, m.uptime), WordField(2, m.channelUtil), WordField(3, m.airUtil);
    var d, e, f, g := VarintField(4, m.tx), VarintField(5, m.rx), VarintField(6, m.online), VarintField(7, m.total);
    VarintPiece(1, m.uptime);
    WordPiece(2, m.channelUtil);
    WordPiece(3, m.airUtil);
    VarintPiece(4, m.tx);
    VarintPiece(5, m.rx);
    VarintPiece(6, m.online);
    VarintPiece(7, m.total);
    Joined(a, b);
    Joined(a + b, c);
    Joined(a + b + c, d);
    Joined(a + b + c + d, e);
    Joined(a + b + c + d + e, f);
    Joined(a + b + c + d + e + f, g);
  }

  function PowerMetricsFields(m: PowerMetrics): seq<Field> {
    WordField(1, m.ch1v) + WordField(2, m.ch1i) + WordField(3, m.ch2v) + WordField(4, m.ch2i)
    + WordField(5, m.ch3v) + WordField(6, m.ch3i)
  }

  lemma PowerMetricsRoundTrip(m: PowerMetrics)
    requires IsUint32(m.ch1v) && IsUint32(m.ch1i) && IsUint32(m.ch2v) && IsUint32(m.ch2i)
    requires IsUint32(m.ch3v) && IsUint32(m.ch3i)
    ensures AllWellFormed(PowerMetricsFields(m)) && PowerMetricsOf(PowerMetricsFields(m)) == m
  {
    PowerMetricsFound(m);
    hide PowerMetricsOf, AllWellFormed, WordField, IsUint32;
    var a, b, c := WordField(1, m.ch1v), WordField(2, m.ch1i), WordField(3, m.ch2v);
    var d, e, f := WordField(4, m.ch2i), WordField(5, m.ch3v), WordField(6, m.ch3i);
    WordWellFormed(1, m.ch1v);
    WordWellFormed(2, m.ch1i);
    WordWellFormed(3, m.ch2v);
    WordWellFormed(4, m.ch2i);
    WordWellFormed(5, m.ch3v);
    WordWellFormed(6, m.ch3i);
    WellFormedJoined(a, b);
    WellFormedJoined(a + b, c);
    WellFormedJoined(a + b + c, d);
    WellFormedJoined(a + b + c + d, e);
    WellFormedJoined(a + b + c + d + e, f);
  }

  lemma PowerMetricsFound(m: PowerMetrics)
    ensures PowerMetricsOf(PowerMetricsFields(m)) == m
  {
    hide LastVarint, LastWord, LastBody, Bodies, WordField;
    var a, b, c := WordField(1, m.ch1v), WordField(2, m.ch1i), WordField(3, m.ch2v);
    var d, e, f := WordField(4, m.ch2i), WordField(5, m.ch3v), WordField(6, m.ch3i);
    WordPiece(1, m.ch1v);
    WordPiece(2, m.ch1i);
    WordPiece(3, m.ch2v);
    WordPiece(4, m.ch2i);
    WordPiece(5, m.ch3v);
    WordPiece(6, m.ch3i);
    Joined(a, b);
    Joined(a + b, c);
    Joined(a + b + c, d);
    Joined(a + b + c + d, e);
    Joined(a + b + c + d + e, f);
  }

  predicate IsUint32s(m: Metrics) {
    match m
    case Device(d) => IsUint32(d.battery) && IsUint32(d.voltage) && IsUint32(d.channelUtil) && IsUint32(d.airUtil)
                      && IsUint32(d.uptime)
    case Environment(e) => IsUint32(e.temperature) && IsUint32(e.humidity) && IsUint32(e.pressure)
    case Local(l) => IsUint32(l.uptime) && IsUint32(l.channelUtil) && IsUint32(l.airUtil) && IsUint32(l.tx)
                     && IsUint32(l.rx) && IsUint32(l.online) && IsUint32(l.total)
    case Power(p) => IsUint32(p.ch1v) && IsUint32(p.ch1i) && IsUint32(p.ch2v) && IsUint32(p.ch2i)
                     && IsUint32(p.ch3v) && IsUint32(p.ch3i)
  }

  /** The number each kind of metrics is carried under in a Telemetry message. */
  function MetricsField(m: Metrics): Field {
    match m
    case Device(d) => FBytes(2, EncFields(DeviceMetricsFields(d)))
    case Environment(e) => FBytes(3, EncFields(EnvMetricsFields(e)))
    case Local(l) => FBytes(4, EncFields(LocalStatsFields(l)))
    case Power(p) => FBytes(6, EncFields(PowerMetricsFields(p)))
  }

  function TelemetryFields(ms: seq<Metrics>): seq<Field> {
    seq(|ms|, i requires 0 <= i < |ms| => MetricsField(ms[i]))
  }

  lemma MetricsRead(m: Metrics)
    requires IsUint32s(m) && |MetricsField(m).body| < INT_LIMIT
    ensures LoopEnds(MetricsField(m).body) && MetricsIn(MetricsField(m)) == [m]
  {
    hide EncFields, Read, LoopEnds, DeviceMetricsOf, EnvMetricsOf, LocalStatsOf, PowerMetricsOf,
         DeviceMetricsFields, EnvMetricsFields, LocalStatsFields, PowerMetricsFields, AllWellFormed, Backs;
    match m
    case Device(d) =>
      DeviceMetricsRoundTrip(d);
      ReadEncoded(DeviceMetricsFields(d));
    case Environment(e) =>
      EnvMetricsRoundTrip(e);
      ReadEncoded(EnvMetricsFields(e));
    case Local(l) =>
      LocalStatsRoundTrip(l);
      ReadEncoded(LocalStatsFields(l));
    case Power(p) =>
      PowerMetricsRoundTrip(p);
      ReadEncoded(PowerMetricsFields(p));
  }

  lemma {:induction false} TelemetryFieldsRead(ms: seq<Metrics>)
    requires forall i :: 0 <= i < |ms| ==> IsUint32s(ms[i]) && |MetricsField(ms[i]).body| < INT_LIMIT
    ensures TelemetryOf(TelemetryFields(ms)) == ms
  {
    hide MetricsField, MetricsIn, IsUint32s, TelemetryOf;
    TelemetryNone();
    if ms == [] {
      assert TelemetryFields(ms) == [];
    } else {
      var n := |ms| - 1;
      TelemetryFieldsRead(ms[..n]);
      assert TelemetryFields(ms) == TelemetryFields(ms[..n]) + [MetricsField(ms[n])];
      TelemetrySnoc(TelemetryFields(ms[..n]), MetricsField(ms[n]));
      MetricsRead(ms[n]);
      assert ms == ms[..n] + [ms[n]];
    }
  }

  /** What a field carries is shorter than the message. */
  lemma {:induction false} BodiesAreShorter(fs: seq<Field>, i: nat)
    requires i < |fs| && fs[i].FBytes?
    ensures |fs[i].body| < |EncFields(fs)|
  {
    hide EncVarint;
    if i > 0 { BodiesAreShorter(fs[1..], i - 1); }
  }

  /** The bytes of a Data message. */
  function Envelope(port: nat, payload: Bytes): Bytes { EncFields([FVarint(1, port), FBytes(2, payload)]) }

  /** Any list of metrics of any kind comes back through Data and Telemetry, in order, each as what it was. */
  lemma TelemetryRoundTrip(ms: seq<Metrics>)
    requires ms != [] && forall i :: 0 <= i < |ms| ==> IsUint32s(ms[i])
    requires |EncFields(TelemetryFields(ms))| + 20 < INT_LIMIT
    ensures var d := Envelope(67, EncFields(TelemetryFields(ms)));
            DataEnds(d) && DataOf(Read(d)) == Accepted(67, TelemetryBody(ms))
  {
    hide EncFields, Read, Backs, LoopEnds, DataOf, DataEnds, TelemetryOf, MetricsField, MetricsIn, IsUint32s;
    var fs := TelemetryFields(ms);
    forall i | 0 <= i < |ms|
      ensures WellFormed(fs[i]) && fs[i].FBytes? && LoopEnds(fs[i].body) && |MetricsField(ms[i]).body| < INT_LIMIT
    {
      MetricsFieldShape(ms[i]);
      BodiesAreShorter(fs, i);
      MetricsRead(ms[i]);
    }
    TelemetryFieldsRead(ms);
    ReadEncoded(fs);
    NotEmpty(fs);
    DataEnvelope(67, EncFields(fs));
  }

  lemma MetricsFieldShape(m: Metrics)
    ensures MetricsField(m).FBytes? && MetricsField(m).num < 16
  {
  }

  lemma NotEmpty(fs: seq<Field>)
    requires fs != []
    ensures EncFields(fs) != []
  {
  }

  // ---------------------------------------------------------------- waypoints

  function WaypointFields(w: Waypoint): seq<Field> {
    [FVarint(1, w.id)] + [FBytes(2, w.name)] + [FBytes(3, w.desc)] + SintField(4, w.lat) + SintField(5, w.lon)
    + [FVarint(6, w.icon)]
  }

  predicate NoNul(b: Bytes) { |b| < INT_LIMIT && forall i :: 0 <= i < |b| ==> b[i] != 0 }

  predicate IsWaypoint(w: Waypoint) {
    w.id < TWO_32 && w.icon < TWO_32 && NoNul(w.name) && NoNul(w.desc) && IsInt32(w.lat) && IsInt32(w.lon)
  }

  lemma {:induction false} ShownWhole(b: Bytes)
    requires forall i :: 0 <= i < |b| ==> b[i] != 0
    ensures CString(b) == b
  {
    if b != [] { ShownWhole(b[1..]); }
  }

  /** A text is shown as far as its buffer goes. */
  lemma ClipShown(b: Bytes, cap: nat)
    requires NoNul(b)
    ensures Clip(b, cap) == Front(b, cap)
  {
    ShownWhole(Front(b, cap));
    assert b[..|b|] == b;
  }

  /** And only up to the first NUL in it. */
  lemma {:induction false} ClipStops(a: Bytes, b: Bytes, cap: nat)
    requires NoNul(a) && |a| < cap
    ensures Clip(a + [0] + b, cap) == a
  {
    var c := Front(a + [0] + b, cap);
    assert Clip(a + [0] + b, cap) == CString(c) by { assert (a + [0] + b)[..|a + [0] + b|] == a + [0] + b; }
    CStringStops(a, c[|a| + 1..]);
    assert c == a + [0] + c[|a| + 1..];
  }

  lemma {:induction false} CStringStops(a: Bytes, b: Bytes)
    requires forall i :: 0 <= i < |a| ==> a[i] != 0
    ensures CString(a + [0] + b) == a
  {
    if a == [] {
      assert a + [0] + b == [0] + b;
    } else {
      assert (a + [0] + b)[1..] == a[1..] + [0] + b;
      CStringStops(a[1..], b);
    }
  }

  lemma WaypointWellFormed(w: Waypoint)
    requires IsWaypoint(w)
    ensures AllWellFormed(WaypointFields(w))
  {
    hide PbZigzag, EncZigzag;
    if w.lat.Some? { ZigzagInverse(w.lat.value); }
    if w.lon.Some? { ZigzagInverse(w.lon.value); }
  }

  lemma WaypointFound(w: Waypoint)
    requires IsWaypoint(w)
    ensures WaypointOf(WaypointFields(w)) == w.(name := Front(w.name, 63), desc := Front(w.desc, 127))
  {
    hide LastVarint, LastWord, LastBody, Bodies, Clip, PbZigzag, EncZigzag, SintField, NoNul, Front;
    var a, b, c: seq<Field> := [FVarint(1, w.id)], [FBytes(2, w.name)], [FBytes(3, w.desc)];
    var d, e, f := SintField(4, w.lat), SintField(5, w.lon), [FVarint(6, w.icon)];
    OneFound(a[0]);
    OneFound(b[0]);
    OneFound(c[0]);
    SintPiece(4, w.lat);
    SintPiece(5, w.lon);
    OneFound(f[0]);
    Joined(a, b);
    Joined(a + b, c);
    Joined(a + b + c, d);
    Joined(a + b + c + d, e);
    Joined(a + b + c + d + e, f);
    ClipShown(w.name, 63);
    ClipShown(w.desc, 127);
    if w.lat.Some? { ZigzagInverse(w.lat.value); }
    if w.lon.Some? { ZigzagInverse(w.lon.value); }
  }

  /** A waypoint comes back, its name up to 63 bytes and its description up to 127. */
  lemma WaypointRoundTrip(w: Waypoint)
    requires IsWaypoint(w) && |EncFields(WaypointFields(w))| + 20 < INT_LIMIT
    ensures var d := Envelope(8, EncFields(WaypointFields(w)));
            DataEnds(d)
            && DataOf(Read(d)) == Accepted(8, WaypointBody(w.(name := Front(w.name, 63), desc := Front(w.desc, 127))))
  {
    hide EncFields, Read, Backs, LoopEnds, DataOf, DataEnds, WaypointOf, IsWaypoint, AllWellFormed;
    WaypointFound(w);
    WaypointWellFormed(w);
    ReadEncoded(WaypointFields(w));
    NotEmpty(WaypointFields(w));
    hide WaypointFields;
    DataEnvelope(8, EncFields(WaypointFields(w)));
  }

  // ---------------------------------------------------------------- neighbours

  function NeighborFields(n: Neighbor): seq<Field> { [FVarint(1, n.id)] + WordField(2, n.snr) }

  predicate IsNeighbor(n: Neighbor) { n.id < TWO_32 && IsUint32(n.snr) }

  function NeighborInfoFields(ns: seq<Neighbor>): seq<Field> {
    seq(|ns|, i requires 0 <= i < |ns| => FBytes(4, EncFields(NeighborFields(ns[i]))))
  }

  lemma NeighborFound(n: Neighbor)
    requires IsNeighbor(n)
    ensures AllWellFormed(NeighborFields(n)) && NeighborOf(NeighborFields(n)) == n
  {
    hide LastVarint, LastWord, LastBody, Bodies;
    OneFound(FVarint(1, n.id));
    WordPiece(2, n.snr);
    Joined([FVarint(1, n.id)], WordField(2, n.snr));
  }

  lemma NeighborRead(n: Neighbor)
    requires IsNeighbor(n) && |EncFields(NeighborFields(n))| < INT_LIMIT
    ensures var b := EncFields(NeighborFields(n)); LoopEnds(b) && NeighborOf(Read(b)) == n
  {
    hide EncFields, Read, LoopEnds, NeighborOf, NeighborFields, AllWellFormed, Backs;
    NeighborFound(n);
    ReadEncoded(NeighborFields(n));
  }

  lemma {:induction false} NeighborBodies(ns: seq<Neighbor>)
    ensures Bodies(NeighborInfoFields(ns), 4) == seq(|ns|, i requires 0 <= i < |ns| => EncFields(NeighborFields(ns[i])))
  {
    hide EncFields, NeighborFields;
    if ns == [] {
      assert NeighborInfoFields(ns) == [];
    } else {
      var n := |ns| - 1;
      NeighborBodies(ns[..n]);
      assert NeighborInfoFields(ns) == NeighborInfoFields(ns[..n]) + [FBytes(4, EncFields(NeighborFields(ns[n])))];
      SnocAt(NeighborInfoFields(ns[..n]), FBytes(4, EncFields(NeighborFields(ns[n]))), 4);
    }
  }

  lemma NeighborInfoFound(ns: seq<Neighbor>)
    requires forall i :: 0 <= i < |ns| ==> IsNeighbor(ns[i]) && |EncFields(NeighborFields(ns[i]))| < INT_LIMIT
    ensures NeighborInfoOf(NeighborInfoFields(ns)) == NeighborInfo(Front(ns, 6), |ns|)
  {
    hide EncFields, NeighborFields, Read, Bodies, NeighborOf, IsNeighbor, LoopEnds;
    NeighborBodies(ns);
    var bodies := Bodies(NeighborInfoFields(ns), 4);
    forall i | 0 <= i < |ns| ensures NeighborOf(Read(bodies[i])) == ns[i] { NeighborRead(ns[i]); }
    assert NeighborsOf(bodies) == ns;
  }

  /** Any list of neighbours comes back: the first six in order, and how many there are. */
  lemma NeighborInfoRoundTrip(ns: seq<Neighbor>)
    requires ns != [] && forall i :: 0 <= i < |ns| ==> IsNeighbor(ns[i])
    requires |EncFields(NeighborInfoFields(ns))| + 20 < INT_LIMIT
    ensures var d := Envelope(71, EncFields(NeighborInfoFields(ns)));
            DataEnds(d)
            && DataOf(Read(d)) == Accepted(71, NeighborBody(NeighborInfo(Front(ns, 6), |ns|)))
  {
    hide EncFields, Read, Backs, LoopEnds, DataOf, DataEnds, NeighborInfoOf, NeighborFields, IsNeighbor;
    var fs := NeighborInfoFields(ns);
    forall i | 0 <= i < |ns|
      ensures WellFormed(fs[i]) && LoopEnds(fs[i].body) && |EncFields(NeighborFields(ns[i]))| < INT_LIMIT
    {
      BodiesAreShorter(fs, i);
      NeighborRead(ns[i]);
    }
    NeighborInfoFound(ns);
    ReadEncoded(fs);
    NotEmpty(fs);
    DataEnvelope(71, EncFields(fs));
  }

  // ---------------------------------------------------------------- store and forward

  function HeartbeatFields(h: Heartbeat): seq<Field> { [FVarint(1, h.period)] + [FVarint(2, h.secondary)] }

  function StatsFields(t: Stats): seq<Field> { [FVarint(1, t.total)] + [FVarint(2, t.saved)] + [FVarint(3, t.max)] }

  function StatsField(t: Option<Stats>): seq<Field> {
    if t.Some? then [FBytes(3, EncFields(StatsFields(t.value)))] else []
  }

  function HeartbeatField(h: Option<Heartbeat>): seq<Field> {
    if h.Some? then [FBytes(5, EncFields(HeartbeatFields(h.value)))] else []
  }

  function StoreForwardFields(s: StoreForward): seq<Field> {
    VarintField(1, s.rr) + StatsField(s.stats) + HeartbeatField(s.heartbeat)
  }

  predicate IsStoreForward(s: StoreForward) {
    IsUint32(s.rr)
    && (s.heartbeat.Some? ==> s.heartbeat.value.period < TWO_32 && s.heartbeat.value.secondary < TWO_32)
    && (s.stats.Some? ==> s.stats.value.total < TWO_32 && s.stats.value.saved < TWO_32 && s.stats.value.max < TWO_32)
  }

  lemma HeartbeatRead(h: Heartbeat)
    requires h.period < TWO_32 && h.secondary < TWO_32 && |EncFields(HeartbeatFields(h))| < INT_LIMIT
    ensures var b := EncFields(HeartbeatFields(h)); LoopEnds(b) && HeartbeatOf(Read(b)) == h
  {
    hide LastVarint, LastWord, LastBody, Bodies, EncFields, Read, LoopEnds, Backs;
    OneFound(FVarint(1, h.period));
    OneFound(FVarint(2, h.secondary));
    Joined([FVarint(1, h.period)], [FVarint(2, h.secondary)]);
    ReadEncoded(HeartbeatFields(h));
  }

  lemma StatsRead(t: Stats)
    requires t.total < TWO_32 && t.saved < TWO_32 && t.max < TWO_32 && |EncFields(StatsFields(t))| < INT_LIMIT
    ensures var b := EncFields(StatsFields(t)); LoopEnds(b) && StatsOf(Read(b)) == t
  {
    hide LastVarint, LastWord, LastBody, Bodies, EncFields, Read, LoopEnds, Backs;
    OneFound(FVarint(1, t.total));
    OneFound(FVarint(2, t.saved));
    OneFound(FVarint(3, t.max));
    Joined([FVarint(1, t.total)], [FVarint(2, t.saved)]);
    Joined([FVarint(1, t.total)] + [FVarint(2, t.saved)], [FVarint(3, t.max)]);
    ReadEncoded(StatsFields(t));
  }

  lemma StoreForwardLookups(s: StoreForward)
    ensures var fs := StoreForwardFields(s);
            LastVarint(fs, 1) == s.rr
            && Bodies(fs, 3) == (if s.stats.Some? then [EncFields(StatsFields(s.stats.value))] else [])
            && Bodies(fs, 5) == if s.heartbeat.Some? then [EncFields(HeartbeatFields(s.heartbeat.value))] else []
  {
    hide LastVarint, LastWord, LastBody, Bodies, EncFields, HeartbeatFields, StatsFields;
    var a, b, c := VarintField(1, s.rr), StatsField(s.stats), HeartbeatField(s.heartbeat);
    NothingSeen();
    VarintPiece(1, s.rr);
    if s.stats.Some? { OneFound(b[0]); }
    if s.heartbeat.Some? { OneFound(c[0]); }
    Joined(a, b);
    Joined(a + b, c);
  }

  lemma SubFieldsOne(b: Bytes)
    ensures SubFields([b]) == Read(b)
  {
    hide Read;
    SubFieldsSnoc([], b);
    assert [] + [b] == [b] && [] + Read(b) == Read(b);
  }

  lemma StoreForwardFound(s: StoreForward)
    requires IsStoreForward(s)
    requires s.stats.Some? ==> |EncFields(StatsFields(s.stats.value))| < INT_LIMIT
    requires s.heartbeat.Some? ==> |EncFields(HeartbeatFields(s.heartbeat.value))| < INT_LIMIT
    ensures StoreForwardOf(StoreForwardFields(s)) == s
  {
    StoreForwardLookups(s);
    hide LastVarint, Bodies, EncFields, HeartbeatFields, StatsFields, Read, HeartbeatOf, StatsOf, StoreForwardFields,
         LoopEnds, SubFields;
    if s.stats.Some? {
      StatsRead(s.stats.value);
      SubFieldsOne(EncFields(StatsFields(s.stats.value)));
    }
    if s.heartbeat.Some? {
      HeartbeatRead(s.heartbeat.value);
      SubFieldsOne(EncFields(HeartbeatFields(s.heartbeat.value)));
    }
  }

  /** The fields of a message, one by one. */
  lemma StoreForwardParts(s: StoreForward, f: Field)
    requires f in StoreForwardFields(s)
    ensures (s.rr.Some? && f == FVarint(1, s.rr.value))
            || (s.stats.Some? && f == FBytes(3, EncFields(StatsFields(s.stats.value))))
            || (s.heartbeat.Some? && f == FBytes(5, EncFields(HeartbeatFields(s.heartbeat.value))))
  {
    hide EncFields, StatsFields, HeartbeatFields;
  }

  lemma StoreForwardPart(s: StoreForward, f: Field)
    requires IsStoreForward(s) && f in StoreForwardFields(s)
    requires s.stats.Some? ==> |EncFields(StatsFields(s.stats.value))| < INT_LIMIT
    requires s.heartbeat.Some? ==> |EncFields(HeartbeatFields(s.heartbeat.value))| < INT_LIMIT
    ensures WellFormed(f) && (f.FBytes? ==> LoopEnds(f.body))
  {
    StoreForwardParts(s, f);
    hide EncFields, StatsFields, HeartbeatFields, StoreForwardFields, LoopEnds, Read, HeartbeatOf, StatsOf;
    if s.stats.Some? { StatsRead(s.stats.value); }
    if s.heartbeat.Some? { HeartbeatRead(s.heartbeat.value); }
  }

  lemma StoreForwardRoundTrip(s: StoreForward)
    requires IsStoreForward(s) && s != StoreForward(None, None, None)
    requires |EncFields(StoreForwardFields(s))| + 20 < INT_LIMIT
    ensures var d := Envelope(65, EncFields(StoreForwardFields(s)));
            DataEnds(d) && DataOf(Read(d)) == Accepted(65, StoreForwardBody(s))
  {
    var fs := StoreForwardFields(s);
    assert fs != [];
    hide EncFields, Read, Backs, LoopEnds, DataOf, DataEnds, StoreForwardOf, StatsFields, HeartbeatFields,
         StoreForwardFields;
    StoreForwardSizes(s);
    forall i | 0 <= i < |fs|
      ensures WellFormed(fs[i]) && (fs[i].FBytes? ==> LoopEnds(fs[i].body))
    {
      StoreForwardPart(s, fs[i]);
    }
    hide IsStoreForward;
    StoreForwardFound(s);
    ReadEncoded(fs);
    NotEmpty(fs);
    DataEnvelope(65, EncFields(fs));
  }

  lemma StoreForwardSizes(s: StoreForward)
    ensures s.stats.Some? ==> |EncFields(StatsFields(s.stats.value))| < |EncFields(StoreForwardFields(s))|
    ensures s.heartbeat.Some? ==> |EncFields(HeartbeatFields(s.heartbeat.value))| < |EncFields(StoreForwardFields(s))|
  {
    hide EncFields, StatsFields, HeartbeatFields;
    var fs := StoreForwardFields(s);
    if s.stats.Some? { BodiesAreShorter(fs, if s.rr.Some? then 1 else 0); }
    if s.heartbeat.Some? { BodiesAreShorter(fs, |fs| - 1); }
  }

  // ---------------------------------------------------------------- traceroutes

  /** An empty list is not written. */
  function PackedField(num: nat, b: Bytes): seq<Field> { if b == [] then [] else [FBytes(num, b)] }

  function TracerouteFields(t: Traceroute): seq<Field> {
    PackedField(1, EncWords(t.route)) + PackedField(2, EncZigzags(t.snr)) + PackedField(3, EncWords(t.routeBack))
    + PackedField(4, EncZigzags(t.snrBack))
  }

  predicate AreUint32(ws: seq<nat>) { forall i :: 0 <= i < |ws| ==> ws[i] < TWO_32 }

  predicate AreInt32(xs: seq<int>) { forall i :: 0 <= i < |xs| ==> -INT_LIMIT <= xs[i] < INT_LIMIT }

  lemma PackedPiece(num: nat, b: Bytes)
    ensures forall n :: Bodies(PackedField(num, b), n) == if n == num && b != [] then [b] else []
  {
    if b != [] { OneFound(FBytes(num, b)); } else { NothingSeen(); }
    hide LastVarint, LastWord, LastBody, Bodies;
  }

  lemma BodiesOfFour(a: seq<Field>, b: seq<Field>, c: seq<Field>, d: seq<Field>, num: nat)
    ensures Bodies(a + b + c + d, num) == Bodies(a, num) + Bodies(b, num) + Bodies(c, num) + Bodies(d, num)
  {
    hide LastVarint, LastWord, LastBody, Bodies;
    LastWins(a, b, num);
    LastWins(a + b, c, num);
    LastWins(a + b + c, d, num);
  }

  /** A packed list under its number, read back. */
  lemma PackedWords(num: nat, ws: seq<nat>)
    requires AreUint32(ws)
    ensures AllWords(Bodies(PackedField(num, EncWords(ws)), num)) == ws
  {
    PackedPiece(num, EncWords(ws));
    WordsInverse(ws);
    AllSingle(EncWords(ws));
    hide Bodies, PackedField, EncWords, AllWords;
    NoWords();
  }

  lemma PackedZigzags(num: nat, xs: seq<int>)
    requires AreInt32(xs)
    ensures AllZigzags(Bodies(PackedField(num, EncZigzags(xs)), num)) == xs
  {
    PackedPiece(num, EncZigzags(xs));
    ZigzagsWhole(xs);
    AllSingle(EncZigzags(xs));
    hide Bodies, PackedField, EncZigzags, AllZigzags, Zigzags;
    NoWords();
  }

  lemma NoWords()
    ensures AllWords([]) == Words([]) && AllZigzags([]) == Zigzags([], 0)
  {
  }

  lemma AmongNone(x: seq<Bytes>)
    ensures x + [] + [] + [] == [] + x + [] + [] == [] + [] + x + [] == [] + [] + [] + x == x
  {
  }

  lemma TracerouteFound(t: Traceroute)
    requires AreUint32(t.route) && AreInt32(t.snr) && AreUint32(t.routeBack) && AreInt32(t.snrBack)
    ensures TracerouteOf(TracerouteFields(t))
         == Traceroute(Front(t.route, 16), Front(t.snr, 16), Front(t.routeBack, 16), Front(t.snrBack, 16))
  {
    hide Bodies, AllWords, AllZigzags, EncWords, EncZigzags, PackedField;
    var a, b := PackedField(1, EncWords(t.route)), PackedField(2, EncZigzags(t.snr));
    var c, d := PackedField(3, EncWords(t.routeBack)), PackedField(4, EncZigzags(t.snrBack));
    PackedPiece(1, EncWords(t.route));
    PackedPiece(2, EncZigzags(t.snr));
    PackedPiece(3, EncWords(t.routeBack));
    PackedPiece(4, EncZigzags(t.snrBack));
    BodiesOfFour(a, b, c, d, 1);
    BodiesOfFour(a, b, c, d, 2);
    BodiesOfFour(a, b, c, d, 3);
    BodiesOfFour(a, b, c, d, 4);
    AmongNone(Bodies(a, 1));
    AmongNone(Bodies(b, 2));
    AmongNone(Bodies(c, 3));
    AmongNone(Bodies(d, 4));
    PackedWords(1, t.route);
    PackedZigzags(2, t.snr);
    PackedWords(3, t.routeBack);
    PackedZigzags(4, t.snrBack);
  }

  lemma TracerouteShape(t: Traceroute, f: Field)
    requires f in TracerouteFields(t)
    ensures f.FBytes? && f.num < 16
  {
    hide EncWords, EncZigzags;
  }

  lemma TracerouteNotEmpty(t: Traceroute)
    requires t != Traceroute([], [], [], [])
    ensures TracerouteFields(t) != []
  {
  }

  /** Both routes with their signals come back, each up to its sixteenth hop. */
  lemma TracerouteRoundTrip(t: Traceroute)
    requires AreUint32(t.route) && AreInt32(t.snr) && AreUint32(t.routeBack) && AreInt32(t.snrBack)
    requires t != Traceroute([], [], [], []) && |EncFields(TracerouteFields(t))| + 20 < INT_LIMIT
    ensures var d := Envelope(70, EncFields(TracerouteFields(t)));
            DataEnds(d)
            && DataOf(Read(d)) == Accepted(70, TracerouteBody(Traceroute(Front(t.route, 16), Front(t.snr, 16),
                                                                         Front(t.routeBack, 16), Front(t.snrBack, 16))))
  {
    hide EncFields, Read, Backs, LoopEnds, DataOf, DataEnds, TracerouteOf, EncWords, EncZigzags, Front,
         TracerouteFields;
    var fs := TracerouteFields(t);
    forall i | 0 <= i < |fs|
      ensures WellFormed(fs[i])
    {
      TracerouteShape(t, fs[i]);
      BodiesAreShorter(fs, i);
    }
    TracerouteFound(t);
    TracerouteNotEmpty(t);
    ReadEncoded(fs);
    NotEmpty(fs);
    DataEnvelope(70, EncFields(fs));
  }

  // ---------------------------------------------------------------- every port

  /** What the sniffer makes of a payload by its port: it knows twenty-one ports, three of them carry text, six are
      decoded above, four are decoded by functions that are not modelled, and of the rest it shows the first bytes. */
  lemma EveryPort(port: nat, p: Bytes)
    requires port < TWO_32 && p != [] && |p| + 20 < INT_LIMIT
    ensures var r := DataOf(Read(Envelope(port, p)));
            (r == Rejected <==> port !in {1, 2, 3, 4, 5, 6, 8, 10, 34, 64, 65, 66, 67, 68, 69, 70, 71, 72, 73, 74, 75})
            && (r.Accepted? ==> r.port == port)
            && (port in {1, 10, 66} ==> r == Accepted(port, Text(p)))
            && (port in {4, 5, 34, 73} ==> r == Accepted(port, Undecoded(p)))
            && (port in {2, 6, 64, 68, 69, 72, 74, 75} ==>
                  r == Accepted(port, Hex(Front(p, 24), |p|)))
  {
    EnvelopeDecodes(port, p);
    hide DataOf, Envelope, Read;
    assert p[..|p|] == p;
  }

  lemma EnvelopeDecodes(port: nat, p: Bytes)
    requires port < TWO_32 && |p| + 20 < INT_LIMIT
    ensures DataOf(Read(Envelope(port, p))) == DataFrom(port, Some(p))
  {
    hide EncFields, Read, Backs, LoopEnds, LastVarint, LastBody, DataFrom, AllWellFormed;
    EnvelopeFits(port, p);
    ReadEncoded([FVarint(1, port), FBytes(2, p)]);
    EnvelopeRead(port, p);
  }
}
