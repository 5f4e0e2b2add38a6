/** The decoders that hand slices of their buffer to further decoders, up to the Data message. */
module MeshtasticNested {
  import opened Common
  import opened Wire
  import opened DecoderRun
  import opened Fields
  import opened Meshtastic

  // ---------------------------------------------------------------- telemetry

  datatype Metrics =
    | Device(device: DeviceMetrics)
    | Environment(env: EnvMetrics)
    | Local(local: LocalStats)
    | Power(power: PowerMetrics)

  const METRIC_FIELDS: set<nat> := {2, 3, 4, 6}

  function MetricsIn(f: Field): seq<Metrics> {
    if !f.FBytes? then []
    else
      match f.num
      case 2 => [Device(DeviceMetricsOf(Read(f.body)))]
      case 3 => [Environment(EnvMetricsOf(Read(f.body)))]
      case 4 => [Local(LocalStatsOf(Read(f.body)))]
      case 6 => [Power(PowerMetricsOf(Read(f.body)))]
      case _ => []
  }

  /** Every metrics block is decoded and reported, in the order of the message. */
  function TelemetryOf(fs: seq<Field>): seq<Metrics> {
    if fs == [] then [] else TelemetryOf(fs[..|fs| - 1]) + MetricsIn(fs[|fs| - 1])
  }

  lemma TelemetrySnoc(fs: seq<Field>, f: Field)
    ensures TelemetryOf(fs + [f]) == TelemetryOf(fs) + MetricsIn(f)
  {
    assert (fs + [f])[..|fs|] == fs;
  }

  /** The field just visited is one of the message's fields, so what is assumed of those holds of it. */
  lemma BodyEnds(d: Bytes, next: int, visited: set<int>, seen: seq<Field>, f: Field, nums: set<nat>)
    requires Going(d, next, visited, seen + [f]) && BodiesEnd(Read(d), nums)
    ensures f.FBytes? && f.num in nums ==> LoopEnds(f.body)
  {
    assert Read(d)[|seen|] == f;
  }

  method DecodeTelemetry(d: Bytes) returns (r: seq<Metrics>)
    requires LoopEnds(d) && BodiesEnd(Read(d), METRIC_FIELDS)
    ensures r == TelemetryOf(Read(d))
  {
    hide Read, FieldAt, ReadField, Going, LoopEnds, Remaining, VarintVal, Int32, TelemetryOf, BodiesEnd,
         DeviceMetricsOf, EnvMetricsOf, LocalStatsOf, PowerMetricsOf;
    Started(d);
    NothingSeen();
    TelemetryNone();
    r := [];
    var pos: int := 0;
    ghost var seen: seq<Field>, visited: set<int> := [], {};
    while pos < |d|
      invariant Going(d, pos, visited, seen)
      invariant r == TelemetryOf(seen)
      decreases Remaining(d, visited)
    {
      Turn(d, pos, visited, seen);
      var prev := pos;
      var tag;
      tag, pos := PbVarint(d, pos);
      if pos == prev { break; }
      var wt, num := tag % 8, FieldNumber(tag);
      if wt == 2 {
        var sp := pos;
        var sz;
        sz, pos := PbVarint(d, pos);
        if pos == sp || Int32(pos + Int32(sz)) > |d| { break; }
        BodyEnds(d, pos + Int32(sz), visited + {prev}, seen, FieldAt(d, prev), METRIC_FIELDS);
        var body := Slice(d, pos, Int32(sz));
        if num == 2 {
          var m := DecodeDeviceMetrics(body);
          r := r + [Device(m)];
        } else if num == 3 {
          var m := DecodeEnvMetrics(body);
          r := r + [Environment(m)];
        } else if num == 4 {
          var m := DecodeLocalStats(body);
          r := r + [Local(m)];
        } else if num == 6 {
          var m := DecodePowerMetrics(body);
          r := r + [Power(m)];
        }
        pos := pos + Int32(sz);
      } else {
        var ok, next := PbSkip(d, pos, wt);
        if !ok { break; }
        pos := next;
      }
      TelemetrySnoc(seen, FieldAt(d, prev));
      seen, visited := seen + [FieldAt(d, prev)], visited + {prev};
    }
    Over(d, pos, visited, seen);
  }

  lemma TelemetryNone()
    ensures TelemetryOf([]) == []
  {
  }

  // ---------------------------------------------------------------- waypoint

  /** What printing a buffer as a C string shows: the bytes before the first NUL. */
  function CString(b: Bytes): Bytes {
    if b == [] || b[0] == 0 then [] else [b[0]] + CString(b[1..])
  }

  /** The text held after at most `cap` bytes were copied and a NUL put behind them. */
  function Clip(b: Bytes, cap: nat): Bytes {
    CString(if |b| < cap then b else b[..cap])
  }

  datatype Waypoint = Waypoint(
    id: nat, icon: nat, name: Bytes, desc: Bytes, lat: Option<int>, lon: Option<int>)

  function WaypointOf(fs: seq<Field>): Waypoint {
    Waypoint(
      GetOr(Uint(LastVarint(fs, 1)), 0), GetOr(Uint(LastVarint(fs, 6)), 0),
      Clip(GetOr(LastBody(fs, 2), []), 63), Clip(GetOr(LastBody(fs, 3), []), 127),
      Sint(LastVarint(fs, 4)), Sint(LastVarint(fs, 5)))
  }

  lemma WaypointVarint(seen: seq<Field>, f: Field)
    requires f.FVarint?
    ensures WaypointOf(seen + [f])
         == var r := WaypointOf(seen);
            if f.num == 1 then r.(id := f.v % TWO_32)
            else if f.num == 4 then r.(lat := Some(PbZigzag(f.v)))
            else if f.num == 5 then r.(lon := Some(PbZigzag(f.v)))
            else if f.num == 6 then r.(icon := f.v % TWO_32)
            else r
  {
    hide LastVarint, LastBody, PbZigzag, Clip;
    Snoc(seen, f);
  }

  lemma WaypointBody(seen: seq<Field>, f: Field)
    requires f.FBytes?
    ensures WaypointOf(seen + [f])
         == var r := WaypointOf(seen);
            if f.num == 2 then r.(name := Clip(f.body, 63))
            else if f.num == 3 then r.(desc := Clip(f.body, 127))
            else r
  {
    hide LastVarint, LastBody, PbZigzag, Clip;
    Snoc(seen, f);
  }

  lemma WaypointOther(seen: seq<Field>, f: Field)
    requires !f.FVarint? && !f.FBytes?
    ensures WaypointOf(seen + [f]) == WaypointOf(seen)
  {
    hide LastVarint, LastBody, PbZigzag, Clip;
    Snoc(seen, f);
  }

  /** A name or description with a negative length would be copied without bound; any other field may have one. */
  method DecodeWaypoint(d: Bytes) returns (r: Waypoint)
    requires LoopEnds(d) && Backs(d) !! {2, 3}
    ensures r == WaypointOf(Read(d))
  {
    hide Read, FieldAt, ReadField, Going, LoopEnds, Remaining, VarintVal, LastVarint, LastBody, PbZigzag, Int32;
    Started(d);
    NothingSeen();
    r := Waypoint(0, 0, [], [], None, None);
    assert WaypointOf([]) == r;
    hide WaypointOf, Clip;
    var pos: int := 0;
    ghost var seen: seq<Field>, visited: set<int> := [], {};
    while pos < |d|
      invariant Going(d, pos, visited, seen)
      invariant r == WaypointOf(seen)
      decreases Remaining(d, visited)
    {
      Turn(d, pos, visited, seen);
      var prev := pos;
      var tag;
      tag, pos := PbVarint(d, pos);
      if pos == prev { break; }
      var wt, num := tag % 8, FieldNumber(tag);
      if wt == 0 {
        var v;
        v, pos := PbVarint(d, pos);
        if num == 1 { r := r.(id := v % TWO_32); }
        else if num == 4 { r := r.(lat := Some(PbZigzag(v))); }
        else if num == 5 { r := r.(lon := Some(PbZigzag(v))); }
        else if num == 6 { r := r.(icon := v % TWO_32); }
        WaypointVarint(seen, FieldAt(d, prev));
      } else if wt == 2 {
        var sp := pos;
        var sz;
        sz, pos := PbVarint(d, pos);
        if pos == sp || Int32(pos + Int32(sz)) > |d| { break; }
        var body := Slice(d, pos, Int32(sz));
        if num == 2 { r := r.(name := Clip(body, 63)); }
        else if num == 3 { r := r.(desc := Clip(body, 127)); }
        WaypointBody(seen, FieldAt(d, prev));
        pos := pos + Int32(sz);
      } else {
        var ok, next := PbSkip(d, pos, wt);
        if !ok { break; }
        WaypointOther(seen, FieldAt(d, prev));
        pos := next;
      }
      seen, visited := seen + [FieldAt(d, prev)], visited + {prev};
    }
    Over(d, pos, visited, seen);
  }

  // ---------------------------------------------------------------- neighbour info

  datatype Neighbor = Neighbor(id: nat, snr: Option<nat>)

  function NeighborOf(fs: seq<Field>): Neighbor {
    Neighbor(GetOr(Uint(LastVarint(fs, 1)), 0), LastWord(fs, 2))
  }

  function NeighborsOf(bodies: seq<Bytes>): seq<Neighbor> {
    seq(|bodies|, i requires 0 <= i < |bodies| => NeighborOf(Read(bodies[i])))
  }

  /** The neighbours printed (the first six) and how many there were. */
  datatype NeighborInfo = NeighborInfo(shown: seq<Neighbor>, total: nat)

  function NeighborInfoOf(fs: seq<Field>): NeighborInfo {
    var all := NeighborsOf(Bodies(fs, 4));
    NeighborInfo(if |all| <= 6 then all else all[..6], |all|)
  }

  /** One more neighbour heard. */
  function Counted(info: NeighborInfo, n: Neighbor): NeighborInfo {
    NeighborInfo(if info.total < 6 then info.shown + [n] else info.shown, info.total + 1)
  }

  lemma NeighborInfoStep(seen: seq<Field>, f: Field)
    ensures NeighborInfoOf(seen + [f])
         == if f.FBytes? && f.num == 4 then Counted(NeighborInfoOf(seen), NeighborOf(Read(f.body)))
            else NeighborInfoOf(seen)
  {
    hide Read, NeighborOf, Bodies;
    SnocAt(seen, f, 4);
    if f.FBytes? && f.num == 4 {
      var all := NeighborsOf(Bodies(seen, 4));
      var n := NeighborOf(Read(f.body));
      assert NeighborsOf(Bodies(seen, 4) + [f.body]) == all + [n];
      if |all| < 6 {
        assert (all + [n])[..|all + [n]|] == all + [n];
      } else {
        assert (all + [n])[..6] == all[..6];
      }
    }
  }

  /** The inner loop over one Neighbor message. */
  method DecodeNeighbor(d: Bytes) returns (r: Neighbor)
    requires LoopEnds(d)
    ensures r == NeighborOf(Read(d))
  {
    hide Read, FieldAt, ReadField, Going, LoopEnds, Remaining, VarintVal, LastVarint, LastWord, Int32, FromLittleEndian;
    Started(d);
    NothingSeen();
    r := Neighbor(0, None);
    var pos: int := 0;
    ghost var seen: seq<Field>, visited: set<int> := [], {};
    while pos < |d|
      invariant Going(d, pos, visited, seen)
      invariant r == NeighborOf(seen)
      decreases Remaining(d, visited)
    {
      Turn(d, pos, visited, seen);
      var prev := pos;
      var tag;
      tag, pos := PbVarint(d, pos);
      if pos == prev { break; }
      var wt, num := tag % 8, FieldNumber(tag);
      if wt == 0 {
        var v;
        v, pos := PbVarint(d, pos);
        if num == 1 { r := r.(id := v % TWO_32); }
      } else if wt == 5 && pos + 4 <= |d| {
        var f := FromLittleEndian(d[pos..pos + 4]);
        pos := pos + 4;
        if num == 2 { r := r.(snr := Some(f)); }
      } else {
        var ok, next := PbSkip(d, pos, wt);
        if !ok { break; }
        pos := next;
      }
      Snoc(seen, FieldAt(d, prev));
      seen, visited := seen + [FieldAt(d, prev)], visited + {prev};
    }
    Over(d, pos, visited, seen);
  }

  /** Shows the neighbour if there is room, and counts it. */
  method NoteNeighbor(shown: seq<Neighbor>, count: nat, n: Neighbor) returns (shown': seq<Neighbor>, count': nat)
    ensures NeighborInfo(shown', count') == Counted(NeighborInfo(shown, count), n)
  {
    shown' := if count < 6 then shown + [n] else shown;
    count' := count + 1;
  }

  method DecodeNeighborInfo(d: Bytes) returns (r: NeighborInfo)
    requires LoopEnds(d) && BodiesEnd(Read(d), {4})
    ensures r == NeighborInfoOf(Read(d))
  {
    hide Read, FieldAt, ReadField, Going, LoopEnds, Remaining, VarintVal, Bodies, Int32, BodiesEnd, NeighborOf;
    Started(d);
    NothingSeen();
    assert NeighborInfoOf([]) == NeighborInfo([], 0);
    hide NeighborInfoOf, Counted;
    var count := 0;
    var shown: seq<Neighbor> := [];
    var pos: int := 0;
    ghost var seen: seq<Field>, visited: set<int> := [], {};
    while pos < |d|
      invariant Going(d, pos, visited, seen)
      invariant NeighborInfo(shown, count) == NeighborInfoOf(seen)
      decreases Remaining(d, visited)
    {
      Turn(d, pos, visited, seen);
      var prev := pos;
      var tag;
      tag, pos := PbVarint(d, pos);
      if pos == prev { break; }
      var wt, num := tag % 8, FieldNumber(tag);
      if wt == 2 {
        var sp := pos;
        var sz;
        sz, pos := PbVarint(d, pos);
        if pos == sp || Int32(pos + Int32(sz)) > |d| { break; }
        BodyEnds(d, pos + Int32(sz), visited + {prev}, seen, FieldAt(d, prev), {4});
        if num == 4 {
          var n := DecodeNeighbor(Slice(d, pos, Int32(sz)));
          shown, count := NoteNeighbor(shown, count, n);
        }
        pos := pos + Int32(sz);
      } else {
        var ok, next := PbSkip(d, pos, wt);
        if !ok { break; }
        pos := next;
      }
      NeighborInfoStep(seen, FieldAt(d, prev));
      seen, visited := seen + [FieldAt(d, prev)], visited + {prev};
    }
    Over(d, pos, visited, seen);
    r := NeighborInfo(shown, count);
  }

  // ---------------------------------------------------------------- store and forward

  datatype Heartbeat = Heartbeat(period: nat, secondary: nat)
  datatype Stats = Stats(total: nat, saved: nat, max: nat)
  datatype StoreForward = StoreForward(rr: Option<nat>, heartbeat: Option<Heartbeat>, stats: Option<Stats>)

  function UintOrZero(fs: seq<Field>, num: nat): nat {
    GetOr(Uint(LastVarint(fs, num)), 0)
  }

  function HeartbeatOf(fs: seq<Field>): Heartbeat { Heartbeat(UintOrZero(fs, 1), UintOrZero(fs, 2)) }

  function StatsOf(fs: seq<Field>): Stats { Stats(UintOrZero(fs, 1), UintOrZero(fs, 2), UintOrZero(fs, 3)) }

  /** The counters are not reset between two occurrences of the same embedded message, so repeated
      occurrences merge. */
  function StoreForwardOf(fs: seq<Field>): StoreForward {
    StoreForward(
      Uint(LastVarint(fs, 1)),
      if Bodies(fs, 5) == [] then None else Some(HeartbeatOf(SubFields(Bodies(fs, 5)))),
      if Bodies(fs, 3) == [] then None else Some(StatsOf(SubFields(Bodies(fs, 3)))))
  }

  /** The inner loop over a heartbeat or statistics message: it overwrites the first three counters. */
  method MergeCounters(d: Bytes, start: seq<nat>, ghost prior: seq<Field>) returns (c: seq<nat>)
    requires LoopEnds(d) && |start| == 3
    requires forall i :: 0 <= i < 3 ==> start[i] == UintOrZero(prior, i + 1)
    ensures |c| == 3
    ensures forall i :: 0 <= i < 3 ==> c[i] == UintOrZero(prior + Read(d), i + 1)
  {
    hide Read, FieldAt, ReadField, Going, LoopEnds, Remaining, VarintVal, LastVarint, Int32;
    Started(d);
    NothingSeen();
    c := start;
    var pos: int := 0;
    ghost var seen: seq<Field>, visited: set<int> := [], {};
    assert prior + seen == prior;
    while pos < |d|
      invariant Going(d, pos, visited, seen)
      invariant |c| == 3
      invariant forall i :: 0 <= i < 3 ==> c[i] == UintOrZero(prior + seen, i + 1)
      decreases Remaining(d, visited)
    {
      Turn(d, pos, visited, seen);
      var prev := pos;
      var tag;
      tag, pos := PbVarint(d, pos);
      if pos == prev { break; }
      var wt, num := tag % 8, FieldNumber(tag);
      if wt == 0 {
        var v;
        v, pos := PbVarint(d, pos);
        if 1 <= num <= 3 { c := c[num - 1 := v % TWO_32]; }
      } else {
        var ok, next := PbSkip(d, pos, wt);
        if !ok { break; }
        pos := next;
      }
      ghost var f := FieldAt(d, prev);
      Snoc(prior + seen, f);
      assert prior + (seen + [f]) == prior + seen + [f];
      seen, visited := seen + [f], visited + {prev};
    }
    Over(d, pos, visited, seen);
  }

  /** The variables of the decoder's loop. */
  datatype Counters = Counters(rr: Option<nat>, hasHeartbeat: bool, hb: seq<nat>, hasStats: bool, st: seq<nat>)

  function ThreeOf(bodies: seq<Bytes>): seq<nat> {
    var fs := SubFields(bodies);
    [UintOrZero(fs, 1), UintOrZero(fs, 2), UintOrZero(fs, 3)]
  }

  function CountersOf(fs: seq<Field>): Counters {
    Counters(Uint(LastVarint(fs, 1)), Bodies(fs, 5) != [], ThreeOf(Bodies(fs, 5)),
             Bodies(fs, 3) != [], ThreeOf(Bodies(fs, 3)))
  }

  lemma CountersStep(seen: seq<Field>, f: Field)
    ensures CountersOf(seen + [f])
         == var c := CountersOf(seen);
            if f.FVarint? && f.num == 1 then c.(rr := Some(f.v % TWO_32))
            else if f.FBytes? && f.num == 5 then c.(hasHeartbeat := true, hb := ThreeOf(Bodies(seen, 5) + [f.body]))
            else if f.FBytes? && f.num == 3 then c.(hasStats := true, st := ThreeOf(Bodies(seen, 3) + [f.body]))
            else c
  {
    hide LastVarint, Bodies, ThreeOf;
    SnocAt(seen, f, 1);
    SnocAt(seen, f, 3);
    SnocAt(seen, f, 5);
  }

  /** The branch taken for an embedded message. */
  method MergeEmbedded(c: Counters, num: nat, body: Bytes, ghost seen: seq<Field>) returns (r: Counters)
    requires c == CountersOf(seen) && (num == 3 || num == 5 ==> LoopEnds(body))
    ensures r == if num == 5 then c.(hasHeartbeat := true, hb := ThreeOf(Bodies(seen, 5) + [body]))
                 else if num == 3 then c.(hasStats := true, st := ThreeOf(Bodies(seen, 3) + [body]))
                 else c
  {
    hide Read, Bodies, LastVarint, SubFields, UintOrZero;
    r := c;
    if num == 5 {
      var hb := MergeCounters(body, c.hb, SubFields(Bodies(seen, 5)));
      SubFieldsSnoc(Bodies(seen, 5), body);
      r := c.(hasHeartbeat := true, hb := hb);
    } else if num == 3 {
      var st := MergeCounters(body, c.st, SubFields(Bodies(seen, 3)));
      SubFieldsSnoc(Bodies(seen, 3), body);
      r := c.(hasStats := true, st := st);
    }
  }

  method DecodeStoreForward(d: Bytes) returns (r: StoreForward)
    requires LoopEnds(d) && BodiesEnd(Read(d), {3, 5})
    ensures r == StoreForwardOf(Read(d))
  {
    hide Read, FieldAt, ReadField, Going, LoopEnds, Remaining, VarintVal, Int32, BodiesEnd;
    Started(d);
    NothingSeen();
    SubFieldsNone();
    var c := Counters(None, false, [0, 0, 0], false, [0, 0, 0]);
    hide CountersOf, ThreeOf, Bodies;
    var pos: int := 0;
    ghost var seen: seq<Field>, visited: set<int> := [], {};
    while pos < |d|
      invariant Going(d, pos, visited, seen)
      invariant c == CountersOf(seen)
      decreases Remaining(d, visited)
    {
      Turn(d, pos, visited, seen);
      var prev := pos;
      var tag;
      tag, pos := PbVarint(d, pos);
      if pos == prev { break; }
      var wt, num := tag % 8, FieldNumber(tag);
      if wt == 0 {
        var v;
        v, pos := PbVarint(d, pos);
        if num == 1 { c := c.(rr := Some(v % TWO_32)); }
      } else if wt == 2 {
        var sp := pos;
        var sz;
        sz, pos := PbVarint(d, pos);
        if pos == sp || Int32(pos + Int32(sz)) > |d| { break; }
        BodyEnds(d, pos + Int32(sz), visited + {prev}, seen, FieldAt(d, prev), {3, 5});
        c := MergeEmbedded(c, num, Slice(d, pos, Int32(sz)), seen);
        pos := pos + Int32(sz);
      } else {
        var ok, next := PbSkip(d, pos, wt);
        if !ok { break; }
        pos := next;
      }
      CountersStep(seen, FieldAt(d, prev));
      seen, visited := seen + [FieldAt(d, prev)], visited + {prev};
    }
    Over(d, pos, visited, seen);
    CountersRead(seen, c);
    r := StoreForward(
      c.rr,
      if c.hasHeartbeat then Some(Heartbeat(c.hb[0], c.hb[1])) else None,
      if c.hasStats then Some(Stats(c.st[0], c.st[1], c.st[2])) else None);
  }

  /** What the decoder prints from its counters at the end. */
  lemma CountersRead(fs: seq<Field>, c: Counters)
    requires c == CountersOf(fs)
    ensures |c.hb| == |c.st| == 3
    ensures StoreForwardOf(fs)
         == StoreForward(c.rr, if c.hasHeartbeat then Some(Heartbeat(c.hb[0], c.hb[1])) else None,
                         if c.hasStats then Some(Stats(c.st[0], c.st[1], c.st[2])) else None)
  {
  }

  lemma SubFieldsNone()
    ensures CountersOf([]) == Counters(None, false, [0, 0, 0], false, [0, 0, 0])
  {
    assert SubFields([]) == [] && LastVarint([], 1) == LastVarint([], 2) == LastVarint([], 3) == None;
  }

  // ---------------------------------------------------------------- traceroute

  /** The complete 4-byte words of a packed fixed32 list. */
  function Words(b: Bytes): seq<nat> {
    if |b| < 4 then [] else [FromLittleEndian(b[..4])] + Words(b[4..])
  }

  /** The values of a packed zigzag list. */
  function Zigzags(b: Bytes, pos: nat): seq<int>
    requires pos <= |b|
    decreases |b| - pos
  {
    if pos == |b| then [] else [PbZigzag(VarintVal(b, pos))] + Zigzags(b, VarintEnd(b, pos))
  }

  function AllWords(bodies: seq<Bytes>): seq<nat> {
    if bodies == [] then [] else AllWords(bodies[..|bodies| - 1]) + Words(bodies[|bodies| - 1])
  }

  function AllZigzags(bodies: seq<Bytes>): seq<int> {
    if bodies == [] then [] else AllZigzags(bodies[..|bodies| - 1]) + Zigzags(bodies[|bodies| - 1], 0)
  }

  function First16<T>(s: seq<T>): (r: seq<T>)
    ensures |r| <= 16
  {
    if |s| <= 16 then s else s[..16]
  }

  datatype Traceroute = Traceroute(route: seq<nat>, snr: seq<int>, routeBack: seq<nat>, snrBack: seq<int>)

  /** The first sixteen packed entries seen under each field number. */
  function TracerouteOf(fs: seq<Field>): Traceroute {
    Traceroute(
      First16(AllWords(Bodies(fs, 1))), First16(AllZigzags(Bodies(fs, 2))),
      First16(AllWords(Bodies(fs, 3))), First16(AllZigzags(Bodies(fs, 4))))
  }

  lemma First16Absorbs<T>(a: seq<T>, b: seq<T>)
    ensures First16(First16(a) + b) == First16(a + b)
  {
  }

  lemma AllSnoc(bodies: seq<Bytes>, b: Bytes)
    ensures AllWords(bodies + [b]) == AllWords(bodies) + Words(b)
    ensures AllZigzags(bodies + [b]) == AllZigzags(bodies) + Zigzags(b, 0)
  {
    assert (bodies + [b])[..|bodies|] == bodies;
  }

  /** Appends the complete words of a packed list to the array, until sixteen are held. */
  method AppendWords(arr: array<nat>, start: nat, blob: Bytes) returns (cnt: nat)
    requires arr.Length == 16 && start <= 16
    modifies arr
    ensures start <= cnt <= 16
    ensures arr[..cnt] == First16(old(arr[..start]) + Words(blob))
  {
    cnt := start;
    var i := 0;
    assert blob[0..] == blob;
    while i + 4 <= |blob| && cnt < 16
      invariant 0 <= i <= |blob| && start <= cnt <= 16
      invariant arr[..cnt] + Words(blob[i..]) == old(arr[..start]) + Words(blob)
    {
      ghost var before := arr[..cnt];
      arr[cnt] := FromLittleEndian(blob[i..i + 4]);
      assert blob[i..][..4] == blob[i..i + 4] && blob[i..][4..] == blob[i + 4..];
      assert arr[..cnt + 1] == before + [arr[cnt]];
      cnt := cnt + 1;
      i := i + 4;
    }
  }

  method AppendZigzags(arr: array<int>, start: nat, blob: Bytes) returns (cnt: nat)
    requires arr.Length == 16 && start <= 16
    modifies arr
    ensures start <= cnt <= 16
    ensures arr[..cnt] == First16(old(arr[..start]) + Zigzags(blob, 0))
  {
    hide PbZigzag, VarintVal;
    cnt := start;
    var bp := 0;
    while bp < |blob| && cnt < 16
      invariant 0 <= bp <= |blob| && start <= cnt <= 16
      invariant arr[..cnt] + Zigzags(blob, bp) == old(arr[..start]) + Zigzags(blob, 0)
      decreases |blob| - bp
    {
      var prev := bp;
      var v;
      v, bp := PbVarint(blob, bp);
      if bp == prev { break; }
      ghost var before := arr[..cnt];
      arr[cnt] := PbZigzag(v);
      assert arr[..cnt + 1] == before + [PbZigzag(v)];
      cnt := cnt + 1;
    }
  }

  /** One more length-delimited field of the message. */
  function Extended(r: Traceroute, num: nat, b: Bytes): Traceroute {
    if num == 1 then r.(route := First16(r.route + Words(b)))
    else if num == 2 then r.(snr := First16(r.snr + Zigzags(b, 0)))
    else if num == 3 then r.(routeBack := First16(r.routeBack + Words(b)))
    else if num == 4 then r.(snrBack := First16(r.snrBack + Zigzags(b, 0)))
    else r
  }

  lemma TracerouteStep(seen: seq<Field>, f: Field)
    ensures TracerouteOf(seen + [f])
         == if f.FBytes? then Extended(TracerouteOf(seen), f.num, f.body) else TracerouteOf(seen)
  {
    hide Bodies, AllWords, AllZigzags, Words, Zigzags, First16;
    SnocAt(seen, f, 1);
    SnocAt(seen, f, 2);
    SnocAt(seen, f, 3);
    SnocAt(seen, f, 4);
    if f.FBytes? {
      var bodies := Bodies(seen, f.num);
      AllSnoc(bodies, f.body);
      First16Absorbs(AllWords(bodies), Words(f.body));
      First16Absorbs(AllZigzags(bodies), Zigzags(f.body, 0));
    }
  }

  /** The four fixed arrays of the decoder and how much of each is filled. */
  class Hops {
    const route: array<nat>
    const routeBack: array<nat>
    const snr: array<int>
    const snrBack: array<int>
    var nfwd: nat
    var nback: nat
    var nsnrf: nat
    var nsnrb: nat

    ghost predicate Valid()
      reads this
    {
      route.Length == routeBack.Length == snr.Length == snrBack.Length == 16 && route != routeBack && snr != snrBack
      && nfwd <= 16 && nback <= 16 && nsnrf <= 16 && nsnrb <= 16
    }

    function Held(): Traceroute
      requires Valid()
      reads this, route, routeBack, snr, snrBack
    {
      Traceroute(route[..nfwd], snr[..nsnrf], routeBack[..nback], snrBack[..nsnrb])
    }

    constructor ()
      ensures Valid() && fresh(route) && fresh(routeBack) && fresh(snr) && fresh(snrBack)
      ensures Held() == Traceroute([], [], [], [])
    {
      route, routeBack := new nat[16], new nat[16];
      snr, snrBack := new int[16], new int[16];
      nfwd, nback, nsnrf, nsnrb := 0, 0, 0, 0;
    }

    method Append(num: nat, blob: Bytes)
      requires Valid()
      modifies this, route, routeBack, snr, snrBack
      ensures Valid() && Held() == Extended(old(Held()), num, blob)
    {
      hide First16, Words, Zigzags;
      if num == 1 {
        nfwd := AppendWords(route, nfwd, blob);
      } else if num == 3 {
        nback := AppendWords(routeBack, nback, blob);
      } else if num == 2 {
        nsnrf := AppendZigzags(snr, nsnrf, blob);
      } else if num == 4 {
        nsnrb := AppendZigzags(snrBack, nsnrb, blob);
      }
    }
  }

  method DecodeTraceroute(d: Bytes) returns (r: Traceroute)
    requires LoopEnds(d)
    ensures r == TracerouteOf(Read(d))
  {
    hide Read, FieldAt, ReadField, Going, LoopEnds, Remaining, VarintVal, Int32, VarintEnd, FromLittleEndian, Extended;
    Started(d);
    NothingSeen();
    AllNone();
    var hops := new Hops();
    hide TracerouteOf;
    var pos: int := 0;
    ghost var seen: seq<Field>, visited: set<int> := [], {};
    while pos < |d|
      invariant Going(d, pos, visited, seen)
      invariant hops.Valid() && hops.Held() == TracerouteOf(seen)
      decreases Remaining(d, visited)
    {
      Turn(d, pos, visited, seen);
      var prev := pos;
      var tag;
      tag, pos := PbVarint(d, pos);
      if pos == prev { break; }
      var wt, num := tag % 8, FieldNumber(tag);
      if wt == 2 {
        var sp := pos;
        var sz;
        sz, pos := PbVarint(d, pos);
        if pos == sp || Int32(pos + Int32(sz)) > |d| { break; }
        hops.Append(num, Slice(d, pos, Int32(sz)));
        pos := pos + Int32(sz);
      } else {
        var ok, next := PbSkip(d, pos, wt);
        if !ok { break; }
        pos := next;
      }
      TracerouteStep(seen, FieldAt(d, prev));
      seen, visited := seen + [FieldAt(d, prev)], visited + {prev};
    }
    Over(d, pos, visited, seen);
    r := hops.Held();
  }

  lemma AllNone()
    ensures First16(AllWords([])) == [] && First16(AllZigzags([])) == []
    ensures TracerouteOf([]) == Traceroute([], [], [], [])
  {
    assert Bodies([], 1) == Bodies([], 2) == Bodies([], 3) == Bodies([], 4) == [];
    assert AllWords([]) == [] && AllZigzags([]) == [];
  }
}
