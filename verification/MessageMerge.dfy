/** Decoding a concatenation of two messages is merging the two decodings. */
module MessageMerge {
  import opened Common
  import opened Wire
  import opened DecoderRun
  import opened Fields
  import opened Meshtastic
  import opened MeshtasticNested
  import opened DataMessage

  // ---------------------------------------------------------------- the later message wins where it speaks

  function MergePosition(x: Position, y: Position): Position {
    Position(OrElse(y.lat, x.lat), OrElse(y.lon, x.lon), OrElse(y.alt, x.alt))
  }

  function MergeDeviceMetrics(x: DeviceMetrics, y: DeviceMetrics): DeviceMetrics {
    DeviceMetrics(OrElse(y.battery, x.battery), OrElse(y.voltage, x.voltage),
                  OrElse(y.channelUtil, x.channelUtil), OrElse(y.airUtil, x.airUtil),
                  OrElse(y.uptime, x.uptime))
  }

  function MergeEnvMetrics(x: EnvMetrics, y: EnvMetrics): EnvMetrics {
    EnvMetrics(OrElse(y.temperature, x.temperature), OrElse(y.humidity, x.humidity),
               OrElse(y.pressure, x.pressure))
  }

  function MergeLocalStats(x: LocalStats, y: LocalStats): LocalStats {
    LocalStats(OrElse(y.uptime, x.uptime), OrElse(y.channelUtil, x.channelUtil), OrElse(y.airUtil, x.airUtil),
               OrElse(y.tx, x.tx), OrElse(y.rx, x.rx), OrElse(y.online, x.online), OrElse(y.total, x.total))
  }

  function MergePowerMetrics(x: PowerMetrics, y: PowerMetrics): PowerMetrics {
    PowerMetrics(OrElse(y.ch1v, x.ch1v), OrElse(y.ch1i, x.ch1i), OrElse(y.ch2v, x.ch2v), OrElse(y.ch2i, x.ch2i),
                 OrElse(y.ch3v, x.ch3v), OrElse(y.ch3i, x.ch3i))
  }

  /** Lists are joined, then cut at sixteen. */
  function MergeTraceroute(x: Traceroute, y: Traceroute): Traceroute {
    Traceroute(First16(x.route + y.route), First16(x.snr + y.snr),
               First16(x.routeBack + y.routeBack), First16(x.snrBack + y.snrBack))
  }

  /** The neighbours of both, of which six are shown. */
  function MergeNeighborInfo(x: NeighborInfo, y: NeighborInfo): NeighborInfo {
    var shown := x.shown + y.shown;
    NeighborInfo(if |shown| <= 6 then shown else shown[..6], x.total + y.total)
  }

  /** A waypoint cannot tell an absent id, icon or text from an empty one, so what the later message holds
      decides. */
  function MergeWaypoint(x: Waypoint, y: Waypoint, later: seq<Field>): Waypoint {
    Waypoint(if LastVarint(later, 1).Some? then y.id else x.id,
             if LastVarint(later, 6).Some? then y.icon else x.icon,
             if LastBody(later, 2).Some? then y.name else x.name,
             if LastBody(later, 3).Some? then y.desc else x.desc,
             OrElse(y.lat, x.lat), OrElse(y.lon, x.lon))
  }

  /** Embedded messages merge too: `hb` and `st` are the fields the later heartbeats and statistics hold. */
  function MergeStoreForward(x: StoreForward, y: StoreForward, hb: seq<Field>, st: seq<Field>): StoreForward {
    StoreForward(
      OrElse(y.rr, x.rr),
      if x.heartbeat.None? then y.heartbeat
      else if y.heartbeat.None? then x.heartbeat
      else
        var (p, q) := (x.heartbeat.value, y.heartbeat.value);
        Some(Heartbeat(Decided(hb, 1, p.period, q.period), Decided(hb, 2, p.secondary, q.secondary))),
      if x.stats.None? then y.stats
      else if y.stats.None? then x.stats
      else
        var (p, q) := (x.stats.value, y.stats.value);
        Some(Stats(Decided(st, 1, p.total, q.total), Decided(st, 2, p.saved, q.saved),
                   Decided(st, 3, p.max, q.max))))
  }

  function Decided(later: seq<Field>, num: nat, x: nat, y: nat): nat {
    if LastVarint(later, num).Some? then y else x
  }

  /** A complete message, however encoded, followed by any further bytes decodes to the merge of the two
      decodings, for every decoder. */
  lemma ConcatMerges(a: Bytes, b: Bytes)
    requires Complete(a, 0) && |a + b| < INT_LIMIT && LengthsFit(a + b, 0)
    ensures var xs, ys, all := Read(a), Read(b), Read(a + b);
            PositionOf(all) == MergePosition(PositionOf(xs), PositionOf(ys))
            && DeviceMetricsOf(all) == MergeDeviceMetrics(DeviceMetricsOf(xs), DeviceMetricsOf(ys))
            && EnvMetricsOf(all) == MergeEnvMetrics(EnvMetricsOf(xs), EnvMetricsOf(ys))
            && LocalStatsOf(all) == MergeLocalStats(LocalStatsOf(xs), LocalStatsOf(ys))
            && PowerMetricsOf(all) == MergePowerMetrics(PowerMetricsOf(xs), PowerMetricsOf(ys))
            && TelemetryOf(all) == TelemetryOf(xs) + TelemetryOf(ys)
            && NeighborInfoOf(all) == MergeNeighborInfo(NeighborInfoOf(xs), NeighborInfoOf(ys))
            && TracerouteOf(all) == MergeTraceroute(TracerouteOf(xs), TracerouteOf(ys))
            && WaypointOf(all) == MergeWaypoint(WaypointOf(xs), WaypointOf(ys), ys)
            && StoreForwardOf(all) == MergeStoreForward(StoreForwardOf(xs), StoreForwardOf(ys),
                                                        SubFields(Bodies(ys, 5)), SubFields(Bodies(ys, 3)))
            && DataOf(all) == DataFrom(Decided(ys, 1, UintOrZero(xs, 1), UintOrZero(ys, 1)),
                                       OrElse(LastBody(ys, 2), LastBody(xs, 2)))
  {
    hide *;
    ParseAppend(a, b);
    FitIsRead(a);
    FitIsRead(b);
    FitIsRead(a + b);
    var xs, ys := Read(a), Read(b);
    FlatMerges(xs, ys);
    TelemetryConcat(xs, ys);
    NeighborsMerge(xs, ys);
    TraceroutesMerge(xs, ys);
    WaypointsMerge(xs, ys);
    StoreForwardsMerge(xs, ys);
    DataMerges(xs, ys);
  }

  lemma LastSeven(xs: seq<Field>, ys: seq<Field>)
    ensures forall num :: 1 <= num <= 7 ==>
              LastVarint(xs + ys, num) == OrElse(LastVarint(ys, num), LastVarint(xs, num))
              && LastWord(xs + ys, num) == OrElse(LastWord(ys, num), LastWord(xs, num))
              && LastBody(xs + ys, num) == OrElse(LastBody(ys, num), LastBody(xs, num))
              && Bodies(xs + ys, num) == Bodies(xs, num) + Bodies(ys, num)
  {
    forall num | 1 <= num <= 7
      ensures LastVarint(xs + ys, num) == OrElse(LastVarint(ys, num), LastVarint(xs, num))
              && LastWord(xs + ys, num) == OrElse(LastWord(ys, num), LastWord(xs, num))
              && LastBody(xs + ys, num) == OrElse(LastBody(ys, num), LastBody(xs, num))
              && Bodies(xs + ys, num) == Bodies(xs, num) + Bodies(ys, num)
    {
      LastWins(xs, ys, num);
    }
  }

  lemma FlatMerges(xs: seq<Field>, ys: seq<Field>)
    ensures PositionOf(xs + ys) == MergePosition(PositionOf(xs), PositionOf(ys))
    ensures DeviceMetricsOf(xs + ys) == MergeDeviceMetrics(DeviceMetricsOf(xs), DeviceMetricsOf(ys))
    ensures EnvMetricsOf(xs + ys) == MergeEnvMetrics(EnvMetricsOf(xs), EnvMetricsOf(ys))
    ensures LocalStatsOf(xs + ys) == MergeLocalStats(LocalStatsOf(xs), LocalStatsOf(ys))
    ensures PowerMetricsOf(xs + ys) == MergePowerMetrics(PowerMetricsOf(xs), PowerMetricsOf(ys))
  {
    hide LastVarint, LastWord, LastBody, Bodies, PbZigzag, Int32;
    LastSeven(xs, ys);
  }

  lemma NeighborsMerge(xs: seq<Field>, ys: seq<Field>)
    ensures NeighborInfoOf(xs + ys) == MergeNeighborInfo(NeighborInfoOf(xs), NeighborInfoOf(ys))
  {
    hide Bodies, NeighborOf, Read;
    LastWins(xs, ys, 4);
    var (p, q) := (NeighborsOf(Bodies(xs, 4)), NeighborsOf(Bodies(ys, 4)));
    assert NeighborsOf(Bodies(xs, 4) + Bodies(ys, 4)) == p + q;
    hide NeighborsOf;
    SixOfBoth(p, q);
  }

  lemma SixOfBoth<T>(p: seq<T>, q: seq<T>)
    ensures var shown := (if |p| <= 6 then p else p[..6]) + (if |q| <= 6 then q else q[..6]);
            (if |p + q| <= 6 then p + q else (p + q)[..6]) == if |shown| <= 6 then shown else shown[..6]
  {
  }

  lemma First16OfBoth<T>(a: seq<T>, b: seq<T>)
    ensures First16(First16(a) + First16(b)) == First16(a + b)
  {
  }

  lemma TraceroutesMerge(xs: seq<Field>, ys: seq<Field>)
    ensures TracerouteOf(xs + ys) == MergeTraceroute(TracerouteOf(xs), TracerouteOf(ys))
  {
    hide Bodies, AllWords, AllZigzags, First16, LastVarint, LastWord, LastBody;
    LastSeven(xs, ys);
    WordsMerge(Bodies(xs, 1), Bodies(ys, 1));
    ZigzagsMerge(Bodies(xs, 2), Bodies(ys, 2));
    WordsMerge(Bodies(xs, 3), Bodies(ys, 3));
    ZigzagsMerge(Bodies(xs, 4), Bodies(ys, 4));
  }

  lemma {:induction false} AllWordsConcat(a: seq<Bytes>, b: seq<Bytes>)
    ensures AllWords(a + b) == AllWords(a) + AllWords(b)
    decreases |b|
  {
    hide Words;
    if b == [] {
      assert a + b == a;
    } else {
      assert (a + b)[..|a + b| - 1] == a + b[..|b| - 1];
      AllWordsConcat(a, b[..|b| - 1]);
    }
  }

  lemma {:induction false} AllZigzagsConcat(a: seq<Bytes>, b: seq<Bytes>)
    ensures AllZigzags(a + b) == AllZigzags(a) + AllZigzags(b)
    decreases |b|
  {
    hide Zigzags;
    if b == [] {
      assert a + b == a;
    } else {
      assert (a + b)[..|a + b| - 1] == a + b[..|b| - 1];
      AllZigzagsConcat(a, b[..|b| - 1]);
    }
  }

  lemma WordsMerge(a: seq<Bytes>, b: seq<Bytes>)
    ensures First16(AllWords(a + b)) == First16(First16(AllWords(a)) + First16(AllWords(b)))
  {
    AllWordsConcat(a, b);
    First16OfBoth(AllWords(a), AllWords(b));
  }

  lemma ZigzagsMerge(a: seq<Bytes>, b: seq<Bytes>)
    ensures First16(AllZigzags(a + b)) == First16(First16(AllZigzags(a)) + First16(AllZigzags(b)))
  {
    AllZigzagsConcat(a, b);
    First16OfBoth(AllZigzags(a), AllZigzags(b));
  }

  lemma WaypointsMerge(xs: seq<Field>, ys: seq<Field>)
    ensures WaypointOf(xs + ys) == MergeWaypoint(WaypointOf(xs), WaypointOf(ys), ys)
  {
    hide LastVarint, LastWord, LastBody, Bodies, PbZigzag, Clip;
    LastSeven(xs, ys);
  }

  lemma {:induction false} SubFieldsConcat(a: seq<Bytes>, b: seq<Bytes>)
    ensures SubFields(a + b) == SubFields(a) + SubFields(b)
    decreases |b|
  {
    hide Read;
    if b == [] {
      assert a + b == a;
    } else {
      assert (a + b)[..|a + b| - 1] == a + b[..|b| - 1];
      SubFieldsConcat(a, b[..|b| - 1]);
    }
  }

  lemma CountMerges(xs: seq<Field>, ys: seq<Field>, num: nat)
    ensures UintOrZero(xs + ys, num) == Decided(ys, num, UintOrZero(xs, num), UintOrZero(ys, num))
  {
    hide LastVarint;
    LastWins(xs, ys, num);
  }

  lemma StoreForwardsMerge(xs: seq<Field>, ys: seq<Field>)
    ensures StoreForwardOf(xs + ys)
         == MergeStoreForward(StoreForwardOf(xs), StoreForwardOf(ys),
                              SubFields(Bodies(ys, 5)), SubFields(Bodies(ys, 3)))
  {
    hide LastVarint, LastWord, LastBody, Bodies, SubFields, UintOrZero;
    LastWins(xs, ys, 1);
    LastWins(xs, ys, 3);
    LastWins(xs, ys, 5);
    var (h, i) := (SubFields(Bodies(xs, 5)), SubFields(Bodies(ys, 5)));
    var (s, t) := (SubFields(Bodies(xs, 3)), SubFields(Bodies(ys, 3)));
    SubFieldsConcat(Bodies(xs, 5), Bodies(ys, 5));
    SubFieldsConcat(Bodies(xs, 3), Bodies(ys, 3));
    CountMerges(h, i, 1);
    CountMerges(h, i, 2);
    CountMerges(s, t, 1);
    CountMerges(s, t, 2);
    CountMerges(s, t, 3);
    hide Decided;
    EmptySides(Bodies(xs, 5), Bodies(ys, 5));
    EmptySides(Bodies(xs, 3), Bodies(ys, 3));
  }

  lemma EmptySides<T>(a: seq<T>, b: seq<T>)
    ensures a == [] ==> a + b == b
    ensures b == [] ==> a + b == a
    ensures a + b == [] <==> a == [] && b == []
  {
    if a + b == [] { assert |a| + |b| == 0; }
  }

  lemma DataMerges(xs: seq<Field>, ys: seq<Field>)
    ensures DataOf(xs + ys) == DataFrom(Decided(ys, 1, UintOrZero(xs, 1), UintOrZero(ys, 1)),
                                        OrElse(LastBody(ys, 2), LastBody(xs, 2)))
  {
    hide LastVarint, LastWord, LastBody, Bodies, DataFrom, UintOrZero;
    CountMerges(xs, ys, 1);
    LastWins(xs, ys, 2);
  }
}
