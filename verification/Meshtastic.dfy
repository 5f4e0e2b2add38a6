/** The sub-message decoders of the packet sniffer: each `while` loop of the C file, returning the
    record it prints, proved against "the last occurrence of each field". */
module Meshtastic {
  import opened Common
  import opened Wire
  import opened DecoderRun
  import opened Fields

  datatype Position = Position(lat: Option<int>, lon: Option<int>, alt: Option<int>)

  function PositionOf(fs: seq<Field>): Position {
    Position(Sint(LastVarint(fs, 1)), Sint(LastVarint(fs, 2)), Int(LastVarint(fs, 3)))
  }

  method DecodePosition(d: Bytes) returns (r: Position)
    requires LoopEnds(d)
    ensures r == PositionOf(Read(d))
  {
    hide Read, FieldAt, ReadField, Going, LoopEnds, Remaining, VarintVal, LastVarint, PbZigzag, Int32;
    Started(d);
    NothingSeen();
    var lat, lon, alt := None, None, None;
    var pos: int := 0;
    ghost var seen: seq<Field>, visited: set<int> := [], {};
    while pos < |d|
      invariant Going(d, pos, visited, seen)
      invariant Position(lat, lon, alt) == PositionOf(seen)
      decreases Remaining(d, visited)
    {
      Turn(d, pos, visited, seen);
      var prev := pos;
      var tag;
      tag, pos := PbVarint(d, pos);
      if pos == prev { break; }
      var wt, num := tag % 8, FieldNumber(tag);
      if wt == 0 {
        var v;
        v, pos := PbVarint(d, pos);
        if num == 1 { lat := Some(PbZigzag(v)); }
        else if num == 2 { lon := Some(PbZigzag(v)); }
        else if num == 3 { alt := Some(Int32(v)); }
      } else {
        var ok, next := PbSkip(d, pos, wt);
        if !ok { break; }
        pos := next;
      }
      Snoc(seen, FieldAt(d, prev));
      seen, visited := seen + [FieldAt(d, prev)], visited + {prev};
    }
    Over(d, pos, visited, seen);
    r := Position(lat, lon, alt);
  }

  /** Floats stay the raw 32-bit words they arrive as. */
  datatype DeviceMetrics = DeviceMetrics(
    battery: Option<nat>, voltage: Option<nat>, channelUtil: Option<nat>, airUtil: Option<nat>, uptime: Option<nat>)

  function DeviceMetricsOf(fs: seq<Field>): DeviceMetrics {
    DeviceMetrics(Uint(LastVarint(fs, 1)), LastWord(fs, 2), LastWord(fs, 3), LastWord(fs, 4), Uint(LastVarint(fs, 5)))
  }

  method DecodeDeviceMetrics(d: Bytes) returns (r: DeviceMetrics)
    requires LoopEnds(d)
    ensures r == DeviceMetricsOf(Read(d))
  {
    hide Read, FieldAt, ReadField, Going, LoopEnds, Remaining, VarintVal, LastVarint, LastWord, LastBody,
         Bodies, PbZigzag, Int32, FromLittleEndian;
    Started(d);
    NothingSeen();
    r := DeviceMetrics(None, None, None, None, None);
    var pos: int := 0;
    ghost var seen: seq<Field>, visited: set<int> := [], {};
    while pos < |d|
      invariant Going(d, pos, visited, seen)
      invariant r == DeviceMetricsOf(seen)
      decreases Remaining(d, visited)
    {
      Turn(d, pos, visited, seen);
      var prev := pos;
      var tag;
      tag, pos := PbVarint(d, pos);
      if pos == prev { break; }
      var wt, num := tag % 8, FieldNumber(tag);
      if wt == 0 {
        var v;
        v, pos := PbVarint(d, pos);
        if num == 1 { r := r.(battery := Some(v % TWO_32)); }
        else if num == 5 { r := r.(uptime := Some(v % TWO_32)); }
      } else if wt == 5 && pos + 4 <= |d| {
        var f := FromLittleEndian(d[pos..pos + 4]);
        pos := pos + 4;
        if num == 2 { r := r.(voltage := Some(f)); }
        else if num == 3 { r := r.(channelUtil := Some(f)); }
        else if num == 4 { r := r.(airUtil := Some(f)); }
      } else {
        var ok, next := PbSkip(d, pos, wt);
        if !ok { break; }
        pos := next;
      }
      Snoc(seen, FieldAt(d, prev));
      seen, visited := seen + [FieldAt(d, prev)], visited + {prev};
    }
    Over(d, pos, visited, seen);
  }

  /** Environment readings, raw words. */
  datatype EnvMetrics = EnvMetrics(temperature: Option<nat>, humidity: Option<nat>, pressure: Option<nat>)

  function EnvMetricsOf(fs: seq<Field>): EnvMetrics {
    EnvMetrics(LastWord(fs, 1), LastWord(fs, 2), LastWord(fs, 3))
  }

  method DecodeEnvMetrics(d: Bytes) returns (r: EnvMetrics)
    requires LoopEnds(d)
    ensures r == EnvMetricsOf(Read(d))
  {
    hide Read, FieldAt, ReadField, Going, LoopEnds, Remaining, VarintVal, LastVarint, LastWord, LastBody,
         Bodies, PbZigzag, Int32, FromLittleEndian;
    Started(d);
    NothingSeen();
    r := EnvMetrics(None, None, None);
    var pos: int := 0;
    ghost var seen: seq<Field>, visited: set<int> := [], {};
    while pos < |d|
      invariant Going(d, pos, visited, seen)
      invariant r == EnvMetricsOf(seen)
      decreases Remaining(d, visited)
    {
      Turn(d, pos, visited, seen);
      var prev := pos;
      var tag;
      tag, pos := PbVarint(d, pos);
      if pos == prev { break; }
      var wt, num := tag % 8, FieldNumber(tag);
      if wt == 5 && pos + 4 <= |d| {
        var f := FromLittleEndian(d[pos..pos + 4]);
        pos := pos + 4;
        if num == 1 { r := r.(temperature := Some(f)); }
        else if num == 2 { r := r.(humidity := Some(f)); }
        else if num == 3 { r := r.(pressure := Some(f)); }
      } else {
        var ok, next := PbSkip(d, pos, wt);
        if !ok { break; }
        pos := next;
      }
      Snoc(seen, FieldAt(d, prev));
      seen, visited := seen + [FieldAt(d, prev)], visited + {prev};
    }
    Over(d, pos, visited, seen);
  }

  /** Packet counters and utilisation. */
  datatype LocalStats = LocalStats(
    uptime: Option<nat>, channelUtil: Option<nat>, airUtil: Option<nat>, tx: Option<nat>, rx: Option<nat>,
    online: Option<nat>, total: Option<nat>)

  function LocalStatsOf(fs: seq<Field>): LocalStats {
    LocalStats(Uint(LastVarint(fs, 1)), LastWord(fs, 2), LastWord(fs, 3), Uint(LastVarint(fs, 4)),
               Uint(LastVarint(fs, 5)), Uint(LastVarint(fs, 6)), Uint(LastVarint(fs, 7)))
  }

  method DecodeLocalStats(d: Bytes) returns (r: LocalStats)
    requires LoopEnds(d)
    ensures r == LocalStatsOf(Read(d))
  {
    hide Read, FieldAt, ReadField, Going, LoopEnds, Remaining, VarintVal, LastVarint, LastWord, LastBody,
         Bodies, PbZigzag, Int32, FromLittleEndian;
    Started(d);
    NothingSeen();
    r := LocalStats(None, None, None, None, None, None, None);
    var pos: int := 0;
    ghost var seen: seq<Field>, visited: set<int> := [], {};
    while pos < |d|
      invariant Going(d, pos, visited, seen)
      invariant r == LocalStatsOf(seen)
      decreases Remaining(d, visited)
    {
      Turn(d, pos, visited, seen);
      var prev := pos;
      var tag;
      tag, pos := PbVarint(d, pos);
      if pos == prev { break; }
      var wt, num := tag % 8, FieldNumber(tag);
      if wt == 0 {
        var v;
        v, pos := PbVarint(d, pos);
        if num == 1 { r := r.(uptime := Some(v % TWO_32)); }
        else if num == 4 { r := r.(tx := Some(v % TWO_32)); }
        else if num == 5 { r := r.(rx := Some(v % TWO_32)); }
        else if num == 6 { r := r.(online := Some(v % TWO_32)); }
        else if num == 7 { r := r.(total := Some(v % TWO_32)); }
      } else if wt == 5 && pos + 4 <= |d| {
        var f := FromLittleEndian(d[pos..pos + 4]);
        pos := pos + 4;
        if num == 2 { r := r.(channelUtil := Some(f)); }
        else if num == 3 { r := r.(airUtil := Some(f)); }
      } else {
        var ok, next := PbSkip(d, pos, wt);
        if !ok { break; }
        pos := next;
      }
      Snoc(seen, FieldAt(d, prev));
      seen, visited := seen + [FieldAt(d, prev)], visited + {prev};
    }
    Over(d, pos, visited, seen);
  }

  /** Voltage and current per channel, raw words. */
  datatype PowerMetrics = PowerMetrics(
    ch1v: Option<nat>, ch1i: Option<nat>, ch2v: Option<nat>, ch2i: Option<nat>, ch3v: Option<nat>, ch3i: Option<nat>)

  function PowerMetricsOf(fs: seq<Field>): PowerMetrics {
    PowerMetrics(LastWord(fs, 1), LastWord(fs, 2), LastWord(fs, 3), LastWord(fs, 4), LastWord(fs, 5), LastWord(fs, 6))
  }

  method DecodePowerMetrics(d: Bytes) returns (r: PowerMetrics)
    requires LoopEnds(d)
    ensures r == PowerMetricsOf(Read(d))
  {
    hide Read, FieldAt, ReadField, Going, LoopEnds, Remaining, VarintVal, LastVarint, LastWord, LastBody,
         Bodies, PbZigzag, Int32, FromLittleEndian;
    Started(d);
    NothingSeen();
    r := PowerMetrics(None, None, None, None, None, None);
    var pos: int := 0;
    ghost var seen: seq<Field>, visited: set<int> := [], {};
    while pos < |d|
      invariant Going(d, pos, visited, seen)
      invariant r == PowerMetricsOf(seen)
      decreases Remaining(d, visited)
    {
      Turn(d, pos, visited, seen);
      var prev := pos;
      var tag;
      tag, pos := PbVarint(d, pos);
      if pos == prev { break; }
      var wt, num := tag % 8, FieldNumber(tag);
      if wt == 5 && pos + 4 <= |d| {
        var f := FromLittleEndian(d[pos..pos + 4]);
        pos := pos + 4;
        if num == 1 { r := r.(ch1v := Some(f)); }
        else if num == 2 { r := r.(ch1i := Some(f)); }
        else if num == 3 { r := r.(ch2v := Some(f)); }
        else if num == 4 { r := r.(ch2i := Some(f)); }
        else if num == 5 { r := r.(ch3v := Some(f)); }
        else if num == 6 { r := r.(ch3i := Some(f)); }
      } else {
        var ok, next := PbSkip(d, pos, wt);
        if !ok { break; }
        pos := next;
      }
      Snoc(seen, FieldAt(d, prev));
      seen, visited := seen + [FieldAt(d, prev)], visited + {prev};
    }
    Over(d, pos, visited, seen);
  }
}
