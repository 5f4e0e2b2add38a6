/** Which readings an archive leaves in the telemetry table, said of the source rows alone. */
module MeshcoreReadings {
  import opened Common
  import opened MeshcoreIdentity
  import opened MeshcoreNodes
  import opened MeshcoreTelemetry

  /** A time that converts: seconds of the years 1 to 9999. */
  predicate Datable(ts: Option<int>) { ts.Some? && -62135596800 <= ts.value < 253402300800 }

  /** The row carries a value with a time that converts, for the node its name stands for. */
  predicate Carries(node: Option<string>, ts: Option<int>, value: Option<real>, m: Maps, r: Reading, c: Column,
                    v: real) {
    Datable(ts) && value.Some? && r == Reading(Resolve(node, m), ts.value, map[c := v])
  }

  /** A clean reading of telemetry_history: voltage on channel 1, barometer on 3, humidity on 4. */
  predicate CleanReading(row: HistoryRow, m: Maps, r: Reading) {
    row.value.Some?
    && ((row.channel == Some(1) && row.kind == Some("voltage")
         && Carries(row.node, row.ts, row.value, m, r, Voltage, row.value.value))
        || (row.channel == Some(3) && row.kind == Some("barometer")
            && Carries(row.node, row.ts, row.value, m, r, Pressure, row.value.value))
        || (row.channel == Some(4) && row.kind == Some("humidity")
            && Carries(row.node, row.ts, row.value, m, r, Humidity, row.value.value)))
  }

  /** A reading of status_history: the battery's voltage, or the uptime in whole seconds. */
  ghost predicate StatusReading(row: StatusRow, m: Maps, r: Reading) {
    row.value.Some?
    && ((row.name == Some("bat") && row.kind == Some("voltage")
         && Carries(row.node, row.ts, row.value, m, r, Voltage, row.value.value))
        || (row.name == Some("uptime") && row.kind == Some("duration")
            && exists n: int :: WholePart(row.value.value, n)
                                && Carries(row.node, row.ts, row.value, m, r, Uptime, n as real)))
  }

  /** n is v without its fraction. */
  predicate WholePart(v: real, n: int) {
    if v >= 0.0 then n as real <= v < n as real + 1.0 else n as real - 1.0 < v <= n as real
  }

  /** Row i is a temperature on this channel, for this node at this converted time (None if it does not convert). */
  predicate TemperatureOn(rows: seq<HistoryRow>, m: Maps, i: int, channel: int, node: string, time: Option<int>) {
    0 <= i < |rows| && rows[i].kind == Some("temperature") && rows[i].channel == Some(channel)
    && Resolve(rows[i].node, m) == node
    && time == if Datable(rows[i].ts) then rows[i].ts else None
  }

  ghost predicate NoneOn(rows: seq<HistoryRow>, m: Maps, channel: int, node: string, time: Option<int>) {
    forall j :: !TemperatureOn(rows, m, j, channel, node, time)
  }

  ghost predicate FirstOn(rows: seq<HistoryRow>, m: Maps, i: int, channel: int, node: string, time: Option<int>) {
    TemperatureOn(rows, m, i, channel, node, time)
    && forall j :: 0 <= j < i ==> !TemperatureOn(rows, m, j, channel, node, time)
  }

  /** Row i is the temperature to keep for a node and time: the first on channel 4, if there is none the first on
      channel 3, if there is none either the first on channel 1. */
  ghost predicate TemperatureKept(rows: seq<HistoryRow>, m: Maps, i: int, node: string, time: Option<int>) {
    if !NoneOn(rows, m, 4, node, time) then FirstOn(rows, m, i, 4, node, time)
    else if !NoneOn(rows, m, 3, node, time) then FirstOn(rows, m, i, 3, node, time)
    else FirstOn(rows, m, i, 1, node, time)
  }

  ghost predicate TemperatureReading(rows: seq<HistoryRow>, m: Maps, r: Reading) {
    exists i :: 0 <= i < |rows| && rows[i].value.Some? && TemperatureKept(rows, m, i, r.node, Some(r.time))
                && Carries(rows[i].node, rows[i].ts, rows[i].value, m, r, Temperature, rows[i].value.value)
  }

  // ---------------------------------------------------------------- the steps of the import

  function Whole(v: real): int { if v >= 0.0 then v.Floor else -((-v).Floor) }

  lemma FloorIs(v: real, n: int)
    ensures n as real <= v < n as real + 1.0 <==> n == v.Floor
  {
  }

  lemma WholeIs(v: real, n: int)
    ensures WholePart(v, n) <==> n == Whole(v)
    ensures Truncate(v) == Whole(v) as real
  {
    if v >= 0.0 {
      FloorIs(v, n);
    } else {
      FloorIs(-v, -n);
      assert (-n) as real == -(n as real);
      var f := (-v).Floor;
      assert (-f) as real == -(f as real);
    }
  }

  /** The act puts r into the table. */
  ghost predicate Put(a: Act, r: Reading) { Lands(a) && a.call.time.Some? && Row(a.call) == r }

  lemma CleanIff(row: HistoryRow, m: Maps, r: Reading)
    ensures Put(ActOf(Judge(row, m)), r) <==> CleanReading(row, m, r)
  {
    hide Resolve;
  }

  lemma StatusIff(row: StatusRow, m: Maps, r: Reading)
    ensures Put(ActOf(JudgeStatus(row, m)), r) <==> StatusReading(row, m, r)
  {
    hide Resolve, Truncate, WholePart, Whole;
    if row.value.Some? {
      var v := row.value.value;
      forall n: int ensures WholePart(v, n) <==> n == Whole(v) { WholeIs(v, n); }
      WholeIs(v, Whole(v));
    }
  }

  lemma CleanRows(rows: seq<HistoryRow>, m: Maps, r: Reading)
    ensures (exists a :: a in HistoryActs(rows, m) && Put(a, r))
       <==> exists i :: 0 <= i < |rows| && CleanReading(rows[i], m, r)
  {
    hide Judge, ActOf, CleanReading, Put;
    var acts := HistoryActs(rows, m);
    forall i | 0 <= i < |rows|
      ensures acts[i] in acts && (Put(acts[i], r) <==> CleanReading(rows[i], m, r))
    {
      CleanIff(rows[i], m, r);
    }
  }

  lemma StatusRows(rows: seq<StatusRow>, m: Maps, r: Reading)
    ensures (exists a :: a in StatusActs(rows, m) && Put(a, r))
       <==> exists i :: 0 <= i < |rows| && StatusReading(rows[i], m, r)
  {
    hide JudgeStatus, ActOf, StatusReading, Put;
    var acts := StatusActs(rows, m);
    forall i | 0 <= i < |rows|
      ensures acts[i] in acts && (Put(acts[i], r) <==> StatusReading(rows[i], m, r))
    {
      StatusIff(rows[i], m, r);
    }
  }

  // ---------------------------------------------------------------- the temperature to keep

  /** How good a row's temperature is, or -1 if it has none to offer. */
  function RankAt(rows: seq<HistoryRow>, m: Maps, i: int): int {
    if 0 <= i < |rows| && Judge(rows[i], m).Ranked? then Judge(rows[i], m).candidate.rank else -1
  }

  lemma RankedIff(rows: seq<HistoryRow>, m: Maps, i: int, node: string, time: Option<int>)
    ensures InSlot(rows, m, i, (node, time))
       <==> TemperatureOn(rows, m, i, 4, node, time) || TemperatureOn(rows, m, i, 3, node, time)
            || TemperatureOn(rows, m, i, 1, node, time)
    ensures TemperatureOn(rows, m, i, 4, node, time) ==> RankAt(rows, m, i) == 0
    ensures TemperatureOn(rows, m, i, 3, node, time) ==> RankAt(rows, m, i) == 1
    ensures TemperatureOn(rows, m, i, 1, node, time) ==> RankAt(rows, m, i) == 2
  {
    hide Resolve;
  }

  lemma FirstBestByRank(rows: seq<HistoryRow>, m: Maps, i: int, s: Slot)
    ensures FirstBestRow(rows, m, i, s)
       <==> InSlot(rows, m, i, s)
            && forall j :: InSlot(rows, m, j, s) ==>
                 RankAt(rows, m, i) <= RankAt(rows, m, j) && (j < i ==> RankAt(rows, m, i) < RankAt(rows, m, j))
  {
    hide Judge;
    assert forall j :: InSlot(rows, m, j, s) ==> RankAt(rows, m, j) == Judge(rows[j], m).candidate.rank;
  }

  /** The first of the best-ranked rows is the one to keep. */
  lemma FirstBestIsKept(rows: seq<HistoryRow>, m: Maps, i: int, node: string, time: Option<int>)
    ensures FirstBestRow(rows, m, i, (node, time)) <==> TemperatureKept(rows, m, i, node, time)
  {
    hide Judge, TemperatureOn, InSlot, RankAt, FirstBestRow;
    FirstBestByRank(rows, m, i, (node, time));
    forall j
      ensures InSlot(rows, m, j, (node, time))
         <==> TemperatureOn(rows, m, j, 4, node, time) || TemperatureOn(rows, m, j, 3, node, time)
              || TemperatureOn(rows, m, j, 1, node, time)
      ensures TemperatureOn(rows, m, j, 4, node, time) ==> RankAt(rows, m, j) == 0
      ensures TemperatureOn(rows, m, j, 3, node, time) ==> RankAt(rows, m, j) == 1
      ensures TemperatureOn(rows, m, j, 1, node, time) ==> RankAt(rows, m, j) == 2
      ensures TemperatureOn(rows, m, j, 4, node, time) ==> 0 <= j
      ensures TemperatureOn(rows, m, j, 3, node, time) ==> 0 <= j
      ensures TemperatureOn(rows, m, j, 1, node, time) ==> 0 <= j
    {
      RankedIff(rows, m, j, node, time);
      InRange(rows, m, j, 4, node, time);
      InRange(rows, m, j, 3, node, time);
      InRange(rows, m, j, 1, node, time);
    }
  }

  lemma InRange(rows: seq<HistoryRow>, m: Maps, j: int, channel: int, node: string, time: Option<int>)
    ensures TemperatureOn(rows, m, j, channel, node, time) ==> 0 <= j < |rows|
  {
  }

  /** The candidate of a slot, as a reading. */
  lemma KeptReading(rows: seq<HistoryRow>, m: Maps, i: int, s: Slot, r: Reading)
    requires FirstBestRow(rows, m, i, s)
    ensures Put(Write(TemperatureCall(Judge(rows[i], m).candidate)), r)
       <==> s == (r.node, Some(r.time)) && rows[i].value.Some?
            && Carries(rows[i].node, rows[i].ts, rows[i].value, m, r, Temperature, rows[i].value.value)
  {
    hide Resolve, FirstBestRow;
    assert InSlot(rows, m, i, s) by { SlotOfFirst(rows, m, i, s); }
  }

  lemma SlotOfFirst(rows: seq<HistoryRow>, m: Maps, i: int, s: Slot)
    requires FirstBestRow(rows, m, i, s)
    ensures InSlot(rows, m, i, s)
  {
  }

  lemma TemperatureRows(rows: seq<HistoryRow>, m: Maps, best: Best, r: Reading)
    requires best == BestOf(Candidates(rows, m)) && KeepsSlots(best)
    ensures (exists a :: a in TemperatureActs(best) && Put(a, r)) <==> TemperatureReading(rows, m, r)
  {
    hide BestOf, Candidates, Judge, Put, Carries, FirstBestRow, TemperatureKept, TemperatureOn, InSlot;
    var acts := TemperatureActs(best);
    if a :| a in acts && Put(a, r) {
      var n :| 0 <= n < |acts| && acts[n] == a;
      var s := best.slots[n];
      var i := KeptRow(rows, m, s);
      KeptReading(rows, m, i, s, r);
      FirstBestIsKept(rows, m, i, r.node, Some(r.time));
      FirstInRange(rows, m, i, s);
    }
    if TemperatureReading(rows, m, r) {
      var i :| 0 <= i < |rows| && rows[i].value.Some? && TemperatureKept(rows, m, i, r.node, Some(r.time))
               && Carries(rows[i].node, rows[i].ts, rows[i].value, m, r, Temperature, rows[i].value.value);
      var s := (r.node, Some(r.time));
      FirstBestIsKept(rows, m, i, r.node, Some(r.time));
      KeptReading(rows, m, i, s, r);
      SlotOfFirst(rows, m, i, s);
      var k := KeptRow(rows, m, s);
      FirstIsOne(rows, m, i, k, s);
      var n :| 0 <= n < |best.slots| && best.slots[n] == s;
      assert acts[n] in acts && acts[n] == Write(TemperatureCall(best.kept[s]));
    }
  }

  lemma FirstInRange(rows: seq<HistoryRow>, m: Maps, i: int, s: Slot)
    requires FirstBestRow(rows, m, i, s)
    ensures 0 <= i < |rows|
  {
  }

  lemma FirstIsOne(rows: seq<HistoryRow>, m: Maps, i: int, k: int, s: Slot)
    requires FirstBestRow(rows, m, i, s) && FirstBestRow(rows, m, k, s)
    ensures i == k
  {
    hide Judge, InSlot;
  }

  // ---------------------------------------------------------------- the table

  lemma FourParts(a: seq<Act>, b: seq<Act>, n: nat, d: seq<Act>, r: Reading)
    ensures (exists x :: x in a + b + [Skip(n)] + d && Put(x, r))
       <==> (exists x :: x in a && Put(x, r)) || (exists x :: x in b && Put(x, r)) || (exists x :: x in d && Put(x, r))
  {
    assert !Put(Skip(n), r);
    hide Put;
    assert forall x :: x in a + b + [Skip(n)] + d <==> x in a || x in b || x == Skip(n) || x in d;
  }

  lemma PutByIndex(acts: seq<Act>, r: Reading)
    ensures (exists x :: x in acts && Put(x, r))
       <==> exists i :: 0 <= i < |acts| && Lands(acts[i]) && acts[i].call.time.Some? && Row(acts[i].call) == r
  {
    if x :| x in acts && Put(x, r) {
      var i :| 0 <= i < |acts| && acts[i] == x;
      assert Lands(acts[i]) && acts[i].call.time.Some? && Row(acts[i].call) == r;
    }
    if i :| 0 <= i < |acts| && Lands(acts[i]) && acts[i].call.time.Some? && Row(acts[i].call) == r {
      assert acts[i] in acts && Put(acts[i], r);
    }
  }

  /** After an import that completes the table holds what it held, the clean readings, one temperature for each node
      and time, and the status readings, each under its own column; and nothing else. */
  lemma TableIsReadings(table: seq<Reading>, history: seq<HistoryRow>, status: seq<StatusRow>, m: Maps, r: Reading)
    requires DoAll(Tally(table, 0, 0, map[]), Acts(history, status, m)).Some?
    ensures r in DoAll(Tally(table, 0, 0, map[]), Acts(history, status, m)).value.table
       <==> r in table || (exists i :: 0 <= i < |history| && CleanReading(history[i], m, r))
            || TemperatureReading(history, m, r)
            || (exists i :: 0 <= i < |status| && StatusReading(status[i], m, r))
  {
    var cs := Candidates(history, m);
    BestKeepsSlots(cs);
    hide DoAll, BestOf, Candidates, HistoryActs, TemperatureActs, StatusActs, KeepsSlots, Put, CleanReading,
         StatusReading, TemperatureReading, Lands;
    var acts := Acts(history, status, m);
    TableAfter(Tally(table, 0, 0, map[]), acts);
    PutByIndex(acts, r);
    FourParts(HistoryActs(history, m), TemperatureActs(BestOf(cs)), |cs| - |BestOf(cs).slots|,
              StatusActs(status, m), r);
    CleanRows(history, m, r);
    TemperatureRows(history, m, BestOf(cs), r);
    StatusRows(status, m, r);
  }
}
