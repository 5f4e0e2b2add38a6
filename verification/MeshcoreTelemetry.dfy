/** Importing the telemetry history of a MeshCore archive: which readings are recorded, how the source
    rows are accounted for, and why a second run adds nothing. */
module MeshcoreTelemetry {
  import opened Common
  import opened MeshcoreIdentity
  import opened MeshcoreNodes

  datatype Column =
    | Battery | Voltage | Temperature | Humidity | Pressure | ChannelUtil | AirUtil | Uptime

  /** A row of the telemetry table; a column that is not in `values` is NULL. */
  datatype Reading = Reading(node: string, time: int, values: map<Column, real>)

  datatype HistoryRow = HistoryRow(node: Option<string>, ts: Option<int>, channel: Option<int>,
                                   kind: Option<string>, value: Option<real>)

  datatype StatusRow = StatusRow(node: Option<string>, ts: Option<int>, name: Option<string>,
                                 kind: Option<string>, value: Option<real>)

  /** One call of `record`. */
  datatype Call = Call(node: string, time: Option<int>, column: Column, value: Option<real>)

  datatype Candidate = Candidate(node: string, time: Option<int>, rank: nat, value: Option<real>)

  /** What the import does with one source row. */
  datatype Verdict = Direct(call: Call) | Ranked(candidate: Candidate) | Ignored

  /** The integer part, towards zero. */
  function Truncate(v: real): real {
    if v >= 0.0 then v.Floor as real else -((-v).Floor as real)
  }

  function Rank(channel: int): Option<nat> {
    match channel
    case 4 => Some(0)
    case 3 => Some(1)
    case 1 => Some(2)
    case _ => None
  }

  function Judge(row: HistoryRow, m: Maps): Verdict {
    var node, time := Resolve(row.node, m), IsoFromUnix(row.ts);
    if row.channel == Some(1) && row.kind == Some("voltage") then Direct(Call(node, time, Voltage, row.value))
    else if row.channel == Some(3) && row.kind == Some("barometer") then
      Direct(Call(node, time, Pressure, row.value))
    else if row.channel == Some(4) && row.kind == Some("humidity") then
      Direct(Call(node, time, Humidity, row.value))
    else if row.kind == Some("temperature") && row.channel.Some? && Rank(row.channel.value).Some? then
      Ranked(Candidate(node, time, Rank(row.channel.value).value, row.value))
    else Ignored
  }

  function JudgeStatus(row: StatusRow, m: Maps): Verdict {
    var node, time := Resolve(row.node, m), IsoFromUnix(row.ts);
    if row.name == Some("bat") && row.kind == Some("voltage") then Direct(Call(node, time, Voltage, row.value))
    else if row.name == Some("uptime") && row.kind == Some("duration") then
      Direct(Call(node, time, Uptime, if row.value.None? then None else Some(Truncate(row.value.value))))
    else Ignored
  }

  // ---------------------------------------------------------------- the best-ranked temperatures

  type Slot = (string, Option<int>)   // the (node, timestamp) key of best_temperatures

  function SlotOf(c: Candidate): Slot { (c.node, c.time) }

  /** best_temperatures: its keys in insertion order, and the candidate it keeps for each. */
  datatype Best = Best(slots: seq<Slot>, kept: map<Slot, Candidate>)

  function Consider(b: Best, c: Candidate): Best {
    var s := SlotOf(c);
    if s !in b.kept then Best(b.slots + [s], b.kept[s := c])
    else if c.rank < b.kept[s].rank then b.(kept := b.kept[s := c])
    else b
  }

  function BestOf(cs: seq<Candidate>): Best {
    if cs == [] then Best([], map[]) else Consider(BestOf(cs[..|cs| - 1]), cs[|cs| - 1])
  }

  lemma BestSnoc(cs: seq<Candidate>, c: Candidate)
    ensures BestOf(cs + [c]) == Consider(BestOf(cs), c)
  {
    assert (cs + [c])[..|cs|] == cs;
  }

  ghost predicate KeepsSlots(b: Best) {
    (forall s :: s in b.kept <==> s in b.slots)
    && (forall s :: s in b.kept ==> SlotOf(b.kept[s]) == s)
    && forall i, j :: 0 <= i < j < |b.slots| ==> b.slots[i] != b.slots[j]
  }

  lemma {:induction false} BestKeepsSlots(cs: seq<Candidate>)
    ensures KeepsSlots(BestOf(cs))
    ensures |BestOf(cs).slots| <= |cs|
  {
    if cs != [] {
      BestKeepsSlots(cs[..|cs| - 1]);
    }
  }

  /** Position i holds the first candidate of slot `s` that no candidate of the slot outranks. */
  ghost predicate IsFirstBest(cs: seq<Candidate>, s: Slot, i: nat) {
    i < |cs| && SlotOf(cs[i]) == s
    && (forall j :: 0 <= j < |cs| && SlotOf(cs[j]) == s ==> cs[i].rank <= cs[j].rank)
    && (forall j :: 0 <= j < i && SlotOf(cs[j]) == s ==> cs[i].rank < cs[j].rank)
  }

  /** For each (node, time) that has a candidate, the import keeps the first of the best-ranked ones. */
  lemma {:induction false} BestIsFirstBest(cs: seq<Candidate>, s: Slot) returns (i: nat)
    ensures s in BestOf(cs).kept <==> exists j :: 0 <= j < |cs| && SlotOf(cs[j]) == s
    ensures s in BestOf(cs).kept ==> IsFirstBest(cs, s, i) && BestOf(cs).kept[s] == cs[i]
  {
    i := 0;
    if cs != [] {
      var n := |cs| - 1;
      var front := cs[..n];
      i := BestIsFirstBest(front, s);
      assert forall j :: 0 <= j < n ==> cs[j] == front[j];
      if SlotOf(cs[n]) == s && (s !in BestOf(front).kept || cs[n].rank < BestOf(front).kept[s].rank) {
        i := n;
      }
    }
  }

  // ---------------------------------------------------------------- recording

  /** The table and the counters of a run. */
  datatype Tally = Tally(table: seq<Reading>, inserted: nat, skipped: nat, counts: map<Column, nat>)

  /** The steps of a run: calls of `record` and direct additions to `skipped`. */
  datatype Act = Write(call: Call) | Skip(n: nat)

  function Row(c: Call): Reading
    requires c.value.Some? && c.time.Some?
  {
    Reading(c.node, c.time.value, map[c.column := c.value.value])
  }

  function CountOf(counts: map<Column, nat>, c: Column): nat { if c in counts then counts[c] else 0 }

  /** One step; None when the INSERT violates NOT NULL on the timestamp. The duplicate test compares the
      timestamp by equality, so it finds nothing when the timestamp is NULL. */
  function Do(t: Tally, a: Act): Option<Tally> {
    match a
    case Skip(n) => Some(t.(skipped := t.skipped + n))
    case Write(c) =>
      if c.value.None? then Some(t.(skipped := t.skipped + 1))
      else if c.time.None? then None
      else if Row(c) in t.table then Some(t.(skipped := t.skipped + 1))
      else Some(Tally(t.table + [Row(c)], t.inserted + 1, t.skipped,
                      t.counts[c.column := CountOf(t.counts, c.column) + 1]))
  }

  function DoAll(t: Tally, acts: seq<Act>): Option<Tally> {
    if acts == [] then Some(t)
    else
      var before := DoAll(t, acts[..|acts| - 1]);
      if before.None? then None else Do(before.value, acts[|acts| - 1])
  }

  function ActOf(v: Verdict): Act {
    match v
    case Direct(call) => Write(call)
    case Ranked(_) => Skip(0)
    case Ignored => Skip(1)
  }

  function Candidates(rows: seq<HistoryRow>, m: Maps): seq<Candidate> {
    if rows == [] then []
    else
      var v := Judge(rows[|rows| - 1], m);
      Candidates(rows[..|rows| - 1], m) + if v.Ranked? then [v.candidate] else []
  }

  function HistoryActs(rows: seq<HistoryRow>, m: Maps): seq<Act> {
    seq(|rows|, i requires 0 <= i < |rows| => ActOf(Judge(rows[i], m)))
  }

  function StatusActs(rows: seq<StatusRow>, m: Maps): seq<Act> {
    seq(|rows|, i requires 0 <= i < |rows| => ActOf(JudgeStatus(rows[i], m)))
  }

  function TemperatureCall(c: Candidate): Call { Call(c.node, c.time, Temperature, c.value) }

  function TemperatureActs(b: Best): seq<Act>
    requires KeepsSlots(b)
  {
    seq(|b.slots|, i requires 0 <= i < |b.slots| =>
      assert b.slots[i] in b.kept; Write(TemperatureCall(b.kept[b.slots[i]])))
  }

  /** Everything a run does, in order. */
  function Acts(history: seq<HistoryRow>, status: seq<StatusRow>, m: Maps): seq<Act> {
    var cs := Candidates(history, m);
    BestKeepsSlots(cs);
    HistoryActs(history, m) + TemperatureActs(BestOf(cs)) + [Skip(|cs| - |BestOf(cs).slots|)]
    + StatusActs(status, m)
  }

  // ---------------------------------------------------------------- the importer

  class TelemetryImporter {
    var t: Tally

    constructor (table: seq<Reading>)
      ensures t == Tally(table, 0, 0, map[])
    {
      t := Tally(table, 0, 0, map[]);
    }

    /** `record` with `_insert_telemetry`; false when the INSERT raises. */
    method RecordCall(c: Call) returns (ok: bool)
      modifies this
      ensures ok == Do(old(t), Write(c)).Some?
      ensures t == if ok then Do(old(t), Write(c)).value else old(t)
    {
      if c.value.None? {
        t := t.(skipped := t.skipped + 1);
        return true;
      }
      if c.time.None? {
        return false;
      }
      var row := Reading(c.node, c.time.value, map[c.column := c.value.value]);
      if row in t.table {
        t := t.(skipped := t.skipped + 1);
      } else {
        t := Tally(t.table + [row], t.inserted + 1, t.skipped,
                   t.counts[c.column := CountOf(t.counts, c.column) + 1]);
      }
      return true;
    }

    /** One row of telemetry_history. */
    method ReadRow(row: HistoryRow, m: Maps, best: Best, candidates: nat)
      returns (ok: bool, best': Best, candidates': nat)
      modifies this
      ensures var v := Judge(row, m);
              ok == Do(old(t), ActOf(v)).Some? && t == (if ok then Do(old(t), ActOf(v)).value else old(t))
              && best' == (if v.Ranked? then Consider(best, v.candidate) else best)
              && candidates' == if v.Ranked? then candidates + 1 else candidates
    {
      hide Judge, Consider, Do;
      ok, best', candidates' := true, best, candidates;
      match Judge(row, m) {
        case Direct(call) =>
          ok := RecordCall(call);
        case Ranked(c) =>
          candidates' := candidates + 1;
          best' := Consider(best, c);
          DoSkip(t, 0);
        case Ignored =>
          DoSkip(t, 1);
          t := t.(skipped := t.skipped + 1);
      }
    }

    /** The loop over telemetry_history: clean readings are recorded, temperatures are only ranked. */
    method ReadHistory(history: seq<HistoryRow>, m: Maps) returns (ok: bool, best: Best, candidates: nat)
      modifies this
      ensures ok == DoAll(old(t), HistoryActs(history, m)).Some?
      ensures ok ==> t == DoAll(old(t), HistoryActs(history, m)).value
      ensures ok ==> best == BestOf(Candidates(history, m)) && candidates == |Candidates(history, m)|
    {
      hide Judge, Consider, Do, DoAll, ActOf;
      ghost var acts := HistoryActs(history, m);
      DoNothing(t);
      best, candidates := Best([], map[]), 0;
      assert history[..|history|] == history && acts[..|acts|] == acts;
      var i := 0;
      while i < |history|
        invariant 0 <= i <= |history|
        invariant best == BestOf(Candidates(history[..i], m)) && candidates == |Candidates(history[..i], m)|
        invariant DoAll(old(t), acts[..i]) == Some(t)
      {
        OneMoreAct(old(t), acts, i);
        OneMoreCandidate(history, i, m);
        hide BestOf, Candidates;
        ok, best, candidates := ReadRow(history[i], m, best, candidates);
        if !ok {
          return;
        }
        i := i + 1;
      }
      ok := true;
    }

    /** The loop over best_temperatures.values(). */
    method RecordTemperatures(best: Best) returns (ok: bool)
      requires KeepsSlots(best)
      modifies this
      ensures ok == DoAll(old(t), TemperatureActs(best)).Some?
      ensures ok ==> t == DoAll(old(t), TemperatureActs(best)).value
    {
      hide Do, DoAll;
      ghost var acts := TemperatureActs(best);
      DoNothing(t);
      assert acts[..|acts|] == acts;
      var i := 0;
      while i < |best.slots|
        invariant 0 <= i <= |best.slots|
        invariant DoAll(old(t), acts[..i]) == Some(t)
      {
        SlotIsKept(best, i);
        OneMoreAct(old(t), acts, i);
        ok := RecordCall(TemperatureCall(best.kept[best.slots[i]]));
        if !ok {
          return;
        }
        i := i + 1;
      }
      ok := true;
    }

    /** The loop over status_history. */
    method ReadStatus(status: seq<StatusRow>, m: Maps) returns (ok: bool)
      modifies this
      ensures ok == DoAll(old(t), StatusActs(status, m)).Some?
      ensures ok ==> t == DoAll(old(t), StatusActs(status, m)).value
    {
      hide JudgeStatus, Do, DoAll;
      ghost var acts := StatusActs(status, m);
      DoNothing(t);
      assert acts[..|acts|] == acts;
      var i := 0;
      while i < |status|
        invariant 0 <= i <= |status|
        invariant DoAll(old(t), acts[..i]) == Some(t)
      {
        var v := JudgeStatus(status[i], m);
        OneMoreAct(old(t), acts, i);
        StatusIsNeverRanked(status[i], m);
        if v.Direct? {
          ok := RecordCall(v.call);
          if !ok {
            return;
          }
        } else {
          DoSkip(t, 1);
          t := t.(skipped := t.skipped + 1);
        }
        i := i + 1;
      }
      ok := true;
    }

    /** `_import_telemetry_samples`. When a write raises, nothing is committed. */
    method ImportSamples(history: seq<HistoryRow>, status: seq<StatusRow>, m: Maps, includeStatus: bool)
      returns (ok: bool)
      modifies this
      ensures var after := DoAll(old(t), Acts(history, if includeStatus then status else [], m));
              ok == after.Some? && t == if ok then after.value else old(t)
    {
      hide Do, DoAll, HistoryActs, StatusActs, TemperatureActs, BestOf, Candidates, KeepsSlots;
      var start := t;
      BestKeepsSlots(Candidates(history, m));
      ghost var rows := if includeStatus then status else [];
      ghost var b := BestOf(Candidates(history, m));
      RunInParts(start, HistoryActs(history, m), TemperatureActs(b),
                 |Candidates(history, m)| - |b.slots|, StatusActs(rows, m));
      var best, candidates;
      ok, best, candidates := ReadHistory(history, m);
      if ok {
        ok := RecordTemperatures(best);
      }
      if ok {
        t := t.(skipped := t.skipped + if candidates >= |best.slots| then candidates - |best.slots| else 0);
        if includeStatus {
          ok := ReadStatus(status, m);
        } else {
          NoStatus(t, m);
        }
      }
      if !ok {
        t := start;
      }
    }
  }

  lemma NoStatus(t: Tally, m: Maps)
    ensures DoAll(t, StatusActs([], m)) == Some(t)
  {
  }

  lemma OneMoreCandidate(rows: seq<HistoryRow>, i: nat, m: Maps)
    requires i < |rows|
    ensures var v, before, after := Judge(rows[i], m), Candidates(rows[..i], m), Candidates(rows[..i + 1], m);
            if v.Ranked? then |after| == |before| + 1 && BestOf(after) == Consider(BestOf(before), v.candidate)
            else after == before
  {
    assert rows[..i + 1][..i] == rows[..i];
    var before := Candidates(rows[..i], m);
    if Judge(rows[i], m).Ranked? {
      BestSnoc(before, Judge(rows[i], m).candidate);
    } else {
      assert before + [] == before;
    }
  }

  function Bind(t: Option<Tally>, acts: seq<Act>): Option<Tally> {
    if t.None? then None else DoAll(t.value, acts)
  }

  lemma {:induction false} DoAllConcat(t: Tally, a: seq<Act>, b: seq<Act>)
    ensures DoAll(t, a + b) == Bind(DoAll(t, a), b)
    decreases |b|
  {
    hide Do;
    if b == [] {
      assert a + b == a;
    } else {
      assert (a + b)[..|a + b| - 1] == a + b[..|b| - 1];
      DoAllConcat(t, a, b[..|b| - 1]);
    }
  }

  lemma RunInParts(t: Tally, a: seq<Act>, b: seq<Act>, n: nat, d: seq<Act>)
    ensures DoAll(t, a + b + [Skip(n)] + d)
         == var u := Bind(DoAll(t, a), b);
            if u.None? then None else DoAll(u.value.(skipped := u.value.skipped + n), d)
  {
    hide DoAll, Do;
    DoAllConcat(t, a, b);
    DoAllConcat(t, a + b, [Skip(n)]);
    DoAllConcat(t, a + b + [Skip(n)], d);
    var u := Bind(DoAll(t, a), b);
    if u.Some? {
      OneSkip(u.value, n);
    }
  }

  lemma OneSkip(t: Tally, n: nat)
    ensures DoAll(t, [Skip(n)]) == Some(t.(skipped := t.skipped + n))
  {
    hide Do, DoAll;
    DoNothing(t);
    DoAllSnoc(t, [], Skip(n));
    assert [] + [Skip(n)] == [Skip(n)];
    DoSkip(t, n);
  }

  lemma DoAllSnoc(t: Tally, acts: seq<Act>, a: Act)
    ensures DoAll(t, acts + [a]) == if DoAll(t, acts).None? then None else Do(DoAll(t, acts).value, a)
  {
    hide Do;
    assert (acts + [a])[..|acts + [a]| - 1] == acts;
  }

  lemma DoNothing(t: Tally)
    ensures DoAll(t, []) == Some(t)
  {
  }

  lemma DoSkip(t: Tally, n: nat)
    ensures Do(t, Skip(n)) == Some(t.(skipped := t.skipped + n))
  {
  }

  lemma SlotIsKept(b: Best, i: nat)
    requires KeepsSlots(b) && i < |b.slots|
    ensures b.slots[i] in b.kept
  {
  }

  lemma StatusIsNeverRanked(row: StatusRow, m: Maps)
    ensures !JudgeStatus(row, m).Ranked?
  {
  }

  /** The next act continues the run; if it raises, so does the whole run. */
  lemma OneMoreAct(t: Tally, acts: seq<Act>, i: nat)
    requires i < |acts| && DoAll(t, acts[..i]).Some?
    ensures DoAll(t, acts[..i + 1]) == Do(DoAll(t, acts[..i]).value, acts[i])
    ensures Do(DoAll(t, acts[..i]).value, acts[i]).None? ==> DoAll(t, acts).None?
  {
    assert acts[..i + 1][..i] == acts[..i];
    if DoAll(t, acts[..i + 1]).None? {
      RaisingSticks(t, acts, i + 1);
    }
  }

  lemma {:induction false} RaisingSticks(t: Tally, acts: seq<Act>, i: nat)
    requires i <= |acts| && DoAll(t, acts[..i]).None?
    ensures DoAll(t, acts).None?
    decreases |acts|
  {
    hide Do;
    if i == |acts| {
      assert acts[..i] == acts;
    } else {
      assert acts[..|acts| - 1][..i] == acts[..i];
      RaisingSticks(t, acts[..|acts| - 1], i);
    }
  }

  // ---------------------------------------------------------------- accounting

  function Weight(acts: seq<Act>): nat {
    if acts == [] then 0
    else Weight(acts[..|acts| - 1]) + if acts[|acts| - 1].Write? then 1 else acts[|acts| - 1].n
  }

  lemma {:induction false} WeightConcat(a: seq<Act>, b: seq<Act>)
    ensures Weight(a + b) == Weight(a) + Weight(b)
    decreases |b|
  {
    if b == [] {
      assert a + b == a;
    } else {
      assert (a + b)[..|a + b| - 1] == a + b[..|b| - 1];
      WeightConcat(a, b[..|b| - 1]);
    }
  }

  function Sum(counts: map<Column, nat>): nat {
    CountOf(counts, Battery) + CountOf(counts, Voltage) + CountOf(counts, Temperature)
    + CountOf(counts, Humidity) + CountOf(counts, Pressure) + CountOf(counts, ChannelUtil)
    + CountOf(counts, AirUtil) + CountOf(counts, Uptime)
  }

  /** Each act is counted once, as inserted or as skipped, and each insertion once under its column. */
  lemma {:induction false} RunAccounts(t: Tally, acts: seq<Act>)
    requires DoAll(t, acts).Some? && Sum(t.counts) == t.inserted
    ensures var u := DoAll(t, acts).value;
            u.inserted + u.skipped == t.inserted + t.skipped + Weight(acts)
            && Sum(u.counts) == u.inserted
            && |u.table| == |t.table| + u.inserted - t.inserted
  {
    hide Sum;
    if acts != [] {
      RunAccounts(t, acts[..|acts| - 1]);
      var a, u := acts[|acts| - 1], DoAll(t, acts[..|acts| - 1]).value;
      if a.Write? {
        OneMoreCounted(u.counts, a.call.column);
      }
    }
  }

  lemma OneMoreCounted(counts: map<Column, nat>, c: Column)
    ensures Sum(counts[c := CountOf(counts, c) + 1]) == Sum(counts) + 1
  {
    CountAfter(counts, c, Battery);
    CountAfter(counts, c, Voltage);
    CountAfter(counts, c, Temperature);
    CountAfter(counts, c, Humidity);
    CountAfter(counts, c, Pressure);
    CountAfter(counts, c, ChannelUtil);
    CountAfter(counts, c, AirUtil);
    CountAfter(counts, c, Uptime);
    hide CountOf;
  }

  lemma CountAfter(counts: map<Column, nat>, c: Column, d: Column)
    ensures CountOf(counts[c := CountOf(counts, c) + 1], d) == CountOf(counts, d) + if d == c then 1 else 0
  {
  }

  lemma {:induction false} HistoryWeight(rows: seq<HistoryRow>, m: Maps)
    ensures Weight(HistoryActs(rows, m)) + |Candidates(rows, m)| == |rows|
  {
    hide Judge;
    if rows != [] {
      HistoryWeight(rows[..|rows| - 1], m);
      var acts := HistoryActs(rows, m);
      assert acts[..|acts| - 1] == HistoryActs(rows[..|rows| - 1], m);
    }
  }

  lemma {:induction false} StatusWeight(rows: seq<StatusRow>, m: Maps)
    ensures Weight(StatusActs(rows, m)) == |rows|
  {
    hide JudgeStatus;
    if rows != [] {
      StatusWeight(rows[..|rows| - 1], m);
      StatusIsNeverRanked(rows[|rows| - 1], m);
      var acts := StatusActs(rows, m);
      assert acts[..|acts| - 1] == StatusActs(rows[..|rows| - 1], m);
    }
  }

  lemma {:induction false} WritesWeigh(acts: seq<Act>)
    requires forall i :: 0 <= i < |acts| ==> acts[i].Write?
    ensures Weight(acts) == |acts|
  {
    if acts != [] {
      WritesWeigh(acts[..|acts| - 1]);
    }
  }

  /** Every source row is inserted or skipped, exactly once; the per-column counts add up to the
      insertions, and the table grows by them. */
  lemma EveryRowAccounted(table: seq<Reading>, history: seq<HistoryRow>, status: seq<StatusRow>, m: Maps)
    requires DoAll(Tally(table, 0, 0, map[]), Acts(history, status, m)).Some?
    ensures var u := DoAll(Tally(table, 0, 0, map[]), Acts(history, status, m)).value;
            u.inserted + u.skipped == |history| + |status|
            && Sum(u.counts) == u.inserted
            && |u.table| == |table| + u.inserted
  {
    hide DoAll, Acts;
    RunAccounts(Tally(table, 0, 0, map[]), Acts(history, status, m));
    ActsWeigh(history, status, m);
  }

  /** The steps of an import weigh as much as there are source rows. */
  lemma ActsWeigh(history: seq<HistoryRow>, status: seq<StatusRow>, m: Maps)
    ensures Weight(Acts(history, status, m)) == |history| + |status|
  {
    hide HistoryActs, TemperatureActs, StatusActs, Candidates, BestOf, Weight, KeepsSlots;
    var cs := Candidates(history, m);
    BestKeepsSlots(cs);
    FourWeights(HistoryActs(history, m), TemperatureActs(BestOf(cs)), [Skip(|cs| - |BestOf(cs).slots|)],
                StatusActs(status, m));
    HistoryWeight(history, m);
    TemperatureWeight(BestOf(cs));
    SkipWeighs(|cs| - |BestOf(cs).slots|);
    StatusWeight(status, m);
  }

  lemma FourWeights(a: seq<Act>, b: seq<Act>, c: seq<Act>, d: seq<Act>)
    ensures Weight(a + b + c + d) == Weight(a) + Weight(b) + Weight(c) + Weight(d)
  {
    hide Weight;
    WeightConcat(a, b);
    WeightConcat(a + b, c);
    WeightConcat(a + b + c, d);
  }

  lemma TemperatureWeight(b: Best)
    requires KeepsSlots(b)
    ensures Weight(TemperatureActs(b)) == |b.slots|
  {
    hide Weight;
    WritesWeigh(TemperatureActs(b));
  }

  lemma SkipWeighs(n: nat)
    ensures Weight([Skip(n)]) == n
  {
    WeightSnoc([], Skip(n));
    assert [] + [Skip(n)] == [Skip(n)];
  }

  lemma WeightSnoc(acts: seq<Act>, a: Act)
    ensures Weight(acts + [a]) == Weight(acts) + if a.Write? then 1 else a.n
  {
    assert (acts + [a])[..|acts + [a]| - 1] == acts;
  }

  // ---------------------------------------------------------------- the table after a run

  predicate Lands(a: Act) { a.Write? && a.call.value.Some? }

  /** A run goes through exactly when every reading that carries a value has a time that converts. */
  lemma {:induction false} CompletesIff(t: Tally, acts: seq<Act>)
    ensures DoAll(t, acts).Some? <==> forall i :: 0 <= i < |acts| && Lands(acts[i]) ==> acts[i].call.time.Some?
  {
    if acts != [] {
      var front := acts[..|acts| - 1];
      CompletesIff(t, front);
      assert forall i :: 0 <= i < |front| ==> front[i] == acts[i];
    }
  }

  predicate Converts(ts: Option<int>) { IsoFromUnix(ts).Some? }

  /** Row i is a temperature reading of slot s. */
  predicate InSlot(rows: seq<HistoryRow>, m: Maps, i: int, s: Slot) {
    0 <= i < |rows| && Judge(rows[i], m).Ranked? && SlotOf(Judge(rows[i], m).candidate) == s
  }

  /** Row i is the first of the best-ranked temperature readings for its node and time. */
  ghost predicate FirstBestRow(rows: seq<HistoryRow>, m: Maps, i: int, s: Slot) {
    InSlot(rows, m, i, s)
    && forall j :: InSlot(rows, m, j, s) ==>
         Judge(rows[i], m).candidate.rank <= Judge(rows[j], m).candidate.rank
         && (j < i ==> Judge(rows[i], m).candidate.rank < Judge(rows[j], m).candidate.rank)
  }

  /** What the import keeps for a slot, in terms of the source rows. */
  lemma {:induction false} KeptRow(rows: seq<HistoryRow>, m: Maps, s: Slot) returns (i: int)
    ensures s in BestOf(Candidates(rows, m)).kept <==> exists j :: InSlot(rows, m, j, s)
    ensures s in BestOf(Candidates(rows, m)).kept ==>
              FirstBestRow(rows, m, i, s) && BestOf(Candidates(rows, m)).kept[s] == Judge(rows[i], m).candidate
  {
    hide Judge;
    i := 0;
    if rows != [] {
      var n := |rows| - 1;
      var front, v := rows[..n], Judge(rows[n], m);
      i := KeptRow(front, m, s);
      assert rows[..n + 1] == rows;
      OneMoreCandidate(rows, n, m);
      var before := BestOf(Candidates(front, m));
      hide BestOf, Candidates;
      forall j ensures InSlot(rows, m, j, s) <==> InSlot(front, m, j, s) || (j == n && InSlot(rows, m, n, s)) {}
      if InSlot(rows, m, n, s) && (s !in before.kept || v.candidate.rank < before.kept[s].rank) {
        i := n;
      }
    }
  }

  ghost predicate AllTimed(acts: seq<Act>) {
    forall a :: a in acts && Lands(a) ==> a.call.time.Some?
  }

  /** No reading of the archive that would be recorded has a timestamp that does not convert. */
  ghost predicate ReadingsConvert(history: seq<HistoryRow>, status: seq<StatusRow>, m: Maps) {
    && (forall i :: 0 <= i < |history| && Judge(history[i], m).Direct? && history[i].value.Some? ==>
                      Converts(history[i].ts))
    && (forall i, s :: FirstBestRow(history, m, i, s) && history[i].value.Some? ==> Converts(history[i].ts))
    && (forall i :: 0 <= i < |status| && JudgeStatus(status[i], m).Direct? && status[i].value.Some? ==>
                      Converts(status[i].ts))
  }

  lemma HistoryTimed(rows: seq<HistoryRow>, m: Maps)
    ensures AllTimed(HistoryActs(rows, m))
       <==> forall i :: 0 <= i < |rows| && Judge(rows[i], m).Direct? && rows[i].value.Some? ==> Converts(rows[i].ts)
  {
    var acts := HistoryActs(rows, m);
    forall i | 0 <= i < |rows|
      ensures acts[i] in acts
      ensures Lands(acts[i]) <==> Judge(rows[i], m).Direct? && rows[i].value.Some?
      ensures Lands(acts[i]) ==> acts[i].call.time == IsoFromUnix(rows[i].ts)
    {
    }
    hide Judge, ActOf;
  }

  lemma StatusTimed(rows: seq<StatusRow>, m: Maps)
    ensures AllTimed(StatusActs(rows, m))
       <==> forall i :: 0 <= i < |rows| && JudgeStatus(rows[i], m).Direct? && rows[i].value.Some? ==>
                          Converts(rows[i].ts)
  {
    var acts := StatusActs(rows, m);
    forall i | 0 <= i < |rows|
      ensures acts[i] in acts
      ensures Lands(acts[i]) <==> JudgeStatus(rows[i], m).Direct? && rows[i].value.Some?
      ensures Lands(acts[i]) ==> acts[i].call.time == IsoFromUnix(rows[i].ts)
    {
    }
    hide JudgeStatus, ActOf;
  }

  lemma RankedShape(row: HistoryRow, m: Maps)
    ensures var v := Judge(row, m);
            v.Ranked? ==> v.candidate.time == IsoFromUnix(row.ts) && v.candidate.value == row.value
  {
  }

  lemma TemperaturesTimed(rows: seq<HistoryRow>, m: Maps, best: Best)
    requires best == BestOf(Candidates(rows, m)) && KeepsSlots(best)
    ensures AllTimed(TemperatureActs(best))
       <==> forall i, s :: FirstBestRow(rows, m, i, s) && rows[i].value.Some? ==> Converts(rows[i].ts)
  {
    hide BestOf, Candidates, Judge;
    var acts := TemperatureActs(best);
    forall s | s in best.kept
      ensures exists i :: FirstBestRow(rows, m, i, s) && best.kept[s] == Judge(rows[i], m).candidate
    {
      var i := KeptRow(rows, m, s);
    }
    if AllTimed(acts) {
      forall i, s | FirstBestRow(rows, m, i, s) && rows[i].value.Some?
        ensures Converts(rows[i].ts)
      {
        var k := KeptRow(rows, m, s);
        assert s in best.kept && k == i;
        RankedShape(rows[i], m);
        var n :| 0 <= n < |best.slots| && best.slots[n] == s;
        assert acts[n] in acts && acts[n] == Write(TemperatureCall(best.kept[s]));
      }
    }
    if forall i, s :: FirstBestRow(rows, m, i, s) && rows[i].value.Some? ==> Converts(rows[i].ts) {
      forall a | a in acts && Lands(a)
        ensures a.call.time.Some?
      {
        var n :| 0 <= n < |acts| && acts[n] == a;
        var s := best.slots[n];
        var i := KeptRow(rows, m, s);
        RankedShape(rows[i], m);
      }
    }
  }

  /** The import goes through exactly when each clean reading with a value, each temperature that is the first
      of the best-ranked for its node and time and has a value, and each status reading with a value has a
      timestamp that converts. */
  lemma ImportCompletesIff(table: seq<Reading>, history: seq<HistoryRow>, status: seq<StatusRow>, m: Maps)
    ensures DoAll(Tally(table, 0, 0, map[]), Acts(history, status, m)).Some?
       <==> ReadingsConvert(history, status, m)
  {
    hide DoAll, Judge, JudgeStatus, BestOf, Candidates, HistoryActs, TemperatureActs, StatusActs, KeepsSlots,
         FirstBestRow, Converts, Lands;
    var acts, cs := Acts(history, status, m), Candidates(history, m);
    CompletesIff(Tally(table, 0, 0, map[]), acts);
    AllTimedByIndex(acts);
    BestKeepsSlots(cs);
    FourTimed(HistoryActs(history, m), TemperatureActs(BestOf(cs)), |cs| - |BestOf(cs).slots|,
              StatusActs(status, m));
    HistoryTimed(history, m);
    TemperaturesTimed(history, m, BestOf(cs));
    StatusTimed(status, m);
  }

  lemma AllTimedByIndex(acts: seq<Act>)
    ensures AllTimed(acts) <==> forall i :: 0 <= i < |acts| && Lands(acts[i]) ==> acts[i].call.time.Some?
  {
  }

  lemma FourTimed(a: seq<Act>, b: seq<Act>, n: nat, d: seq<Act>)
    ensures AllTimed(a + b + [Skip(n)] + d) <==> AllTimed(a) && AllTimed(b) && AllTimed(d)
  {
    assert forall x :: x in a + b + [Skip(n)] + d <==> x in a || x in b || x == Skip(n) || x in d;
  }

  /** One reading with a value and a time beyond the year 9999 stops an import. */
  lemma FarFutureStops(m: Maps)
    ensures var row := HistoryRow(Some("n"), Some(253402300800), Some(1), Some("voltage"), Some(3.7));
            DoAll(Tally([], 0, 0, map[]), Acts([row], [], m)).None?
  {
    var row := HistoryRow(Some("n"), Some(253402300800), Some(1), Some("voltage"), Some(3.7));
    ImportCompletesIff([], [row], [], m);
    hide DoAll, Acts;
    assert [row][0] == row && Judge(row, m).Direct? && !Converts(row.ts);
  }

  /** Afterwards the table holds what it held and every reading recorded, nothing else. */
  lemma {:induction false} TableAfter(t: Tally, acts: seq<Act>)
    requires DoAll(t, acts).Some?
    ensures forall r :: r in DoAll(t, acts).value.table <==>
              r in t.table || exists i :: 0 <= i < |acts| && Lands(acts[i]) && acts[i].call.time.Some?
                                          && Row(acts[i].call) == r
  {
    if acts != [] {
      var n := |acts| - 1;
      var front := acts[..n];
      TableAfter(t, front);
      forall r
        ensures r in DoAll(t, acts).value.table <==>
                  r in t.table || exists i :: 0 <= i < |acts| && Lands(acts[i]) && acts[i].call.time.Some?
                                              && Row(acts[i].call) == r
      {
        if i :| 0 <= i < |front| && Lands(front[i]) && front[i].call.time.Some? && Row(front[i].call) == r {
          assert acts[i] == front[i];
        }
        if i :| 0 <= i < |acts| && Lands(acts[i]) && acts[i].call.time.Some? && Row(acts[i].call) == r {
          if i < n { assert front[i] == acts[i]; }
        }
      }
    }
  }

  /** When every reading is already there, a run only counts skips. */
  lemma {:induction false} NothingNew(t: Tally, acts: seq<Act>)
    requires forall i :: 0 <= i < |acts| && Lands(acts[i]) ==>
                           acts[i].call.time.Some? && Row(acts[i].call) in t.table
    ensures DoAll(t, acts) == Some(t.(skipped := t.skipped + Weight(acts)))
  {
    if acts != [] {
      var front := acts[..|acts| - 1];
      assert forall i :: 0 <= i < |front| ==> front[i] == acts[i];
      NothingNew(t, front);
    }
  }

  /** A second run over the same archive inserts nothing and leaves the table as it is. */
  lemma SecondRunInsertsNothing(table: seq<Reading>, history: seq<HistoryRow>, status: seq<StatusRow>, m: Maps)
    requires DoAll(Tally(table, 0, 0, map[]), Acts(history, status, m)).Some?
    ensures var once := DoAll(Tally(table, 0, 0, map[]), Acts(history, status, m)).value;
            DoAll(Tally(once.table, 0, 0, map[]), Acts(history, status, m))
            == Some(Tally(once.table, 0, |history| + |status|, map[]))
  {
    hide Acts, DoAll;
    var acts := Acts(history, status, m);
    var once := DoAll(Tally(table, 0, 0, map[]), acts).value;
    CompletesIff(Tally(table, 0, 0, map[]), acts);
    TableAfter(Tally(table, 0, 0, map[]), acts);
    NothingNew(Tally(once.table, 0, 0, map[]), acts);
    EveryRowAccounted(once.table, history, status, m);
  }

  /** How many rows of the table carry this column. */
  function RowsOf(table: seq<Reading>, c: Column): nat {
    if table == [] then 0
    else RowsOf(table[..|table| - 1], c) + if c in table[|table| - 1].values then 1 else 0
  }

  /** The count kept for a column is the number of rows the run added with it. */
  lemma {:induction false} CountsByColumn(t: Tally, acts: seq<Act>, c: Column)
    requires DoAll(t, acts).Some?
    ensures var u := DoAll(t, acts).value;
            CountOf(u.counts, c) + RowsOf(t.table, c) == CountOf(t.counts, c) + RowsOf(u.table, c)
  {
    if acts != [] {
      var front, a := acts[..|acts| - 1], acts[|acts| - 1];
      CountsByColumn(t, front, c);
      var u, v := DoAll(t, front).value, DoAll(t, acts).value;
      if a.Write? && a.call.value.Some? && Row(a.call) !in u.table {
        assert v.table[..|v.table| - 1] == u.table;
        CountAfter(u.counts, a.call.column, c);
      }
    }
  }
}
