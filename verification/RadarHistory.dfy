/** What a row of the radar server's node table says about the whole history of its node. */
module RadarHistory {
  import opened Common
  import opened RadarStore

  function EventsOf(ms: seq<Message>): seq<Event> {
    if ms == [] then [] else EventsOf(ms[..|ms| - 1]) + EventsIn(ms[|ms| - 1])
  }

  /** The node table after a run on an empty database. */
  function Run(ms: seq<Message>): map<Key, Row> {
    ApplyAll(map[], EventsOf(ms))
  }

  /** The touches of one row, in order. */
  function Mine(evs: seq<Event>, k: Key): seq<Touch> {
    if evs == [] then []
    else Mine(evs[..|evs| - 1], k) + if evs[|evs| - 1].key == k then [evs[|evs| - 1].touch] else []
  }

  function FoldRow(id: string, ts: seq<Touch>): Row
    requires ts != []
  {
    if |ts| == 1 then Insert(id, ts[0]) else Update(FoldRow(id, ts[..|ts| - 1]), ts[|ts| - 1])
  }

  /** Rows do not influence each other: each is the fold of its own touches. */
  lemma {:induction false} RowsAreFolds(evs: seq<Event>, k: Key)
    ensures var t := ApplyAll(map[], evs);
            (k in t <==> Mine(evs, k) != [])
            && (k in t ==> t[k] == FoldRow(k.1, Mine(evs, k)))
  {
    hide Insert, Update;
    if evs != [] {
      var prior, ev := evs[..|evs| - 1], evs[|evs| - 1];
      RowsAreFolds(prior, k);
      var ts := Mine(prior, k);
      if ev.key == k {
        assert (ts + [ev.touch])[..|ts|] == ts;
        assert ts == [] ==> ts + [ev.touch] == [ev.touch];
      } else {
        assert ts + [] == ts;
      }
    }
  }

  // ---------------------------------------------------------------- the history of one row

  function LastBound(ts: seq<Touch>, c: TextColumn): Option<string> {
    if ts == [] then None
    else OrElse(NonBlank(Bound(ts[|ts| - 1], c)), LastBound(ts[..|ts| - 1], c))
  }

  function LastTelemetry(ts: seq<Touch>): Option<Readings> {
    if ts == [] then None else OrElse(TelemetryIn(ts[|ts| - 1]), LastTelemetry(ts[..|ts| - 1]))
  }

  function LastName(ts: seq<Touch>): Option<string> {
    if ts == [] then None else OrElse(NameIn(ts[|ts| - 1]), LastName(ts[..|ts| - 1]))
  }

  function LastProtocol(ts: seq<Touch>): Option<string> {
    if ts == [] then None
    else
      var t := ts[|ts| - 1];
      OrElse(if t.ByEntry? then NonBlank(t.e.protocol) else None, LastProtocol(ts[..|ts| - 1]))
  }

  function LastCoordinates(ts: seq<Touch>): (Option<int>, Option<int>, Option<int>) {
    if ts == [] then (None, None, None)
    else
      var p, q := Position(ts[|ts| - 1]), LastCoordinates(ts[..|ts| - 1]);
      (OrElse(p.0, q.0), OrElse(p.1, q.1), OrElse(p.2, q.2))
  }

  /** The last heartbeat entry that named the node. */
  function LastEntry(ts: seq<Touch>): Option<NodeEntry> {
    if ts == [] then None
    else if ts[|ts| - 1].ByEntry? then Some(ts[|ts| - 1].e)
    else LastEntry(ts[..|ts| - 1])
  }

  /** The times of the packets heard since that entry. */
  function PacketsSince(ts: seq<Touch>): seq<int> {
    if ts == [] || ts[|ts| - 1].ByEntry? then []
    else PacketsSince(ts[..|ts| - 1]) + [Time(ts[|ts| - 1]).value]
  }

  function Latest(start: Option<int>, times: seq<int>): Option<int> {
    if times == [] then start
    else
      var before := Latest(start, times[..|times| - 1]);
      Some(if before.None? then times[|times| - 1] else Max(times[|times| - 1], before.value))
  }

  function ExpectedCount(ts: seq<Touch>): Option<int> {
    match LastEntry(ts)
    case None => Some(|PacketsSince(ts)|)
    case Some(e) => if e.packetCount.None? then None else Some(e.packetCount.value + |PacketsSince(ts)|)
  }

  function ExpectedHeard(ts: seq<Touch>): Option<int> {
    match LastEntry(ts)
    case None => Latest(None, PacketsSince(ts))
    case Some(e) => if e.lastHeard.None? then None else Latest(e.lastHeard, PacketsSince(ts))
  }

  /** A row says exactly what its history says. A heartbeat entry that leaves out the count or the time
      makes the column NULL until the next entry, which is why the code's heartbeats carry both. */
  ghost predicate Tells(id: string, ts: seq<Touch>, r: Row)
    requires ts != []
  {
    var first, last := ts[0], ts[|ts| - 1];
    (forall c :: NonBlank(Column(r, c)) == LastBound(ts, c))
    && r.telemetry == LastTelemetry(ts)
    && (r.latitude, r.longitude, r.altitude) == LastCoordinates(ts)
    && NonBlank(r.protocol)
       == OrElse(LastProtocol(ts), if first.ByPacket? then NonBlank(first.p.protocol) else None)
    && r.displayName == OrElse(LastName(ts[1..]), Insert(id, first).displayName)
    && r.packetCount == ExpectedCount(ts)
    && r.lastHeard == ExpectedHeard(ts)
    && r.firstSeen == (if first.ByPacket? then Time(first) else first.e.firstSeen)
    && r.signal == SignalIn(last)
    && r.updatedAt == last.at
  }

  lemma {:induction false} FoldTells(id: string, ts: seq<Touch>)
    requires ts != []
    ensures Tells(id, ts, FoldRow(id, ts))
  {
    if |ts| == 1 {
      InsertTells(id, ts[0]);
      assert ts == [ts[0]];
    } else {
      var prior := ts[..|ts| - 1];
      FoldTells(id, prior);
      UpdateTells(id, prior, ts[|ts| - 1], FoldRow(id, prior));
      assert ts == prior + [ts[|ts| - 1]];
    }
  }

  lemma InsertTells(id: string, t: Touch)
    ensures Tells(id, [t], Insert(id, t))
  {
    var ts := [t];
    assert ts[..0] == [];
    assert LastName(ts[1..]) == None;
    assert PacketsSince(ts) == if t.ByPacket? then [Time(t).value] else [];
    assert t.ByPacket? ==> Latest(None, [Time(t).value]) == Time(t);
    if t.ByPacket? { assert LastEntry(ts) == None; } else { assert LastEntry(ts) == Some(t.e); }
  }

  lemma UpdateTells(id: string, prior: seq<Touch>, t: Touch, r: Row)
    requires prior != [] && Tells(id, prior, r)
    ensures Tells(id, prior + [t], Update(r, t))
  {
    hide ExpectedCount, ExpectedHeard, TelemetryIn, Bound, SqlMax;
    var ts := prior + [t];
    assert ts[..|ts| - 1] == prior;
    assert ts[1..][..|ts[1..]| - 1] == prior[1..];
    forall c
      ensures NonBlank(Column(Update(r, t), c)) == LastBound(ts, c)
    {
      assert NonBlank(Column(r, c)) == LastBound(prior, c);
    }
    UpdateKeepsTimes(prior, t, r);
  }

  lemma UpdateKeepsTimes(prior: seq<Touch>, t: Touch, r: Row)
    requires prior != [] && r.packetCount == ExpectedCount(prior) && r.lastHeard == ExpectedHeard(prior)
    ensures Update(r, t).packetCount == ExpectedCount(prior + [t])
    ensures Update(r, t).lastHeard == ExpectedHeard(prior + [t])
  {
    var ts := prior + [t];
    assert ts[..|ts| - 1] == prior;
    if t.ByPacket? {
      var times := PacketsSince(prior);
      assert PacketsSince(ts) == times + [Time(t).value];
      assert (times + [Time(t).value])[..|times|] == times;
      if LastEntry(prior).None? {
        HeardSomething(prior);
      } else if LastEntry(prior).value.lastHeard.Some? {
        LatestKnown(LastEntry(prior).value.lastHeard, times);
      }
    }
  }

  lemma {:induction false} LatestKnown(start: Option<int>, times: seq<int>)
    requires start.Some?
    ensures Latest(start, times).Some?
  {
  }

  /** Without any heartbeat entry there has been a packet, so the time is known. */
  lemma {:induction false} HeardSomething(ts: seq<Touch>)
    requires ts != [] && LastEntry(ts) == None
    ensures PacketsSince(ts) != [] && Latest(None, PacketsSince(ts)).Some?
  {
    assert !ts[|ts| - 1].ByEntry?;
  }

  /** The whole-run statement: a row exists exactly for the nodes that were touched, and each row tells
      the history of its node. */
  lemma RunTells(ms: seq<Message>, k: Key)
    ensures var ts := Mine(EventsOf(ms), k);
            (k in Run(ms) <==> ts != []) && (k in Run(ms) ==> Tells(k.1, ts, Run(ms)[k]))
  {
    hide Tells;
    RowsAreFolds(EventsOf(ms), k);
    if k in Run(ms) {
      FoldTells(k.1, Mine(EventsOf(ms), k));
    }
  }

  /** first_seen is written once, by the touch that created the row. */
  lemma FirstSeenNeverChanges(ms: seq<Message>, more: seq<Message>, k: Key)
    requires k in Run(ms)
    ensures k in Run(ms + more) && Run(ms + more)[k].firstSeen == Run(ms)[k].firstSeen
    decreases |more|
  {
    hide Tells, FoldRow;
    EventsConcat(ms, more);
    MineConcat(EventsOf(ms), EventsOf(more), k);
    RunTells(ms, k);
    RunTells(ms + more, k);
    FirstSeenTold(k.1, Mine(EventsOf(ms), k), Run(ms)[k]);
    FirstSeenTold(k.1, Mine(EventsOf(ms + more), k), Run(ms + more)[k]);
  }

  lemma FirstSeenTold(id: string, ts: seq<Touch>, r: Row)
    requires ts != [] && Tells(id, ts, r)
    ensures r.firstSeen == if ts[0].ByPacket? then Time(ts[0]) else ts[0].e.firstSeen
  {
  }

  /** Message i of the run is the first that touches the row. */
  ghost predicate TouchesFirst(ms: seq<Message>, k: Key, i: nat) {
    i < |ms| && Mine(EventsIn(ms[i]), k) != [] && forall j :: 0 <= j < i ==> Mine(EventsIn(ms[j]), k) == []
  }

  /** The touches of one more message. */
  lemma MessageSnoc(ms: seq<Message>, k: Key)
    requires ms != []
    ensures var n := |ms| - 1; Mine(EventsOf(ms), k) == Mine(EventsOf(ms[..n]), k) + Mine(EventsIn(ms[n]), k)
  {
    hide EventsIn, Mine;
    MineConcat(EventsOf(ms[..|ms| - 1]), EventsIn(ms[|ms| - 1]), k);
  }

  lemma FirstStaysFirst(ms: seq<Message>, k: Key, i: nat, n: nat)
    requires n <= |ms| && TouchesFirst(ms[..n], k, i)
    ensures TouchesFirst(ms, k, i) && ms[i] == ms[..n][i]
  {
    hide EventsIn, Mine;
    forall j | 0 <= j < i
      ensures Mine(EventsIn(ms[j]), k) == []
    {
      assert ms[j] == ms[..n][j];
    }
  }

  lemma LastIsFirst(ms: seq<Message>, k: Key)
    requires ms != [] && Mine(EventsOf(ms[..|ms| - 1]), k) == [] && Mine(EventsIn(ms[|ms| - 1]), k) != []
    ensures TouchesFirst(ms, k, |ms| - 1)
  {
    hide EventsIn, Mine;
    NoTouch(ms[..|ms| - 1], k);
    forall j | 0 <= j < |ms| - 1
      ensures Mine(EventsIn(ms[j]), k) == []
    {
      assert ms[j] == ms[..|ms| - 1][j];
    }
  }

  lemma {:induction false} FirstTouch(ms: seq<Message>, k: Key) returns (i: nat)
    requires Mine(EventsOf(ms), k) != []
    ensures TouchesFirst(ms, k, i) && Mine(EventsIn(ms[i]), k)[0] == Mine(EventsOf(ms), k)[0]
  {
    assert ms != [];
    hide EventsOf, EventsIn, Mine;
    var n := |ms| - 1;
    MessageSnoc(ms, k);
    if Mine(EventsOf(ms[..n]), k) != [] {
      i := FirstTouch(ms[..n], k);
      FirstStaysFirst(ms, k, i, n);
    } else {
      i := n;
      LastIsFirst(ms, k);
    }
  }

  lemma {:induction false} NoTouch(ms: seq<Message>, k: Key)
    requires Mine(EventsOf(ms), k) == []
    ensures forall j :: 0 <= j < |ms| ==> Mine(EventsIn(ms[j]), k) == []
  {
    hide EventsOf, EventsIn, Mine;
    if ms != [] {
      var n := |ms| - 1;
      MessageSnoc(ms, k);
      NoTouch(ms[..n], k);
      forall j | 0 <= j < n
        ensures Mine(EventsIn(ms[j]), k) == []
      {
        assert ms[j] == ms[..n][j];
      }
    }
  }

  /** Over every run first_seen is fixed by the first message that names the node: a packet's own time, or its
      arrival if it has none; for a heartbeat, what the first entry for the node claims. */
  lemma FirstSeenOf(ms: seq<Message>, k: Key) returns (i: nat)
    requires k in Run(ms)
    ensures TouchesFirst(ms, k, i)
    ensures match ms[i]
            case Packet(p, now) => Run(ms)[k].firstSeen == Some(GetOr(p.timestamp, now))
            case Heartbeat(device, nodes, now) =>
              exists n :: 0 <= n < |nodes| && NamesKey(device, nodes[n], k)
                          && Run(ms)[k].firstSeen == nodes[n].firstSeen
                          && forall h :: 0 <= h < n ==> !NamesKey(device, nodes[h], k)
  {
    hide Tells, Run, EventsOf;
    RunTells(ms, k);
    FirstSeenTold(k.1, Mine(EventsOf(ms), k), Run(ms)[k]);
    i := FirstTouch(ms, k);
    match ms[i]
    case Packet(p, now) => PacketTouch(p, now, k);
    case Heartbeat(device, nodes, now) => var n := FirstEntry(device, nodes, now, k);
  }

  lemma PacketTouch(p: PacketMsg, now: int, k: Key)
    requires Mine(EventsIn(Packet(p, now)), k) != []
    ensures Mine(EventsIn(Packet(p, now)), k) == [ByPacket(p, now)]
  {
    var evs := EventsIn(Packet(p, now));
    assert |evs| == 1 ==> evs[..0] == [];
  }

  predicate NamesKey(device: string, e: NodeEntry, k: Key) {
    NonBlank(e.nodeId).Some? && (device, Strip(e.nodeId.value)) == k
  }

  /** The touches of one more heartbeat entry. */
  lemma EntrySnoc(device: string, nodes: seq<NodeEntry>, now: int, k: Key)
    requires nodes != []
    ensures var n := |nodes| - 1;
            Mine(EntryEvents(device, nodes, now), k)
            == Mine(EntryEvents(device, nodes[..n], now), k)
               + if NamesKey(device, nodes[n], k) then [ByEntry(nodes[n], now)] else []
  {
    hide Strip, NonBlank;
    var e := nodes[|nodes| - 1];
    var evs := EntryEvents(device, [e], now);
    EntryEventsOne(device, e, now);
    MineConcat(EntryEvents(device, nodes[..|nodes| - 1], now), evs, k);
    assert |evs| == 1 ==> evs[..0] == [];
  }

  lemma {:induction false} FirstEntry(device: string, nodes: seq<NodeEntry>, now: int, k: Key) returns (n: nat)
    requires Mine(EntryEvents(device, nodes, now), k) != []
    ensures n < |nodes| && NamesKey(device, nodes[n], k)
    ensures Mine(EntryEvents(device, nodes, now), k)[0] == ByEntry(nodes[n], now)
    ensures forall h :: 0 <= h < n ==> !NamesKey(device, nodes[h], k)
  {
    assert nodes != [];
    hide NamesKey, EntryEvents, Mine;
    var last := |nodes| - 1;
    var front := nodes[..last];
    EntrySnoc(device, nodes, now, k);
    if Mine(EntryEvents(device, front, now), k) != [] {
      n := FirstEntry(device, front, now, k);
      assert nodes[n] == front[n];
    } else {
      n := last;
      NoEntry(device, front, now, k);
    }
    forall h | 0 <= h < n
      ensures !NamesKey(device, nodes[h], k)
    {
      assert nodes[h] == front[h];
    }
  }

  lemma {:induction false} NoEntry(device: string, nodes: seq<NodeEntry>, now: int, k: Key)
    requires Mine(EntryEvents(device, nodes, now), k) == []
    ensures forall h :: 0 <= h < |nodes| ==> !NamesKey(device, nodes[h], k)
  {
    hide NamesKey, EntryEvents, Mine;
    if nodes != [] {
      var last := |nodes| - 1;
      EntrySnoc(device, nodes, now, k);
      NoEntry(device, nodes[..last], now, k);
      forall h | 0 <= h < last
        ensures !NamesKey(device, nodes[h], k)
      {
        assert nodes[h] == nodes[..last][h];
      }
    }
  }

  lemma {:induction false} EventsConcat(a: seq<Message>, b: seq<Message>)
    ensures EventsOf(a + b) == EventsOf(a) + EventsOf(b)
    decreases |b|
  {
    hide EventsIn;
    if b == [] {
      assert a + b == a;
    } else {
      assert (a + b)[..|a + b| - 1] == a + b[..|b| - 1];
      EventsConcat(a, b[..|b| - 1]);
    }
  }

  lemma {:induction false} MineConcat(a: seq<Event>, b: seq<Event>, k: Key)
    ensures Mine(a + b, k) == Mine(a, k) + Mine(b, k)
    decreases |b|
  {
    if b == [] {
      assert a + b == a;
    } else {
      assert (a + b)[..|a + b| - 1] == a + b[..|b| - 1];
      MineConcat(a, b[..|b| - 1], k);
    }
  }

  // ---------------------------------------------------------------- one row per node

  /** A node reported with and without its leading "!" lands on one row, unless the bare id itself starts
      with one. */
  lemma OneRowPerNode(id: string)
    ensures Strip("!" + id) == Strip(id) <==> !Bang(id)
    ensures Bang(Strip(id)) <==> DoubleBang(id)
  {
    if Bang(id) {
      assert |Strip("!" + id)| == |id| && |Strip(id)| == |id| - 1;
    }
  }

  predicate NamesDoubleBang(id: Option<string>) { id.Some? && DoubleBang(id.value) }

  ghost predicate AnyDoubleBang(nodes: seq<NodeEntry>) {
    exists i :: 0 <= i < |nodes| && NamesDoubleBang(nodes[i].nodeId)
  }

  ghost predicate HasDoubleBang(m: Message) {
    match m
    case Packet(p, _) => NamesDoubleBang(p.sourceId)
    case Heartbeat(_, nodes, _) => AnyDoubleBang(nodes)
  }

  ghost predicate AnyBang(evs: seq<Event>) {
    exists i :: 0 <= i < |evs| && Bang(evs[i].key.1)
  }

  lemma AnyBangConcat(a: seq<Event>, b: seq<Event>)
    ensures AnyBang(a + b) <==> AnyBang(a) || AnyBang(b)
  {
    if AnyBang(b) {
      var i :| 0 <= i < |b| && Bang(b[i].key.1);
      assert (a + b)[|a| + i] == b[i];
    }
    if AnyBang(a) {
      var i :| 0 <= i < |a| && Bang(a[i].key.1);
      assert (a + b)[i] == a[i];
    }
  }

  lemma {:induction false} EntryKeys(device: string, nodes: seq<NodeEntry>, now: int)
    ensures AnyBang(EntryEvents(device, nodes, now)) <==> AnyDoubleBang(nodes)
  {
    if nodes != [] {
      var n := |nodes| - 1;
      var front, e := nodes[..n], nodes[n];
      EntryKeys(device, front, now);
      AnyBangConcat(EntryEvents(device, front, now), EntryEvents(device, [e], now));
      EntryEventsOne(device, e, now);
      if NonBlank(e.nodeId).Some? {
        OneRowPerNode(e.nodeId.value);
        assert EntryEvents(device, [e], now)[0].key.1 == Strip(e.nodeId.value);
      }
      assert AnyDoubleBang(nodes) <==> AnyDoubleBang(front) || NamesDoubleBang(e.nodeId) by {
        if AnyDoubleBang(front) {
          var i :| 0 <= i < n && NamesDoubleBang(front[i].nodeId);
          assert nodes[i] == front[i];
        }
        if AnyDoubleBang(nodes) && !NamesDoubleBang(e.nodeId) {
          var i :| 0 <= i < |nodes| && NamesDoubleBang(nodes[i].nodeId);
          assert front[i] == nodes[i];
        }
      }
    }
  }

  lemma MessageKeys(m: Message)
    ensures AnyBang(EventsIn(m)) <==> HasDoubleBang(m)
  {
    match m {
      case Packet(p, now) =>
        if NonBlank(p.sourceId).Some? {
          OneRowPerNode(p.sourceId.value);
          assert EventsIn(m)[0].key.1 == Strip(p.sourceId.value);
        }
      case Heartbeat(device, nodes, now) =>
        EntryKeys(device, nodes, now);
    }
  }

  lemma {:induction false} RunKeys(ms: seq<Message>)
    ensures AnyBang(EventsOf(ms)) <==> exists i :: 0 <= i < |ms| && HasDoubleBang(ms[i])
  {
    hide HasDoubleBang, EventsIn, AnyBang;
    if ms == [] {
      assert !AnyBang([]) by { NoBang(); }
    } else {
      var n := |ms| - 1;
      RunKeys(ms[..n]);
      MessageKeys(ms[n]);
      AnyBangConcat(EventsOf(ms[..n]), EventsIn(ms[n]));
      assert forall i :: 0 <= i < n ==> ms[..n][i] == ms[i];
    }
  }

  lemma NoBang()
    ensures !AnyBang([])
  {
  }

  /** Every row is keyed by an id without a leading "!" exactly when no message carries a "!!" id. */
  lemma KeysAreBareIff(ms: seq<Message>)
    ensures (forall k :: k in Run(ms) ==> !Bang(k.1))
       <==> (forall i :: 0 <= i < |ms| ==> !HasDoubleBang(ms[i]))
  {
    hide HasDoubleBang, ApplyAll, EventsOf;
    var evs := EventsOf(ms);
    RunKeys(ms);
    KeysGrow(map[], evs);
    if AnyBang(evs) {
      var i :| 0 <= i < |evs| && Bang(evs[i].key.1);
      assert evs[i].key in Run(ms);
    }
  }

  /** One packet from "!!a" is enough for a row keyed "!a". */
  lemma DoubleBangKeepsOne(p: PacketMsg, now: int)
    requires p.sourceId == Some("!!a")
    ensures (p.device, "!a") in Run([Packet(p, now)])
  {
    var m := Packet(p, now);
    assert [m][..0] == [] && Strip("!!a") == "!a";
    assert EventsOf([m]) == [] + EventsIn(m) == [Event((p.device, "!a"), ByPacket(p, now))];
    assert EventsOf([m])[..0] == [];
  }

  lemma {:induction false} KeysGrow(nodes: map<Key, Row>, evs: seq<Event>)
    ensures forall k :: k in ApplyAll(nodes, evs)
                        <==> k in nodes || exists i :: 0 <= i < |evs| && evs[i].key == k
  {
    hide Insert, Update;
    if evs != [] {
      var n := |evs| - 1;
      KeysGrow(nodes, evs[..n]);
      forall k
        ensures k in ApplyAll(nodes, evs) <==> k in nodes || exists i :: 0 <= i < |evs| && evs[i].key == k
      {
        if i :| 0 <= i < n && evs[..n][i].key == k { assert evs[i].key == k; }
        if i :| 0 <= i < |evs| && evs[i].key == k {
          if i < n { assert evs[..n][i].key == k; }
        }
      }
    }
  }
}
