/** The coordinator's map report loop: publish as soon as connected, then at most once per interval.
    Times are in seconds. */
module MapReports {
  import opened Common

  const MINIMUM := 3600
  const RECONNECT_POLL := 5

  /** What the publisher needs before it can send a report. */
  datatype Identity = Identity(nodeId: Option<int>, latitude: Option<real>, longitude: Option<real>)

  /** The surroundings of one turn of the loop: whether the broker is connected, the identity configured then,
      whether the broker accepts the message, the time it takes to send, the time after sending before the loop
      goes on, and how much a sleep overruns. */
  datatype Turn = Turn(connected: bool, identity: Identity, accepted: bool,
                       sending: nat, settling: nat, overrun: nat)

  /** One pass through the loop that found the broker connected. */
  datatype Attempt = Attempt(at: nat, published: bool)

  function Interval(configured: Option<int>): int {
    var c := if configured.Some? && configured.value != 0 then configured.value else MINIMUM;
    if c > MINIMUM then c else MINIMUM
  }

  function Retry(configured: Option<int>): int {
    if Interval(configured) < 300 then Interval(configured) else 300
  }

  predicate CanReport(id: Identity) {
    && id.nodeId.Some? && id.latitude.Some? && id.longitude.Some?
    && !(id.latitude.value == 0.0 && id.longitude.value == 0.0)
  }

  predicate Publishes(t: Turn) { t.connected && CanReport(t.identity) && t.accepted }

  // ---------------------------------------------------------------- the loop

  method PublishMapReport(t: Turn) returns (published: bool)
    requires t.connected
    ensures published <==> Publishes(t)
  {
    if t.identity.nodeId.None? { return false; }
    var (latitude, longitude) := (t.identity.latitude, t.identity.longitude);
    if latitude.None? || longitude.None? || (latitude.value == 0.0 && longitude.value == 0.0) { return false; }
    return t.accepted;
  }

  /** The loop over the turns it runs for, and when each attempt was made. */
  method MapReportLoop(configured: Option<int>, start: nat, turns: seq<Turn>) returns (log: seq<Attempt>)
    ensures log == Attempts(configured, start, turns)
  {
    var asked := if configured.Some? && configured.value != 0 then configured.value else 3600;
    var interval := if 3600 > asked then 3600 else asked;
    var retry := if 300 < interval then 300 else interval;
    var now := start;
    log := [];
    var i := 0;
    assert log + Attempts(configured, start, turns) == Attempts(configured, start, turns) && turns[0..] == turns;
    while i < |turns|
      invariant 0 <= i <= |turns|
      invariant interval == Interval(configured) && retry == Retry(configured)
      invariant now >= 0
      invariant log + Attempts(configured, now, turns[i..]) == Attempts(configured, start, turns)
    {
      hide Attempts, Interval, Retry, Publishes;
      var t := turns[i];
      AttemptsStep(configured, now, turns, i, log);
      if t.connected {
        var published := PublishMapReport(t);
        log := log + [Attempt(now + t.sending, published)];
        now := now + t.sending + t.settling + (if published then interval else retry) + t.overrun;
      } else {
        assert log + [] == log;
        now := now + 5 + t.overrun;
      }
      i := i + 1;
    }
    assert log + [] == log;
  }

  /** The time one turn takes. */
  function Takes(configured: Option<int>, t: Turn): (d: int)
    ensures d >= RECONNECT_POLL
  {
    t.overrun + if !t.connected then RECONNECT_POLL
                else t.sending + t.settling + if Publishes(t) then Interval(configured) else Retry(configured)
  }

  function Attempts(configured: Option<int>, now: nat, turns: seq<Turn>): seq<Attempt>
    decreases turns
  {
    if turns == [] then []
    else
      Made(now, turns[0]) + Attempts(configured, now + Takes(configured, turns[0]), turns[1..])
  }

  /** The attempt a turn makes, if it finds the broker connected. */
  function Made(now: nat, t: Turn): seq<Attempt> {
    if t.connected then [Attempt(now + t.sending, Publishes(t))] else []
  }

  lemma AttemptsStep(configured: Option<int>, now: nat, turns: seq<Turn>, i: nat, log: seq<Attempt>)
    requires i < |turns|
    ensures log + Attempts(configured, now, turns[i..])
            == (log + Made(now, turns[i])) + Attempts(configured, now + Takes(configured, turns[i]), turns[i + 1..])
  {
    assert turns[i..][1..] == turns[i + 1..];
    var later := Attempts(configured, now + Takes(configured, turns[i]), turns[i + 1..]);
    assert Attempts(configured, now, turns[i..]) == Made(now, turns[i]) + later;
    ConcatAssoc(log, Made(now, turns[i]), later);
  }

  // ---------------------------------------------------------------- what holds over every run

  /** The times of the successful reports. */
  function Reports(log: seq<Attempt>): seq<nat> {
    if log == [] then [] else (if log[0].published then [log[0].at] else []) + Reports(log[1..])
  }

  lemma {:induction false} ReportsAppend(a: seq<Attempt>, b: seq<Attempt>)
    ensures Reports(a + b) == Reports(a) + Reports(b)
  {
    if a == [] {
      assert a + b == b;
    } else {
      ReportsAppend(a[1..], b);
      assert (a + b)[1..] == a[1..] + b;
      ConcatAssoc(if a[0].published then [a[0].at] else [], Reports(a[1..]), Reports(b));
    }
  }

  function ReportTimes(configured: Option<int>, now: nat, turns: seq<Turn>): seq<nat> {
    Reports(Attempts(configured, now, turns))
  }

  function FirstReport(now: nat, t: Turn): seq<nat> { if Publishes(t) then [now + t.sending] else [] }

  lemma ReportTimesStep(configured: Option<int>, now: nat, turns: seq<Turn>)
    requires turns != []
    ensures ReportTimes(configured, now, turns)
            == FirstReport(now, turns[0])
               + ReportTimes(configured, now + Takes(configured, turns[0]), turns[1..])
  {
    var head := Made(now, turns[0]);
    ReportsAppend(head, Attempts(configured, now + Takes(configured, turns[0]), turns[1..]));
    if head != [] { assert Reports(head) == (if head[0].published then [head[0].at] else []) + Reports(head[1..]); }
  }

  lemma {:induction false} ReportsComeLater(configured: Option<int>, now: nat, turns: seq<Turn>, k: nat)
    requires k < |ReportTimes(configured, now, turns)|
    ensures ReportTimes(configured, now, turns)[k] >= now + k * Interval(configured)
    decreases turns
  {
    ReportTimesStep(configured, now, turns);
    var next := now + Takes(configured, turns[0]);
    if !Publishes(turns[0]) {
      ReportsComeLater(configured, next, turns[1..], k);
    } else if k > 0 {
      ReportsComeLater(configured, next, turns[1..], k - 1);
      assert (k - 1) * Interval(configured) + Interval(configured) == k * Interval(configured);
    }
  }

  /** Over every run of connects, failures and retries, report j comes at least (j - i) intervals after report i;
      so two reports are never closer than an hour. */
  lemma {:induction false} ReportsAreSpaced(configured: Option<int>, now: nat, turns: seq<Turn>, i: nat, j: nat)
    requires i < j < |ReportTimes(configured, now, turns)|
    ensures ReportTimes(configured, now, turns)[j] - ReportTimes(configured, now, turns)[i]
            >= (j - i) * Interval(configured) >= 3600
    decreases turns
  {
    ReportTimesStep(configured, now, turns);
    var next := now + Takes(configured, turns[0]);
    if !Publishes(turns[0]) {
      ReportsAreSpaced(configured, next, turns[1..], i, j);
    } else if i > 0 {
      ReportsAreSpaced(configured, next, turns[1..], i - 1, j - 1);
    } else {
      ReportsComeLater(configured, next, turns[1..], j - 1);
      assert (j - 1) * Interval(configured) + Interval(configured) == j * Interval(configured);
      assert j * Interval(configured) >= Interval(configured) by { MoreIsMore(j, Interval(configured)); }
    }
  }

  lemma MoreIsMore(n: int, x: int)
    requires n >= 1 && x >= 0
    ensures n * x >= x
  {
    assert n * x == (n - 1) * x + x;
  }

  function TotalTime(configured: Option<int>, turns: seq<Turn>): nat {
    if turns == [] then 0 else Takes(configured, turns[0]) + TotalTime(configured, turns[1..])
  }

  lemma {:induction false} ReportTimesSplit(configured: Option<int>, now: nat, a: seq<Turn>, b: seq<Turn>)
    ensures ReportTimes(configured, now, a + b)
            == ReportTimes(configured, now, a) + ReportTimes(configured, now + TotalTime(configured, a), b)
    decreases a
  {
    if a == [] {
      assert a + b == b;
    } else {
      hide ReportTimes, Takes, FirstReport;
      var next := now + Takes(configured, a[0]);
      assert (a + b)[0] == a[0] && (a + b)[1..] == a[1..] + b;
      ReportTimesSplit(configured, next, a[1..], b);
      ReportTimesStep(configured, now, a);
      ReportTimesStep(configured, now, a + b);
      ConcatAssoc(FirstReport(now, a[0]),
                  ReportTimes(configured, next, a[1..]),
                  ReportTimes(configured, next + TotalTime(configured, a[1..]), b));
    }
  }

  lemma {:induction false} NoReports(configured: Option<int>, now: nat, turns: seq<Turn>)
    requires forall t :: t in turns ==> !Publishes(t)
    ensures ReportTimes(configured, now, turns) == []
    decreases turns
  {
    if turns != [] {
      ReportTimesStep(configured, now, turns);
      NoReports(configured, now + Takes(configured, turns[0]), turns[1..]);
    }
  }

  /** A turn that reports, then turns that do not, then one that does: the first two report times. */
  lemma TwoReports(configured: Option<int>, now: nat, first: Turn, between: seq<Turn>, second: Turn, rest: seq<Turn>)
    requires Publishes(first) && Publishes(second)
    requires forall t :: t in between ==> !Publishes(t)
    ensures var after := now + Takes(configured, first) + TotalTime(configured, between);
            ReportTimes(configured, now, [first] + (between + ([second] + rest)))
            == [now + first.sending] + ([after + second.sending]
               + ReportTimes(configured, after + Takes(configured, second), rest))
  {
    hide ReportTimes, Takes, Publishes, TotalTime;
    var tail1 := [second] + rest;
    var tail0 := between + tail1;
    var turns := [first] + tail0;
    var t1 := now + Takes(configured, first);
    var t2 := t1 + TotalTime(configured, between);
    assert turns[1..] == tail0 && tail1[1..] == rest;
    ReportTimesStep(configured, now, turns);
    ReportTimesSplit(configured, t1, between, tail1);
    NoReports(configured, t1, between);
    ReportTimesStep(configured, t2, tail1);
    assert [] + ReportTimes(configured, t2, tail1) == ReportTimes(configured, t2, tail1);
  }

  /** The gap between a report and the next, exactly: what is left of the first turn, one interval, and the time of
      the turns in between, each of which failed or was offline. */
  lemma GapBetweenReports(configured: Option<int>, now: nat, before: seq<Turn>, first: Turn, between: seq<Turn>,
                          second: Turn, rest: seq<Turn>)
    requires Publishes(first) && Publishes(second)
    requires forall t :: t in between ==> !Publishes(t)
    ensures var n := |ReportTimes(configured, now, before)|;
            var times := ReportTimes(configured, now, before + ([first] + (between + ([second] + rest))));
            && n + 1 < |times|
            && times[n + 1] == times[n] + first.settling + Interval(configured) + first.overrun
                               + TotalTime(configured, between) + second.sending
  {
    var turns := [first] + (between + ([second] + rest));
    var t0 := now + TotalTime(configured, before);
    ReportTimesSplit(configured, now, before, turns);
    TwoReports(configured, t0, first, between, second, rest);
    hide ReportTimes, TotalTime;
    var (had, more) := (ReportTimes(configured, now, before), ReportTimes(configured, t0, turns));
    assert (had + more)[|had|] == more[0] && (had + more)[|had| + 1] == more[1];
  }

  // ---------------------------------------------------------------- between two attempts

  /** From one attempt to the next, when the broker stays connected: after a report what is configured, but at least an
      hour; after a failure five minutes; and what the turns themselves take. */
  lemma NextAttempt(configured: Option<int>, now: nat, t: Turn, u: Turn, rest: seq<Turn>)
    requires t.connected && u.connected
    ensures var log := Attempts(configured, now, [t, u] + rest);
            |log| >= 2 && log[0].at == now + t.sending
            && (log[0].published <==>
                  t.accepted && t.identity.nodeId.Some? && t.identity.latitude.Some? && t.identity.longitude.Some?
                  && !(t.identity.latitude.value == 0.0 && t.identity.longitude.value == 0.0))
            && log[1].at == log[0].at + t.settling + t.overrun + u.sending
                            + if !log[0].published then 300
                              else if configured.Some? && configured.value > 3600 then configured.value else 3600
  {
    var turns := [t, u] + rest;
    assert turns[0] == t && turns[1..] == [u] + rest;
    var next := now + Takes(configured, t);
    var later := Attempts(configured, next, [u] + rest);
    assert Attempts(configured, now, turns) == Made(now, t) + later;
    assert later[0] == Attempt(next + u.sending, Publishes(u));
  }

  /** While the broker is away the loop looks again every five seconds. */
  lemma OfflineTurn(configured: Option<int>, now: nat, t: Turn, rest: seq<Turn>)
    requires !t.connected
    ensures Attempts(configured, now, [t] + rest) == Attempts(configured, now + 5 + t.overrun, rest)
  {
    assert ([t] + rest)[1..] == rest;
    var later := Attempts(configured, now + 5 + t.overrun, rest);
    assert [] + later == later;
  }
}
