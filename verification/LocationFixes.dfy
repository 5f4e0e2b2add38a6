/** The coordinator's live location: polled fixes are handed to every registered callback when they change. */
module LocationFixes {
  import opened Common

  datatype Fix = Fix(mode: int, latitude: Option<real>, longitude: Option<real>, altitude: Option<real>) {
    predicate HasPosition() { mode >= 2 && latitude.Some? && longitude.Some? }
  }

  datatype Status = Status(available: bool, fix: Option<Fix>)

  datatype Place = Place(lat: Option<real>, lon: Option<real>, alt: Option<real>)

  /** What callback number `to` was called with. */
  datatype Call = Call(to: nat, place: Place)

  datatype Event = Poll(status: Status) | Register

  // ---------------------------------------------------------------- reference definitions

  /** The place a poll offers, if its status carries a usable fix. */
  function Offered(s: Status): Option<Place> {
    if s.available && s.fix.Some? && s.fix.value.HasPosition()
    then Some(Place(s.fix.value.latitude, s.fix.value.longitude, s.fix.value.altitude))
    else None
  }

  /** The places offered over a run, in order. */
  function Fixes(run: seq<Event>): seq<Place> {
    if run == [] then []
    else
      var last := run[|run| - 1];
      Fixes(run[..|run| - 1])
      + if last.Poll? && Offered(last.status).Some? then [Offered(last.status).value] else []
  }

  /** Consecutive repeats removed. */
  function Changes<T(==)>(s: seq<T>): seq<T> {
    if |s| <= 1 then s
    else if s[0] == s[1] then Changes(s[1..])
    else [s[0]] + Changes(s[1..])
  }

  /** How often each element of `Changes(s)` stands in a row in `s`. */
  function RunLengths<T(==)>(s: seq<T>): seq<nat> {
    if s == [] then []
    else if |s| == 1 then [1]
    else
      var rest := RunLengths(s[1..]);
      if s[0] != s[1] then [1] + rest
      else if rest == [] then [1]
      else [rest[0] + 1] + rest[1..]
  }

  function Copies<T>(x: T, n: nat): seq<T> { if n == 0 then [] else [x] + Copies(x, n - 1) }

  function Expand<T>(s: seq<T>, counts: seq<nat>): seq<T>
    requires |s| == |counts|
  {
    if s == [] then [] else Copies(s[0], counts[0]) + Expand(s[1..], counts[1..])
  }

  /** Removing repeats keeps one of each run: no two neighbours are equal, and repeating each element as often
      as it stood in a row gives the list back. */
  lemma {:induction false} ChangesKeepsOneOfEachRun<T>(s: seq<T>)
    ensures |RunLengths(s)| == |Changes(s)|
    ensures Expand(Changes(s), RunLengths(s)) == s
    ensures forall i :: 0 <= i < |RunLengths(s)| ==> RunLengths(s)[i] > 0
    ensures forall i :: 0 < i < |Changes(s)| ==> Changes(s)[i - 1] != Changes(s)[i]
    ensures s != [] ==> Changes(s) != [] && Changes(s)[0] == s[0]
  {
    if |s| == 1 {
      assert Copies(s[0], 1) == [s[0]] + Copies(s[0], 0);
      assert s == [s[0]];
    } else if |s| > 1 {
      ChangesKeepsOneOfEachRun(s[1..]);
      var (c, r) := (Changes(s[1..]), RunLengths(s[1..]));
      assert s == [s[0]] + s[1..];
      if s[0] == s[1] {
        assert Expand(c, r) == Copies(c[0], r[0]) + Expand(c[1..], r[1..]);
        assert Copies(c[0], r[0] + 1) == [c[0]] + Copies(c[0], r[0]);
        assert RunLengths(s)[1..] == r[1..];
        ConcatAssoc([c[0]], Copies(c[0], r[0]), Expand(c[1..], r[1..]));
      } else {
        assert Copies(s[0], 1) == [s[0]] + Copies(s[0], 0);
        assert ([s[0]] + c)[1..] == c && ([1] + r)[1..] == r;
      }
    }
  }

  lemma {:induction false} ChangesSnoc<T>(s: seq<T>, x: T)
    ensures Changes(s + [x]) == Changes(s) + if s != [] && s[|s| - 1] == x then [] else [x]
  {
    var added := if s != [] && s[|s| - 1] == x then [] else [x];
    if s == [] {
      assert s + [x] == [x];
    } else if |s| == 1 {
      assert (s + [x])[1..] == [x];
    } else {
      var t := s + [x];
      assert t[0] == s[0] && t[1] == s[1] && t[1..] == s[1..] + [x];
      ChangesSnoc(s[1..], x);
      ConcatAssoc([s[0]], Changes(s[1..]), added);
    }
  }

  lemma {:induction false} ChangesPrefix<T>(s: seq<T>, t: seq<T>)
    ensures Changes(s) <= Changes(s + t)
    decreases |t|
  {
    if t == [] {
      assert s + t == s;
    } else {
      ChangesSnoc(s, t[0]);
      ChangesPrefix(s + [t[0]], t[1..]);
      assert (s + [t[0]]) + t[1..] == s + t;
    }
  }

  // ---------------------------------------------------------------- the coordinator

  function CallsTo(k: nat, calls: seq<Call>): seq<Place> {
    if calls == [] then []
    else CallsTo(k, calls[..|calls| - 1]) + if calls[|calls| - 1].to == k then [calls[|calls| - 1].place] else []
  }

  lemma {:induction false} CallsToAppend(k: nat, a: seq<Call>, b: seq<Call>)
    ensures CallsTo(k, a + b) == CallsTo(k, a) + CallsTo(k, b)
    decreases |b|
  {
    if b == [] {
      assert a + b == a;
    } else {
      CallsToAppend(k, a, b[..|b| - 1]);
      assert (a + b)[..|a + b| - 1] == a + b[..|b| - 1];
    }
  }

  /** One change is handed to callbacks 0 to n - 1, in registration order. */
  function Broadcast(place: Place, n: nat): seq<Call> {
    if n == 0 then [] else Broadcast(place, n - 1) + [Call(n - 1, place)]
  }

  lemma {:induction false} BroadcastReachesEachOnce(place: Place, n: nat, k: nat)
    ensures CallsTo(k, Broadcast(place, n)) == if k < n then [place] else []
  {
    if n > 0 {
      BroadcastReachesEachOnce(place, n - 1, k);
      var calls := Broadcast(place, n);
      assert calls[..|calls| - 1] == Broadcast(place, n - 1);
    }
  }

  class Coordinator {
    var isStatic: bool
    var last: Place
    var callbacks: nat
    var calls: seq<Call>

    constructor (isStatic: bool)
      ensures this.isStatic == isStatic && last == Place(None, None, None) && callbacks == 0 && calls == []
    {
      this.isStatic, last, callbacks, calls := isStatic, Place(None, None, None), 0, [];
    }

    method OnLocationUpdate()
      modifies `callbacks
      ensures callbacks == old(callbacks) + 1
    {
      callbacks := callbacks + 1;
    }

    /** A poll calls every callback once when it offers a place other than the last, and does nothing otherwise. */
    method ApplyLatestLocationFix(status: Status)
      modifies `last, `calls
      ensures var offered := Offered(status);
              if isStatic || offered.None? || offered == Some(old(last))
              then last == old(last) && calls == old(calls)
              else last == offered.value && calls == old(calls) + Broadcast(offered.value, callbacks)
    {
      if isStatic { return; }
      if !status.available || status.fix.None? { return; }
      var fix := status.fix.value;
      if !fix.HasPosition() { return; }
      var lat, lon, alt := fix.latitude, fix.longitude, fix.altitude;
      if last.lat == lat && last.lon == lon && last.alt == alt { return; }
      last := Place(lat, lon, alt);
      var k := 0;
      while k < callbacks
        invariant 0 <= k <= callbacks
        invariant last == Place(lat, lon, alt)
        invariant calls == old(calls) + Broadcast(Place(lat, lon, alt), k)
      {
        calls := calls + [Call(k, Place(lat, lon, alt))];
        k := k + 1;
      }
    }

    /** A whole run of polls and registrations on a fresh coordinator. */
    method Run(run: seq<Event>)
      requires last == Place(None, None, None) && callbacks == 0 && calls == []
      modifies this
      ensures isStatic == old(isStatic) && callbacks == Registered(run)
      ensures isStatic ==> calls == []
      ensures !isStatic ==> forall k: nat :: k < callbacks ==>
                CallsTo(k, calls) == Changes(Fixes(run))[Missed(k, run)..]
    {
      var i := 0;
      while i < |run|
        invariant 0 <= i <= |run|
        invariant isStatic == old(isStatic)
        invariant Follows(isStatic, last, callbacks, calls, run[..i])
      {
        assert run[..i + 1] == run[..i] + [run[i]];
        ghost var before := (last, callbacks, calls);
        match run[i] {
          case Register => OnLocationUpdate();
          case Poll(status) => ApplyLatestLocationFix(status);
        }
        StepFollows(isStatic, before, (last, callbacks, calls), run[..i], run[i]);
        i := i + 1;
      }
      assert run[..|run|] == run;
    }
  }

  // ---------------------------------------------------------------- every run

  function Registered(run: seq<Event>): nat {
    if run == [] then 0
    else Registered(run[..|run| - 1]) + if run[|run| - 1].Register? then 1 else 0
  }

  /** How many changes had been handed out when callback `k` was registered (all of them, if it has not been). */
  function Missed(k: nat, run: seq<Event>): (n: nat)
    ensures n <= |Changes(Fixes(run))|
  {
    if run == [] then 0
    else
      var before := run[..|run| - 1];
      ChangesPrefix(Fixes(before), Fixes(run)[|Fixes(before)|..]);
      assert Fixes(before) + Fixes(run)[|Fixes(before)|..] == Fixes(run);
      if k < Registered(before) then Missed(k, before) else |Changes(Fixes(run))|
  }

  /** The state after a run: the last place offered, and each callback told of every change since it joined. */
  ghost predicate Follows(isStatic: bool, last: Place, callbacks: nat, calls: seq<Call>, run: seq<Event>) {
    && callbacks == Registered(run)
    && (isStatic ==> calls == [])
    && (!isStatic ==>
          && last == (if Fixes(run) == [] then Place(None, None, None) else Fixes(run)[|Fixes(run)| - 1])
          && forall k: nat :: CallsTo(k, calls) == Changes(Fixes(run))[Missed(k, run)..])
  }

  lemma StepFollows(isStatic: bool, s: (Place, nat, seq<Call>), t: (Place, nat, seq<Call>), run: seq<Event>, e: Event)
    requires Follows(isStatic, s.0, s.1, s.2, run)
    requires match e
             case Register => t == (s.0, s.1 + 1, s.2)
             case Poll(status) =>
               var offered := Offered(status);
               if isStatic || offered.None? || offered == Some(s.0) then t == s
               else t == (offered.value, s.1, s.2 + Broadcast(offered.value, s.1))
    ensures Follows(isStatic, t.0, t.1, t.2, run + [e])
  {
    var all := run + [e];
    assert all[..|all| - 1] == run;
    if !isStatic {
      forall k: nat ensures CallsTo(k, t.2) == Changes(Fixes(all))[Missed(k, all)..] {
        StepTells(s, t, run, e, k);
      }
    }
  }

  lemma MissedStep(k: nat, run: seq<Event>, e: Event)
    ensures Missed(k, run + [e]) == if k < Registered(run) then Missed(k, run) else |Changes(Fixes(run + [e]))|
    ensures k >= Registered(run) ==> Missed(k, run) == |Changes(Fixes(run))|
  {
    var all := run + [e];
    assert all[..|all| - 1] == run;
  }

  lemma FixesStep(run: seq<Event>, e: Event)
    ensures Fixes(run + [e])
            == Fixes(run) + if e.Poll? && Offered(e.status).Some? then [Offered(e.status).value] else []
  {
    var all := run + [e];
    assert all[..|all| - 1] == run;
  }

  lemma StepTells(s: (Place, nat, seq<Call>), t: (Place, nat, seq<Call>), run: seq<Event>, e: Event, k: nat)
    requires Follows(false, s.0, s.1, s.2, run)
    requires match e
             case Register => t == (s.0, s.1 + 1, s.2)
             case Poll(status) =>
               var offered := Offered(status);
               if offered.None? || offered == Some(s.0) then t == s
               else t == (offered.value, s.1, s.2 + Broadcast(offered.value, s.1))
    ensures CallsTo(k, t.2) == Changes(Fixes(run + [e]))[Missed(k, run + [e])..]
  {
    MissedStep(k, run, e);
    FixesStep(run, e);
    hide Missed, Fixes, Registered, Changes, CallsTo, Broadcast;
    if e.Poll? && Offered(e.status).Some? {
      var p := Offered(e.status).value;
      ChangesSnoc(Fixes(run), p);
      if p != s.0 {
        CallsToAppend(k, s.2, Broadcast(p, s.1));
        BroadcastReachesEachOnce(p, s.1, k);
      }
    } else {
      assert Fixes(run) + [] == Fixes(run);
    }
  }

  /** What a poll adds to the places offered: the coordinates of a fix of mode 2 or more that has both, and nothing
      otherwise. */
  lemma PollOffers(run: seq<Event>, s: Status)
    ensures Fixes(run + [Poll(s)])
         == if s.available && s.fix.Some? && s.fix.value.mode >= 2 && s.fix.value.latitude.Some?
               && s.fix.value.longitude.Some?
            then Fixes(run) + [Place(s.fix.value.latitude, s.fix.value.longitude, s.fix.value.altitude)]
            else Fixes(run)
  {
    FixesStep(run, Poll(s));
    assert Fixes(run) + [] == Fixes(run);
  }
}
