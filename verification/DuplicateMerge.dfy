/** The one-time cleanup that folds node rows keyed "!id" into the row keyed "id". */
module DuplicateMerge {
  import opened Common
  import opened RadarStore

  type Table = map<Key, Row>

  function Later(a: Option<int>, b: Option<int>): Option<int> {
    if a.None? then b else if b.None? then a else Some(Max(a.value, b.value))
  }

  /** One side was heard no earlier than the other; never having been heard is earliest. */
  predicate AtLeastAsLate(a: Option<int>, b: Option<int>) {
    b.None? || (a.Some? && a.value >= b.value)
  }

  function DisplayName(longName: Option<string>, shortName: Option<string>, shown: Option<string>,
                       realId: string): Option<string> {
    if NonBlank(longName).Some? then longName
    else if NonBlank(shortName).Some? then shortName
    else if NonBlank(shown).Some? then shown
    else Some(realId)
  }

  /** The row written when both `p` (prefixed) and `t` (target) exist. */
  function MergeRows(p: Row, t: Row, realId: string): Row {
    var longName, shortName := PyOr(p.longName, t.longName), PyOr(p.shortName, t.shortName);
    t.(longName := longName, shortName := shortName,
       displayName := DisplayName(longName, shortName, PyOr(t.displayName, p.displayName), realId),
       hardware := PyOr(p.hardware, t.hardware), firmware := PyOr(p.firmware, t.firmware),
       role := PyOr(p.role, t.role), publicKey := PyOr(p.publicKey, t.publicKey),
       latitude := OrElse(p.latitude, t.latitude), longitude := OrElse(p.longitude, t.longitude),
       altitude := OrElse(p.altitude, t.altitude),
       hasPosition := if p.hasPosition.Some? && p.hasPosition.value != 0 then p.hasPosition else t.hasPosition,
       lastHeard := Later(p.lastHeard, t.lastHeard),
       packetCount := Some(GetOr(p.packetCount, 0) + GetOr(t.packetCount, 0)),
       signal := if AtLeastAsLate(p.lastHeard, t.lastHeard) then p.signal else t.signal,
       telemetry := OrElse(p.telemetry, t.telemetry))
  }

  function Bare(k: Key): Key { (k.0, Strip(k.1)) }

  /** One iteration, on the row `p` the SELECT returned for the prefixed key `k`. */
  function Step(nodes: Table, k: Key, p: Row): Table
  {
    var bare := Bare(k);
    if bare in nodes then nodes[bare := MergeRows(p, nodes[bare], bare.1)] - {k}
    else if k in nodes then (nodes - {k})[bare := nodes[k]]
    else nodes
  }

  /** The loop over the rows selected up front from `snapshot`. */
  function StepAll(snapshot: Table, order: seq<Key>): Table
    requires forall k :: k in order ==> k in snapshot
  {
    if order == [] then snapshot
    else
      var k := order[|order| - 1];
      Step(StepAll(snapshot, order[..|order| - 1]), k, snapshot[k])
  }

  /** The rows the script starts from: every prefixed key once, in some order. */
  ghost predicate Selects(order: seq<Key>, nodes: Table) {
    (forall k :: k in order <==> k in nodes && Bang(k.1))
    && forall i, j :: 0 <= i < j < |order| ==> order[i] != order[j]
  }

  class NodesTable {
    var nodes: Table

    constructor (nodes: Table)
      ensures this.nodes == nodes
    {
      this.nodes := nodes;
    }

    /** `merge_duplicates`; `order` is the order in which the SELECT returns its rows. */
    method MergeDuplicates(order: seq<Key>, dryRun: bool) returns (merged: nat)
      requires Selects(order, nodes)
      modifies this
      ensures merged == |order|
      ensures nodes == if dryRun then old(nodes) else StepAll(old(nodes), order)
    {
      var snapshot := nodes;
      merged := 0;
      var i := 0;
      assert order[..|order|] == order;
      while i < |order|
        invariant 0 <= i <= |order| && merged == i
        invariant forall k :: k in order[..i] ==> k in snapshot
        invariant nodes == if dryRun then snapshot else StepAll(snapshot, order[..i])
      {
        var k := order[i];
        var p := snapshot[k];
        var bare := Bare(k);
        assert order[..i + 1][..i] == order[..i] && order[..i + 1] == order[..i] + [k];
        if dryRun {
        } else if bare !in nodes {
          if k in nodes {
            nodes := (nodes - {k})[bare := nodes[k]];
          }
        } else {
          nodes := nodes[bare := MergeRows(p, nodes[bare], bare.1)];
          nodes := nodes - {k};
        }
        merged := merged + 1;
        i := i + 1;
      }
    }
  }

  // ---------------------------------------------------------------- what the merge leaves

  ghost predicate NoDoubleBang(nodes: Table) { forall k :: k in nodes ==> !DoubleBang(k.1) }

  ghost predicate Clean(nodes: Table) { forall k :: k in nodes ==> !Bang(k.1) }

  function Prefixed(k: Key): Key { (k.0, "!" + k.1) }

  /** The row of bare key `k` once the prefixed rows in `done` have been folded in. */
  function RowAfter(nodes: Table, done: set<Key>, k: Key): Row
    requires k in nodes || Prefixed(k) in done
    requires forall d :: d in done ==> d in nodes
  {
    var b := Prefixed(k);
    if b !in done then nodes[k]
    else if k in nodes then MergeRows(nodes[b], nodes[k], k.1)
    else nodes[b]
  }

  /** The table in the middle of the loop, in closed form. */
  ghost predicate IsAfter(now: Table, nodes: Table, done: set<Key>)
    requires forall d :: d in done ==> d in nodes
  {
    && (forall k :: k in now <==> (k in nodes && k !in done) || (!Bang(k.1) && Prefixed(k) in done))
    && (forall k :: k in now ==> now[k] == if Bang(k.1) then nodes[k] else RowAfter(nodes, done, k))
  }

  lemma BangShape(k: Key)
    ensures Bang(k.1) ==> Prefixed(Bare(k)) == k
    ensures Bang(k.1) && !DoubleBang(k.1) ==> !Bang(Bare(k).1)
    ensures !Bang(k.1) ==> Bare(k) == k && Bang(Prefixed(k).1) && Bare(Prefixed(k)) == k
  {
    if Bang(k.1) {
      assert k.1 == "!" + k.1[1..];
      assert |k.1| >= 2 && k.1[1] == '!' ==> k.1[..2] == "!!";
    }
  }

  lemma PrefixedInjective(a: Key, b: Key)
    requires Prefixed(a) == Prefixed(b)
    ensures a == b
  {
    assert Prefixed(a).1[1..] == a.1 && Prefixed(b).1[1..] == b.1;
  }

  lemma OneStep(now: Table, nodes: Table, done: set<Key>, k: Key)
    requires forall d :: d in done ==> d in nodes && Bang(d.1)
    requires NoDoubleBang(nodes) && IsAfter(now, nodes, done)
    requires k in nodes && k !in done && Bang(k.1)
    ensures IsAfter(Step(now, k, nodes[k]), nodes, done + {k})
  {
    hide MergeRows, DoubleBang;
    var bare := Bare(k);
    BangShape(k);
    assert !Bang(bare.1) && Prefixed(bare) == k;
    var next, more := Step(now, k, nodes[k]), done + {k};
    forall j: Key
      ensures j in next <==> (j in nodes && j !in more) || (!Bang(j.1) && Prefixed(j) in more)
      ensures j in next ==> next[j] == if Bang(j.1) then nodes[j] else RowAfter(nodes, more, j)
    {
      if Prefixed(j) == k {
        PrefixedInjective(j, bare);
      }
    }
  }

  lemma {:induction false} AfterSteps(nodes: Table, order: seq<Key>)
    requires NoDoubleBang(nodes)
    requires forall k :: k in order ==> k in nodes && Bang(k.1)
    requires forall i, j :: 0 <= i < j < |order| ==> order[i] != order[j]
    ensures IsAfter(StepAll(nodes, order), nodes, (set k | k in order))
  {
    hide Step, Bang, DoubleBang, RowAfter;
    if order == [] {
      NothingDone(nodes);
      assert (set k | k in order) == {};
    } else {
      var front, k := order[..|order| - 1], order[|order| - 1];
      AfterSteps(nodes, front);
      assert (set j | j in order) == (set j | j in front) + {k};
      OneStep(StepAll(nodes, front), nodes, (set j | j in front), k);
    }
  }

  lemma NothingDone(nodes: Table)
    ensures IsAfter(nodes, nodes, {})
  {
  }

  /** The table after the run, whatever the order of the rows: one row per bare key, folded from the
      prefixed and the bare row when both were there, and no prefixed key. */
  lemma MergedTable(nodes: Table, order: seq<Key>)
    requires Selects(order, nodes) && NoDoubleBang(nodes)
    ensures var after := StepAll(nodes, order);
            Clean(after)
            && (forall k :: k in after <==> !Bang(k.1) && (k in nodes || Prefixed(k) in nodes))
            && (forall k :: k in after ==>
                  after[k] == if Prefixed(k) !in nodes then nodes[k]
                              else if k !in nodes then nodes[Prefixed(k)]
                              else MergeRows(nodes[Prefixed(k)], nodes[k], k.1))
  {
    hide MergeRows, DoubleBang;
    AfterSteps(nodes, order);
    forall k: Key
      ensures !Bang(k.1) ==> Bang(Prefixed(k).1)
    {
      BangShape(k);
    }
  }

  /** A second run finds nothing to merge and changes nothing. */
  lemma SecondRunMergesNothing(nodes: Table, order: seq<Key>, again: seq<Key>)
    requires Selects(order, nodes) && NoDoubleBang(nodes)
    requires Selects(again, StepAll(nodes, order))
    ensures again == [] && StepAll(StepAll(nodes, order), again) == StepAll(nodes, order)
  {
    hide StepAll;
    MergedTable(nodes, order);
    HeadIsMember(again);
    EmptyRun(StepAll(nodes, order));
  }

  lemma HeadIsMember(keys: seq<Key>)
    ensures keys == [] || keys[0] in keys
  {
  }

  lemma EmptyRun(nodes: Table)
    ensures StepAll(nodes, []) == nodes
  {
  }

  predicate Filled(s: Option<string>) { s.Some? && s.value != "" }

  /** The name shown: a long name, the prefixed row's first, else a short one, else what the target showed, else what
      the prefixed row did, else the id. */
  lemma MergedName(p: Row, t: Row, realId: string)
    ensures MergeRows(p, t, realId).displayName
         == if Filled(p.longName) then p.longName
            else if Filled(t.longName) then t.longName
            else if Filled(p.shortName) then p.shortName
            else if Filled(t.shortName) then t.shortName
            else if Filled(t.displayName) then t.displayName
            else if Filled(p.displayName) then p.displayName
            else Some(realId)
  {
  }

  /** The later of the two times, the signal that came with it (the prefixed row's if they are equal or both are
      missing), the sum of the counts, and a position if either row has one. */
  lemma MergedNumbers(p: Row, t: Row, realId: string)
    ensures var m := MergeRows(p, t, realId);
            var pLater := t.lastHeard.None? || (p.lastHeard.Some? && p.lastHeard.value >= t.lastHeard.value);
            m.lastHeard == (if pLater then p.lastHeard else t.lastHeard)
            && m.signal == (if pLater then p.signal else t.signal)
            && m.packetCount == Some((if p.packetCount.Some? then p.packetCount.value else 0)
                                     + if t.packetCount.Some? then t.packetCount.value else 0)
            && m.hasPosition == (if p.hasPosition.Some? && p.hasPosition.value != 0 then p.hasPosition
                                 else t.hasPosition)
  {
  }

  /** What is known about either row stays known, the prefixed row first; the later time and its signal
      are kept. */
  lemma MergeKeepsKnown(p: Row, t: Row, realId: string)
    ensures var m := MergeRows(p, t, realId);
            (forall c :: NonBlank(Column(m, c)) == OrElse(NonBlank(Column(p, c)), NonBlank(Column(t, c))))
            && (NonBlank(p.displayName).Some? || NonBlank(t.displayName).Some? || realId != "" ==>
                  NonBlank(m.displayName).Some?)
            && m.latitude == OrElse(p.latitude, t.latitude) && m.longitude == OrElse(p.longitude, t.longitude)
            && m.altitude == OrElse(p.altitude, t.altitude) && m.telemetry == OrElse(p.telemetry, t.telemetry)
            && (GetOr(m.hasPosition, 0) != 0 <==> GetOr(p.hasPosition, 0) != 0 || GetOr(t.hasPosition, 0) != 0)
            && AtLeastAsLate(m.lastHeard, p.lastHeard) && AtLeastAsLate(m.lastHeard, t.lastHeard)
            && (m.lastHeard == p.lastHeard || m.lastHeard == t.lastHeard)
            && m.protocol == t.protocol && m.firstSeen == t.firstSeen
            && m.signal == (if AtLeastAsLate(p.lastHeard, t.lastHeard) then p.signal else t.signal)
            && (m.lastHeard != p.lastHeard ==> m.signal == t.signal)
  {
  }

  // ---------------------------------------------------------------- conservation

  function Weight(k: Key, r: Row, device: string): int {
    if k.0 == device then GetOr(r.packetCount, 0) else 0
  }

  /** The packet counts of one device, NULL counting as 0. */
  ghost function Total(nodes: Table, device: string): int
    decreases |nodes|
  {
    if nodes == map[] then 0
    else
      var k :| k in nodes;
      Weight(k, nodes[k], device) + Total(nodes - {k}, device)
  }

  lemma {:induction false} TotalWithout(nodes: Table, device: string, k: Key)
    requires k in nodes
    ensures Total(nodes, device) == Weight(k, nodes[k], device) + Total(nodes - {k}, device)
    decreases |nodes|
  {
    var j :| j in nodes && Total(nodes, device) == Weight(j, nodes[j], device) + Total(nodes - {j}, device);
    if j != k {
      TotalWithout(nodes - {j}, device, k);
      TotalWithout(nodes - {k}, device, j);
      assert nodes - {j} - {k} == nodes - {k} - {j};
    }
  }

  lemma StepTotal(now: Table, k: Key, p: Row, device: string)
    requires k in now && Bang(k.1)
    ensures Total(Step(now, k, p), device)
         == Total(now, device) + if Bare(k) in now then Weight(k, p, device) - Weight(k, now[k], device) else 0
  {
    var bare, next := Bare(k), Step(now, k, p);
    TotalWithout(now, device, k);
    if bare in now {
      TotalWithout(now - {k}, device, bare);
      TotalWithout(next, device, bare);
      assert next - {bare} == now - {k} - {bare};
    } else {
      TotalWithout(next, device, bare);
      assert next - {bare} == now - {k};
    }
  }

  /** The middle of the loop as far as counts depend on it, with "!!" ids allowed: keys whose prefixed row is
      still to come are as they were, and a row still to be handled holds what was folded into it besides its
      own count. */
  ghost predicate CountsAfter(now: Table, nodes: Table, done: set<Key>)
    requires forall d :: d in done ==> d in nodes
  {
    && (forall j :: Prefixed(j) !in done ==>
          (j in now <==> j in nodes && j !in done) && (j in now ==> now[j] == nodes[j]))
    && (forall j :: j in nodes && j !in done && Prefixed(j) in done ==>
          j in now
          && GetOr(now[j].packetCount, 0)
             == GetOr(nodes[j].packetCount, 0) + GetOr(nodes[Prefixed(j)].packetCount, 0))
  }

  lemma CountsStep(now: Table, nodes: Table, done: set<Key>, k: Key)
    requires forall d :: d in done ==> d in nodes
    requires CountsAfter(now, nodes, done) && k in nodes && k !in done && Bang(k.1)
    ensures k in now && CountsAfter(Step(now, k, nodes[k]), nodes, done + {k})
  {
    var bare, next, more := Bare(k), Step(now, k, nodes[k]), done + {k};
    BangShape(k);
    assert Prefixed(bare) == k && |bare.1| < |k.1|;
    assert k in now;
    forall j: Key | Prefixed(j) !in more
      ensures (j in next <==> j in nodes && j !in more) && (j in next ==> next[j] == nodes[j])
    {
      assert j != bare;
    }
    forall j: Key | j in nodes && j !in more && Prefixed(j) in more
      ensures j in next
              && GetOr(next[j].packetCount, 0)
                 == GetOr(nodes[j].packetCount, 0) + GetOr(nodes[Prefixed(j)].packetCount, 0)
    {
      if Prefixed(j) == k { PrefixedInjective(j, bare); }
    }
  }

  /** What is lost when `k` is handled after the rows in `front`: the count folded into it earlier, since the
      row read at the start does not have it, if there is still a row to fold `k` into. */
  function LostAt(nodes: Table, front: seq<Key>, k: Key, device: string): int {
    if Prefixed(k) in front && Prefixed(k) in nodes && Bare(k) in nodes && Bare(k) !in front
    then Weight(k, nodes[Prefixed(k)], device) else 0
  }

  function Lost(nodes: Table, order: seq<Key>, device: string): int {
    if order == [] then 0
    else
      var front := order[..|order| - 1];
      Lost(nodes, front, device) + LostAt(nodes, front, order[|order| - 1], device)
  }

  lemma {:induction false} CountsAlong(nodes: Table, order: seq<Key>)
    requires forall k :: k in order ==> k in nodes && Bang(k.1)
    requires forall i, j :: 0 <= i < j < |order| ==> order[i] != order[j]
    ensures CountsAfter(StepAll(nodes, order), nodes, (set k | k in order))
  {
    hide Step, Bang, CountsAfter;
    if order == [] {
      assert (set k | k in order) == {};
      NoneCounted(nodes);
    } else {
      var front, k := order[..|order| - 1], order[|order| - 1];
      CountsAlong(nodes, front);
      assert (set j | j in order) == (set j | j in front) + {k};
      CountsStep(StepAll(nodes, front), nodes, (set j | j in front), k);
    }
  }

  lemma NoneCounted(nodes: Table)
    ensures CountsAfter(nodes, nodes, {})
  {
  }

  /** One more row handled, in terms of the rows as they were at the start. */
  lemma StepLoses(now: Table, nodes: Table, front: seq<Key>, k: Key, device: string)
    requires forall j :: j in front ==> j in nodes && Bang(j.1)
    requires CountsAfter(now, nodes, (set j | j in front)) && k in nodes && k !in front && Bang(k.1)
    ensures Total(Step(now, k, nodes[k]), device) == Total(now, device) - LostAt(nodes, front, k, device)
  {
    hide Step, Total;
    var done := set j | j in front;
    CountsStep(now, nodes, done, k);
    StepTotal(now, k, nodes[k], device);
    BangShape(k);
    assert Prefixed(Bare(k)) !in done;
  }

  /** What becomes of a device's packet counts, exactly, for every table and order. */
  lemma {:induction false} MergeLoses(nodes: Table, order: seq<Key>, device: string)
    requires forall k :: k in order ==> k in nodes && Bang(k.1)
    requires forall i, j :: 0 <= i < j < |order| ==> order[i] != order[j]
    ensures Total(StepAll(nodes, order), device) == Total(nodes, device) - Lost(nodes, order, device)
  {
    hide Step, Total, LostAt, CountsAfter, Bang;
    if order != [] {
      var front, k := order[..|order| - 1], order[|order| - 1];
      MergeLoses(nodes, front, device);
      CountsAlong(nodes, front);
      assert k !in front;
      StepLoses(StepAll(nodes, front), nodes, front, k, device);
    }
  }

  /** Position i of the order loses a count: "!!x" was folded into "!x" before, and "!x" is folded on. */
  predicate LosesAt(nodes: Table, order: seq<Key>, device: string, i: nat)
    requires i < |order|
  {
    LostAt(nodes, order[..i], order[i], device) != 0
  }

  ghost predicate CountsAreNatural(nodes: Table) {
    forall k :: k in nodes ==> GetOr(nodes[k].packetCount, 0) >= 0
  }

  lemma {:induction false} LostIffLosesAt(nodes: Table, order: seq<Key>, device: string)
    requires CountsAreNatural(nodes)
    ensures Lost(nodes, order, device) >= 0
    ensures Lost(nodes, order, device) == 0 <==> forall i :: 0 <= i < |order| ==> !LosesAt(nodes, order, device, i)
  {
    if order != [] {
      var n := |order| - 1;
      var front := order[..n];
      LostIffLosesAt(nodes, front, device);
      assert LostAt(nodes, front, order[n], device) >= 0;
      forall i | 0 <= i < n
        ensures LosesAt(nodes, order, device, i) == LosesAt(nodes, front, device, i)
      {
        assert order[..i] == front[..i];
      }
      assert order[..n] == front;
      assert LosesAt(nodes, order, device, n) <==> LostAt(nodes, front, order[n], device) != 0;
    }
  }

  /** A device keeps the sum of its packet counts exactly when no "!!" row with packets is folded into a "!" row
      that is folded on afterwards. */
  lemma MergeConservesIff(nodes: Table, order: seq<Key>, device: string)
    requires CountsAreNatural(nodes)
    requires forall k :: k in order ==> k in nodes && Bang(k.1)
    requires forall i, j :: 0 <= i < j < |order| ==> order[i] != order[j]
    ensures Total(StepAll(nodes, order), device) == Total(nodes, device)
       <==> forall i :: 0 <= i < |order| ==> !LosesAt(nodes, order, device, i)
  {
    MergeLoses(nodes, order, device);
    LostIffLosesAt(nodes, order, device);
  }

  /** Without "!!" ids every device keeps the sum of its packet counts, whatever the counts. */
  lemma {:induction false} MergeConserves(nodes: Table, order: seq<Key>, device: string)
    requires NoDoubleBang(nodes)
    requires forall k :: k in order ==> k in nodes && Bang(k.1)
    requires forall i, j :: 0 <= i < j < |order| ==> order[i] != order[j]
    ensures Total(StepAll(nodes, order), device) == Total(nodes, device)
  {
    MergeLoses(nodes, order, device);
    NothingLost(nodes, order, device);
  }

  lemma {:induction false} NothingLost(nodes: Table, order: seq<Key>, device: string)
    requires NoDoubleBang(nodes) && forall k :: k in order ==> k in nodes && Bang(k.1)
    ensures Lost(nodes, order, device) == 0
  {
    if order != [] {
      var k := order[|order| - 1];
      assert k.1[0] == '!';
      assert Prefixed(k).1[..2] == "!!";
      NothingLost(nodes, order[..|order| - 1], device);
    }
  }

  /** A count that is lost: "!!a" with five packets is folded into "!a", which is then folded into "a" as it was
      at the start. */
  lemma CountsCanBeLost(r: Row)
    ensures var (k2, k1, k0) := (("d", "!!a"), ("d", "!a"), ("d", "a"));
            var nodes: Table := map[k2 := r.(packetCount := Some(5)), k1 := r.(packetCount := Some(3)),
                                    k0 := r.(packetCount := Some(2))];
            Selects([k2, k1], nodes)
            && Total(StepAll(nodes, [k2, k1]), "d") == Total(nodes, "d") - 5
  {
    var (k2, k1, k0) := (("d", "!!a"), ("d", "!a"), ("d", "a"));
    var nodes: Table := map[k2 := r.(packetCount := Some(5)), k1 := r.(packetCount := Some(3)),
                            k0 := r.(packetCount := Some(2))];
    hide StepAll, Total;
    assert "!!a"[0] == '!' && "!a"[0] == '!' && "a"[0] == 'a';
    assert Bang(k2.1) && Bang(k1.1) && !Bang(k0.1);
    assert [k2, k1][0] == k2 && [k2, k1][1] == k1 && k2 != k1;
    assert forall k :: k in nodes <==> k == k2 || k == k1 || k == k0;
    assert forall k :: k in [k2, k1] <==> k == k2 || k == k1;
    assert Selects([k2, k1], nodes);
    MergeLoses(nodes, [k2, k1], "d");
    assert [k2, k1][..1] == [k2] && [k2][..0] == [];
    assert "!a"[1..] == "a" && "!" + "!a" == "!!a" && "!" + "!!a" == "!!!a";
    assert LostAt(nodes, [k2], k1, "d") == 5 && LostAt(nodes, [], k2, "d") == 0;
    assert Lost(nodes, [k2, k1], "d") == Lost(nodes, [k2], "d") + 5;
  }

  // ---------------------------------------------------------------- why "!!" ids are excluded

  lemma StepsKeepOthers(nodes: Table, order: seq<Key>, k: Key)
    requires forall j :: j in order ==> j in nodes
    requires k in nodes && k !in order
    ensures k in StepAll(nodes, order)
  {
  }

  ghost function Listing(keys: set<Key>): (order: seq<Key>)
    ensures forall k :: k in order <==> k in keys
    ensures forall i, j :: 0 <= i < j < |order| ==> order[i] != order[j]
  {
    if keys == {} then []
    else
      var k :| k in keys;
      [k] + Listing(keys - {k})
  }

  /** A "!!" row handled last leaves a prefixed row behind. */
  lemma DoubleBangSurvives(nodes: Table, k: Key) returns (order: seq<Key>)
    requires k in nodes && DoubleBang(k.1)
    ensures Selects(order, nodes) && !Clean(StepAll(nodes, order))
  {
    hide MergeRows, StepAll;
    assert Bang(k.1) && Bang(Bare(k).1) by { assert k.1[..2][0] == k.1[0] && k.1[..2][1] == k.1[1]; }
    var front := Listing(set j | j in nodes && Bang(j.1) && j != k);
    order := front + [k];
    StepsKeepOthers(nodes, front, k);
    LastStep(nodes, front, k);
  }

  lemma LastStep(nodes: Table, front: seq<Key>, k: Key)
    requires forall j :: j in front + [k] ==> j in nodes
    requires forall j :: j in front ==> j in nodes
    requires k in StepAll(nodes, front) && Bare(k) != k
    ensures Bare(k) in StepAll(nodes, front + [k])
  {
    assert (front + [k])[..|front|] == front;
  }

  /** The run leaves no prefixed id, in whatever order its rows come, exactly when no id starts "!!". */
  lemma CleanIff(nodes: Table)
    ensures (forall order :: Selects(order, nodes) ==> Clean(StepAll(nodes, order))) <==> NoDoubleBang(nodes)
  {
    hide StepAll, DoubleBang, Clean;
    if NoDoubleBang(nodes) {
      forall order | Selects(order, nodes)
        ensures Clean(StepAll(nodes, order))
      {
        MergedTable(nodes, order);
      }
    } else {
      var k :| k in nodes && DoubleBang(k.1);
      var order := DoubleBangSurvives(nodes, k);
    }
  }
}
