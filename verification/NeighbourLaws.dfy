/** What importing a neighbours file does to every row, and when doing it twice is doing it once. */
module NeighbourLaws {
  import opened Common
  import opened MeshcoreIdentity
  import opened MeshcoreNodes
  import opened NeighbourImport

  type Stamp = int -> string

  // ---------------------------------------------------------------- filters

  lemma {:induction false} WithoutConcat(a: seq<Packet>, b: seq<Packet>, ids: set<string>)
    ensures Without(a + b, ids) == Without(a, ids) + Without(b, ids)
    decreases |b|
  {
    hide IsSyntheticOf;
    if b == [] {
      assert a + b == a;
    } else {
      assert (a + b)[..|a + b| - 1] == a + b[..|b| - 1];
      WithoutConcat(a, b[..|b| - 1], ids);
    }
  }

  lemma {:induction false} WithoutTwice(ps: seq<Packet>, a: set<string>, b: set<string>)
    ensures Without(Without(ps, a), b) == Without(ps, a + b)
  {
    hide IsSyntheticOf;
    if ps != [] {
      var front, p := ps[..|ps| - 1], ps[|ps| - 1];
      WithoutTwice(front, a, b);
      var kept := if exists id :: id in a && IsSyntheticOf(p.packetId, id) then [] else [p];
      WithoutConcat(Without(front, a), kept, b);
      WithoutOne(p, b);
      if id :| id in a && IsSyntheticOf(p.packetId, id) { assert id in a + b; }
      if id :| id in b && IsSyntheticOf(p.packetId, id) { assert id in a + b; }
    }
  }

  lemma WithoutOne(p: Packet, ids: set<string>)
    ensures Without([p], ids) == if exists id :: id in ids && IsSyntheticOf(p.packetId, id) then [] else [p]
    ensures Without([], ids) == []
  {
    assert [p][..0] == [];
  }

  lemma {:induction false} WithoutNone(ps: seq<Packet>)
    ensures Without(ps, {}) == ps
  {
    if ps != [] {
      WithoutNone(ps[..|ps| - 1]);
    }
  }

  lemma {:induction false} CapturedConcat(a: seq<Packet>, b: seq<Packet>)
    ensures Captured(a + b) == Captured(a) + Captured(b)
    decreases |b|
  {
    hide IsSynthetic;
    if b == [] {
      assert a + b == a;
    } else {
      assert (a + b)[..|a + b| - 1] == a + b[..|b| - 1];
      CapturedConcat(a, b[..|b| - 1]);
    }
  }

  lemma SyntheticNames(id: string, tail: string, packetId: string)
    ensures IsSynthetic("nb:" + id + ":" + tail)
    ensures IsSyntheticOf("nb:" + id + ":" + tail, id)
    ensures IsSyntheticOf(packetId, id) ==> IsSynthetic(packetId)
  {
    var head := "nb:" + id + ":";
    assert forall i :: 0 <= i < |head| ==> (head + tail)[i] == head[i];
    assert Lower(head)[..3] == "nb:";
  }

  lemma {:induction false} WithoutKeepsCaptured(ps: seq<Packet>, ids: set<string>)
    ensures Captured(Without(ps, ids)) == Captured(ps)
  {
    hide IsSynthetic, IsSyntheticOf;
    if ps != [] {
      var front, p := ps[..|ps| - 1], ps[|ps| - 1];
      WithoutKeepsCaptured(front, ids);
      if id :| id in ids && IsSyntheticOf(p.packetId, id) {
        SyntheticNames(id, "", p.packetId);
        assert Without(front, ids) + [] == Without(front, ids);
      } else {
        CapturedConcat(Without(front, ids), [p]);
        CapturedConcat(front, [p]);
        assert front + [p] == ps;
      }
    }
  }

  /** No import step touches a captured packet. */
  lemma StepKeepsCaptured(ps: seq<Packet>, id: string, h: Heard, stamp: Stamp)
    ensures Captured(StepPackets(ps, id, h, stamp)) == Captured(ps)
  {
    hide IsSynthetic, Without;
    if h.snr.Some? {
      var p := SyntheticPacket(id, h, stamp);
      SyntheticNames(id, stamp(h.time), "");
      WithoutKeepsCaptured(ps, {id});
      CapturedConcat(Without(ps, {id}), [p]);
      assert Captured([p]) == [] by { assert [p][..0] == []; }
    }
  }

  lemma {:induction false} NewestIsOfCaptured(ps: seq<Packet>, id: string)
    ensures NewestCaptured(ps, id) == NewestCaptured(Captured(ps), id)
  {
    hide IsSynthetic;
    if ps != [] {
      var front, p := ps[..|ps| - 1], ps[|ps| - 1];
      NewestIsOfCaptured(front, id);
      if !IsSynthetic(p.packetId) {
        assert (Captured(front) + [p])[..|Captured(front)|] == Captured(front);
      } else {
        assert Captured(front) + [] == Captured(front);
      }
    }
  }

  // ---------------------------------------------------------------- one row through a whole import

  function Mine(hs: seq<Heard>, prefixes: map<string, string>, id: string): seq<Heard> {
    if hs == [] then []
    else
      Mine(hs[..|hs| - 1], prefixes, id)
      + if Target(prefixes, hs[|hs| - 1]) == id then [hs[|hs| - 1]] else []
  }

  function Folded(prior: Option<Node>, mine: seq<Heard>, newest: Option<int>): Option<Node> {
    if mine == [] then prior
    else Some(Upserted(Folded(prior, mine[..|mine| - 1], newest), mine[|mine| - 1], newest))
  }

  /** Captured packets survive untouched, and each row is the fold of its own records against the newest
      packet that was captured from it before the import. */
  lemma {:induction false} ImportRow(db: Db, prefixes: map<string, string>, hs: seq<Heard>, stamp: Stamp, id: string)
    ensures var after := Steps(db, prefixes, hs, stamp);
            Captured(after.packets) == Captured(db.packets)
            && LookupNode(after, id)
               == Folded(LookupNode(db, id), Mine(hs, prefixes, id), NewestCaptured(db.packets, id))
  {
    hide StepPackets, Captured, NewestCaptured, Upserted, Target;
    if hs != [] {
      var front, h := hs[..|hs| - 1], hs[|hs| - 1];
      ImportRow(db, prefixes, front, stamp, id);
      var mid, mine := Steps(db, prefixes, front, stamp), Mine(front, prefixes, id);
      var target := Target(prefixes, h);
      StepKeepsCaptured(mid.packets, target, h, stamp);
      NewestIsOfCaptured(mid.packets, target);
      NewestIsOfCaptured(db.packets, target);
      if target == id {
        assert (mine + [h])[..|mine|] == mine;
      } else {
        assert mine + [] == mine;
      }
    }
  }

  /** A row that already existed, and is named in the file, ends with its last fresh time, but never below
      the newest packet captured from it. */
  lemma ExistingRowAnchored(db: Db, hs: seq<Heard>, stamp: Stamp, id: string)
    requires id in db.nodes
    requires var mine := Mine(hs, PrefixMap(db.ids, db.nodes), id); mine != []
    ensures var mine := Mine(hs, PrefixMap(db.ids, db.nodes), id);
            var after := Import(db, hs, stamp);
            id in after.nodes
            && after.nodes[id].lastHeard == Anchored(mine[|mine| - 1].time, NewestCaptured(db.packets, id))
            && after.nodes[id].firstSeen == db.nodes[id].firstSeen
            && after.nodes[id].name == mine[|mine| - 1].name
  {
    hide PrefixMap, Steps, Mine, NewestCaptured;
    var prefixes := PrefixMap(db.ids, db.nodes);
    var mine := Mine(hs, prefixes, id);
    ImportRow(db, prefixes, hs, stamp, id);
    FoldedExisting(db.nodes[id], mine, NewestCaptured(db.packets, id));
    var before := Folded(Some(db.nodes[id]), mine[..|mine| - 1], NewestCaptured(db.packets, id));
    FoldedExisting(db.nodes[id], mine[..|mine| - 1], NewestCaptured(db.packets, id));
  }

  lemma {:induction false} FoldedExisting(n: Node, mine: seq<Heard>, newest: Option<int>)
    ensures var f := Folded(Some(n), mine, newest); f.Some? && f.value.firstSeen == n.firstSeen
  {
    if mine != [] {
      FoldedExisting(n, mine[..|mine| - 1], newest);
    }
  }

  // ---------------------------------------------------------------- exactly one synthetic packet

  predicate IsHexChar(c: char) { '0' <= c <= '9' || 'a' <= c <= 'f' }

  predicate IsHex(s: string) { forall i :: 0 <= i < |s| ==> IsHexChar(s[i]) }

  /** Eight-character hexadecimal keys, and existing MeshCore ids in hexadecimal. */
  ghost predicate HexKeys(db: Db, hs: seq<Heard>) {
    (forall i :: 0 <= i < |hs| ==> |hs[i].pubkey| == 8 && IsHex(hs[i].pubkey))
    && forall id :: id in db.nodes && db.nodes[id].protocol == "meshcore" ==> IsHex(id)
  }

  lemma HexHead(id: string)
    requires IsHex(id)
    ensures Lower("nb:" + id + ":") == "nb:" + id + ":"
  {
    var x := "nb:" + id + ":";
    forall i | 0 <= i < |x|
      ensures LowerChar(x[i]) == x[i]
    {
      if 3 <= i < 3 + |id| { assert x[i] == id[i - 3]; }
    }
  }

  lemma ColonInside(s: string, a: string, b: string)
    requires "nb:" + a + ":" <= s && "nb:" + b + ":" <= s && |a| < |b|
    ensures b[|a|] == ':'
  {
    var x, y := "nb:" + a + ":", "nb:" + b + ":";
    assert x[3 + |a|] == ':' && y[3 + |a|] == b[|a|];
  }

  /** A packet id is synthetic for at most one hexadecimal node id. */
  lemma SyntheticOfOne(packetId: string, a: string, b: string)
    requires IsHex(a) && IsHex(b) && IsSyntheticOf(packetId, a) && IsSyntheticOf(packetId, b)
    ensures a == b
  {
    hide Lower;
    HexHead(a);
    HexHead(b);
    var s := Lower(packetId);
    if |a| < |b| {
      ColonInside(s, a, b);
      assert false;
    } else if |b| < |a| {
      ColonInside(s, b, a);
      assert false;
    } else {
      assert a == ("nb:" + a + ":")[3..3 + |a|] == s[3..3 + |a|];
      assert b == ("nb:" + b + ":")[3..3 + |b|] == s[3..3 + |b|];
    }
  }

  function SyntheticsOf(ps: seq<Packet>, id: string): seq<Packet> {
    if ps == [] then []
    else
      SyntheticsOf(ps[..|ps| - 1], id)
      + if IsSyntheticOf(ps[|ps| - 1].packetId, id) then [ps[|ps| - 1]] else []
  }

  lemma {:induction false} SyntheticsWithout(ps: seq<Packet>, id: string, other: string)
    requires IsHex(id) && IsHex(other)
    ensures SyntheticsOf(Without(ps, {other}), id) == if id == other then [] else SyntheticsOf(ps, id)
  {
    hide IsSyntheticOf, IsHex;
    if ps != [] {
      var front, p := ps[..|ps| - 1], ps[|ps| - 1];
      SyntheticsWithout(front, id, other);
      var kept := Without(front, {other});
      assert (exists e :: e in {other} && IsSyntheticOf(p.packetId, e)) <==> IsSyntheticOf(p.packetId, other) by {
        assert other in {other};
      }
      if IsSyntheticOf(p.packetId, other) {
        assert Without(ps, {other}) == kept + [] == kept;
        if IsSyntheticOf(p.packetId, id) {
          SyntheticOfOne(p.packetId, id, other);
        }
      } else {
        assert Without(ps, {other}) == kept + [p];
        assert (kept + [p])[..|kept + [p]| - 1] == kept;
      }
      assert SyntheticsOf(front, id) + [] == SyntheticsOf(front, id);
    }
  }

  lemma {:induction false} TargetsAreHex(ids: seq<string>, nodes: map<string, Node>)
    requires forall id :: id in nodes && nodes[id].protocol == "meshcore" ==> IsHex(id)
    ensures forall k :: k in PrefixMap(ids, nodes) ==> IsHex(PrefixMap(ids, nodes)[k])
  {
    hide IsHex, Lower;
    if ids != [] {
      TargetsAreHex(ids[..|ids| - 1], nodes);
    }
  }

  /** The last record of the node that carries a signal. */
  function LastSignal(mine: seq<Heard>): Option<Heard> {
    if mine == [] then None
    else if mine[|mine| - 1].snr.Some? then Some(mine[|mine| - 1])
    else LastSignal(mine[..|mine| - 1])
  }

  lemma {:induction false} StepsSynthetics(db: Db, prefixes: map<string, string>, hs: seq<Heard>, stamp: Stamp,
                                           id: string)
    requires IsHex(id)
    requires forall i :: 0 <= i < |hs| ==> IsHex(hs[i].pubkey)
    requires forall k :: k in prefixes ==> IsHex(prefixes[k])
    ensures var last := LastSignal(Mine(hs, prefixes, id));
            SyntheticsOf(Steps(db, prefixes, hs, stamp).packets, id)
            == if last.Some? then [SyntheticPacket(id, last.value, stamp)] else SyntheticsOf(db.packets, id)
  {
    hide IsSyntheticOf, IsHex, Without, Target, SyntheticPacket, SyntheticsOf, Upserted, NewestCaptured;
    if hs != [] {
      var front, h := hs[..|hs| - 1], hs[|hs| - 1];
      StepsSynthetics(db, prefixes, front, stamp, id);
      var mine, target := Mine(front, prefixes, id), Target(prefixes, h);
      TargetIsHex(prefixes, h);
      assert (mine + [h])[..|mine|] == mine && mine + [] == mine;
      var ps := Steps(db, prefixes, front, stamp).packets;
      if h.snr.Some? {
        SyntheticsWithout(ps, id, target);
        OneMoreSynthetic(Without(ps, {target}), target, h, stamp, id);
        NoneBefore(id, SyntheticPacket(target, h, stamp));
      }
    }
  }

  lemma TargetIsHex(prefixes: map<string, string>, h: Heard)
    requires IsHex(h.pubkey) && forall k :: k in prefixes ==> IsHex(prefixes[k])
    ensures IsHex(Target(prefixes, h))
  {
  }

  lemma NoneBefore(id: string, p: Packet)
    ensures [] + [p] == [p]
    ensures forall s: seq<Packet> :: s + [] == s
  {
  }

  lemma OneMoreSynthetic(ps: seq<Packet>, target: string, h: Heard, stamp: Stamp, id: string)
    requires IsHex(id) && IsHex(target)
    ensures var p := SyntheticPacket(target, h, stamp);
            SyntheticsOf(ps + [p], id) == SyntheticsOf(ps, id) + if id == target then [p] else []
  {
    hide IsSyntheticOf;
    var p := SyntheticPacket(target, h, stamp);
    assert (ps + [p])[..|ps|] == ps;
    SyntheticNames(target, stamp(h.time), "");
    if IsSyntheticOf(p.packetId, id) {
      SyntheticOfOne(p.packetId, id, target);
    }
  }

  /** Every imported node with a signal ends with exactly one synthetic packet, made of its last record;
      every other node keeps the ones it had. */
  lemma OneSyntheticEach(db: Db, hs: seq<Heard>, stamp: Stamp, id: string)
    requires HexKeys(db, hs) && IsHex(id)
    ensures var last := LastSignal(Mine(hs, PrefixMap(db.ids, db.nodes), id));
            SyntheticsOf(Import(db, hs, stamp).packets, id)
            == if last.Some? then [SyntheticPacket(id, last.value, stamp)] else SyntheticsOf(db.packets, id)
  {
    hide Steps, PrefixMap, IsHex;
    TargetsAreHex(db.ids, db.nodes);
    StepsSynthetics(db, PrefixMap(db.ids, db.nodes), hs, stamp, id);
  }

  // ---------------------------------------------------------------- importing the same file again

  function SignalTargets(hs: seq<Heard>, prefixes: map<string, string>): set<string> {
    if hs == [] then {}
    else
      SignalTargets(hs[..|hs| - 1], prefixes)
      + if hs[|hs| - 1].snr.Some? then {Target(prefixes, hs[|hs| - 1])} else {}
  }

  /** The synthetic packets an import adds, as they stand at its end. */
  function Added(hs: seq<Heard>, prefixes: map<string, string>, stamp: Stamp): seq<Packet> {
    if hs == [] then []
    else StepPackets(Added(hs[..|hs| - 1], prefixes, stamp), Target(prefixes, hs[|hs| - 1]), hs[|hs| - 1], stamp)
  }

  /** The packet table after an import: what it held, less the old synthetic packets of the nodes heard,
      followed by the new ones. */
  lemma {:induction false} PacketsAfter(db: Db, prefixes: map<string, string>, hs: seq<Heard>, stamp: Stamp)
    ensures Steps(db, prefixes, hs, stamp).packets
         == Without(db.packets, SignalTargets(hs, prefixes)) + Added(hs, prefixes, stamp)
  {
    hide Target, Without, SyntheticPacket;
    if hs == [] {
      WithoutNone(db.packets);
      assert db.packets + [] == db.packets;
    } else {
      var front, h := hs[..|hs| - 1], hs[|hs| - 1];
      PacketsAfter(db, prefixes, front, stamp);
      var ids, t := SignalTargets(front, prefixes), Target(prefixes, h);
      if h.snr.Some? {
        WithoutConcat(Without(db.packets, ids), Added(front, prefixes, stamp), {t});
        WithoutTwice(db.packets, ids, {t});
      } else {
        assert ids + {} == ids;
      }
    }
  }

  /** All that an import adds would be cleared by the next import of the same file. */
  lemma {:induction false} AddedIsCleared(hs: seq<Heard>, prefixes: map<string, string>, stamp: Stamp, ids: set<string>)
    requires SignalTargets(hs, prefixes) <= ids
    ensures Without(Added(hs, prefixes, stamp), ids) == []
  {
    hide Target, Without;
    if hs == [] {
      WithoutOne(Packet("", "", None, 0), ids);
    } else {
      var front, h := hs[..|hs| - 1], hs[|hs| - 1];
      AddedIsCleared(front, prefixes, stamp, ids);
      if h.snr.Some? {
        var t := Target(prefixes, h);
        var p := SyntheticPacket(t, h, stamp);
        WithoutConcat(Without(Added(front, prefixes, stamp), {t}), [p], ids);
        WithoutTwice(Added(front, prefixes, stamp), {t}, ids);
        assert {t} + ids == ids;
        SyntheticNames(t, stamp(h.time), "");
        WithoutOne(p, ids);
      }
    }
  }

  lemma PacketsTwice(db: Db, prefixes: map<string, string>, hs: seq<Heard>, stamp: Stamp)
    ensures var once := Steps(db, prefixes, hs, stamp);
            Steps(once, prefixes, hs, stamp).packets == once.packets
  {
    hide Steps, Without, Added, SignalTargets;
    var once := Steps(db, prefixes, hs, stamp);
    var ids, added := SignalTargets(hs, prefixes), Added(hs, prefixes, stamp);
    PacketsAfter(db, prefixes, hs, stamp);
    PacketsAfter(once, prefixes, hs, stamp);
    WithoutConcat(Without(db.packets, ids), added, ids);
    WithoutTwice(db.packets, ids, ids);
    assert ids + ids == ids;
    AddedIsCleared(hs, prefixes, stamp, ids);
    assert Without(db.packets, ids) + [] == Without(db.packets, ids);
  }

  /** A node that is new, listed once, and from which a packet newer than its listed time was captured:
      the first import cannot see that packet, a second one does. */
  predicate Overtaken(prior: Option<Node>, mine: seq<Heard>, newest: Option<int>) {
    prior.None? && |mine| == 1 && newest.Some? && newest.value > mine[0].time
  }

  lemma {:induction false} FoldedAgain(prior: Option<Node>, mine: seq<Heard>, again: seq<Heard>, newest: Option<int>)
    requires again != [] && again <= mine
    ensures var f, g := Folded(prior, mine, newest), Folded(Folded(prior, mine, newest), again, newest);
            f.Some? && g.Some?
            && g.value == f.value.(role := again[|again| - 1].role, name := again[|again| - 1].name,
                                   lat := g.value.lat, lon := g.value.lon,
                                   lastHeard := Anchored(again[|again| - 1].time, newest))
    decreases |again|
  {
    if |again| > 1 {
      FoldedAgain(prior, mine, again[..|again| - 1], newest);
    } else {
      assert again[..0] == [];
    }
  }

  function LastLat(start: Option<int>, mine: seq<Heard>): Option<int> {
    if mine == [] then start else OrElse(mine[|mine| - 1].lat, LastLat(start, mine[..|mine| - 1]))
  }

  function LastLon(start: Option<int>, mine: seq<Heard>): Option<int> {
    if mine == [] then start else OrElse(mine[|mine| - 1].lon, LastLon(start, mine[..|mine| - 1]))
  }

  lemma {:induction false} FoldedPosition(prior: Option<Node>, mine: seq<Heard>, newest: Option<int>)
    requires mine != []
    ensures var f := Folded(prior, mine, newest);
            f.Some?
            && f.value.lat == LastLat(if prior.Some? then prior.value.lat else None, mine)
            && f.value.lon == LastLon(if prior.Some? then prior.value.lon else None, mine)
            && f.value.role == mine[|mine| - 1].role && f.value.name == mine[|mine| - 1].name
            && f.value.lastHeard == (if prior.None? && |mine| == 1 then mine[0].time
                                     else Anchored(mine[|mine| - 1].time, newest))
  {
    if |mine| > 1 {
      FoldedPosition(prior, mine[..|mine| - 1], newest);
    } else {
      assert mine[..0] == [];
    }
  }

  lemma {:induction false} LastAgain(start: Option<int>, mine: seq<Heard>)
    ensures LastLat(LastLat(start, mine), mine) == LastLat(start, mine)
    ensures LastLon(LastLon(start, mine), mine) == LastLon(start, mine)
  {
    LastStart(start, mine);
    LastStart(LastLat(start, mine), mine);
    LastStart(LastLon(start, mine), mine);
  }

  /** The start value only matters when no record carries a position. */
  lemma {:induction false} LastStart(start: Option<int>, mine: seq<Heard>)
    ensures LastLat(start, mine) == OrElse(LastLat(None, mine), start)
    ensures LastLon(start, mine) == OrElse(LastLon(None, mine), start)
  {
    if mine != [] {
      LastStart(start, mine[..|mine| - 1]);
    }
  }

  lemma RowTwiceIff(prior: Option<Node>, mine: seq<Heard>, newest: Option<int>)
    ensures Folded(Folded(prior, mine, newest), mine, newest) == Folded(prior, mine, newest)
       <==> !Overtaken(prior, mine, newest)
  {
    if mine != [] {
      var f := Folded(prior, mine, newest);
      FoldedAgain(prior, mine, mine, newest);
      FoldedPosition(prior, mine, newest);
      FoldedPosition(f, mine, newest);
      LastAgain(if prior.Some? then prior.value.lat else None, mine);
      LastAgain(if prior.Some? then prior.value.lon else None, mine);
    }
  }

  // The prefix map of the second import sends every record where the first one sent it.

  lemma {:induction false} StepsGrowIds(db: Db, prefixes: map<string, string>, hs: seq<Heard>, stamp: Stamp)
    requires Valid(db)
    ensures var after := Steps(db, prefixes, hs, stamp);
            Valid(after) && db.ids <= after.ids
            && (forall id :: id in db.nodes ==>
                  id in after.nodes && after.nodes[id].protocol == db.nodes[id].protocol)
            && (forall id :: id in after.nodes && id !in db.nodes ==>
                  after.nodes[id].protocol == "meshcore"
                  && exists i :: 0 <= i < |hs| && Target(prefixes, hs[i]) == id)
  {
    hide StepPackets, NewestCaptured, Target, Step, Valid;
    if hs != [] {
      var n := |hs| - 1;
      StepsGrowIds(db, prefixes, hs[..n], stamp);
      var mid := Steps(db, prefixes, hs[..n], stamp);
      StepGrowsIds(mid, Target(prefixes, hs[n]), hs[n], stamp);
      forall id | id in Steps(db, prefixes, hs, stamp).nodes && id !in db.nodes
        ensures exists i :: 0 <= i < |hs| && Target(prefixes, hs[i]) == id
      {
        if id in mid.nodes {
          var i :| 0 <= i < n && Target(prefixes, hs[..n][i]) == id;
          assert Target(prefixes, hs[i]) == id;
        }
      }
    }
  }

  lemma StepGrowsIds(db: Db, id: string, h: Heard, stamp: Stamp)
    requires Valid(db)
    ensures var after := Step(db, id, h, stamp);
            Valid(after) && db.ids <= after.ids
            && (forall j :: j in after.nodes <==> j == id || j in db.nodes)
            && (forall j :: j in db.nodes ==> after.nodes[j].protocol == db.nodes[j].protocol)
            && (id !in db.nodes ==> after.nodes[id].protocol == "meshcore")
  {
    hide StepPackets, NewestCaptured;
  }

  lemma {:induction false} PrefixMapValues(ids: seq<string>, nodes: map<string, Node>, k: string)
    requires k in PrefixMap(ids, nodes)
    ensures PrefixMap(ids, nodes)[k] in ids
  {
    hide Lower;
    var n := |ids| - 1;
    var before := PrefixMap(ids[..n], nodes);
    if k in before && PrefixMap(ids, nodes)[k] == before[k] {
      PrefixMapValues(ids[..n], nodes, k);
    }
  }

  /** Only the protocols of the listed nodes matter. */
  lemma {:induction false} PrefixMapSame(ids: seq<string>, a: map<string, Node>, b: map<string, Node>)
    requires forall id :: id in ids ==> id in a && id in b && a[id].protocol == b[id].protocol
    ensures PrefixMap(ids, a) == PrefixMap(ids, b)
  {
    hide Lower;
    if ids != [] {
      var n := |ids| - 1;
      assert ids[n] in ids;
      forall id | id in ids[..n] ensures id in ids { }
      PrefixMapSame(ids[..n], a, b);
    }
  }

  /** Ids that are their own prefix are entered under themselves and disturb no other entry. */
  lemma {:induction false} PrefixMapExtended(ids: seq<string>, extra: seq<string>, nodes: map<string, Node>)
    requires forall i :: 0 <= i < |extra| ==>
               extra[i] in nodes && nodes[extra[i]].protocol == "meshcore" && Lower(Prefix(extra[i], 8)) == extra[i]
    ensures var m, n := PrefixMap(ids, nodes), PrefixMap(ids + extra, nodes);
            forall k :: if k in extra then k in n && n[k] == k
                        else (k in n <==> k in m) && (k in m ==> n[k] == m[k])
    decreases |extra|
  {
    hide Lower;
    if extra == [] {
      assert ids + extra == ids;
    } else {
      var front := extra[..|extra| - 1];
      PrefixMapExtended(ids, front, nodes);
      assert (ids + extra)[..|ids + extra| - 1] == ids + front;
      assert extra == front + [extra[|extra| - 1]];
    }
  }

  lemma HexIsLower(s: string)
    requires IsHex(s) && |s| == 8
    ensures Lower(Prefix(s, 8)) == s
  {
  }

  /** A row the import creates is keyed by the eight-character key it was listed under. */
  lemma NewIdIsKey(db: Db, hs: seq<Heard>, stamp: Stamp, e: string)
    requires Valid(db) && HexKeys(db, hs)
    requires e in Import(db, hs, stamp).nodes && e !in db.nodes
    ensures Import(db, hs, stamp).nodes[e].protocol == "meshcore" && Lower(Prefix(e, 8)) == e
    ensures forall h: Heard :: h.pubkey == e ==> Target(PrefixMap(db.ids, db.nodes), h) == e
  {
    hide Lower, Steps, PrefixMap, IsHex;
    var pm := PrefixMap(db.ids, db.nodes);
    StepsGrowIds(db, pm, hs, stamp);
    var i :| 0 <= i < |hs| && Target(pm, hs[i]) == e;
    if hs[i].pubkey in pm {
      PrefixMapValues(db.ids, db.nodes, hs[i].pubkey);
    }
    HexIsLower(hs[i].pubkey);
  }

  lemma NewId(db: Db, once: Db, j: nat)
    requires Valid(db) && Valid(once) && db.ids <= once.ids && |db.ids| + j < |once.ids|
    ensures var e := once.ids[|db.ids|..][j]; e in once.nodes && e !in db.nodes
  {
    assert once.ids[|db.ids| + j] == once.ids[|db.ids|..][j];
  }

  /** The ids appended by an import are keys, entered in the node table. */
  lemma AppendedIds(db: Db, hs: seq<Heard>, stamp: Stamp, e: string)
    requires Valid(db) && HexKeys(db, hs)
    ensures var once := Import(db, hs, stamp);
            db.ids <= once.ids
            && (e in once.ids[|db.ids|..] ==>
                  e in once.nodes && e !in db.nodes && once.nodes[e].protocol == "meshcore"
                  && Lower(Prefix(e, 8)) == e)
  {
    hide Lower, Steps, PrefixMap, HexKeys, Valid;
    var once := Import(db, hs, stamp);
    StepsGrowIds(db, PrefixMap(db.ids, db.nodes), hs, stamp);
    var extra := once.ids[|db.ids|..];
    if j :| 0 <= j < |extra| && extra[j] == e {
      NewId(db, once, j);
      NewIdIsKey(db, hs, stamp, e);
    }
  }

  lemma ListedNodesStay(db: Db, hs: seq<Heard>, stamp: Stamp, id: string)
    requires Valid(db) && id in db.ids
    ensures var once := Import(db, hs, stamp);
            id in db.nodes && id in once.nodes && once.nodes[id].protocol == db.nodes[id].protocol
  {
    hide Steps, PrefixMap;
    StepsGrowIds(db, PrefixMap(db.ids, db.nodes), hs, stamp);
  }

  /** An import adds to the prefix map exactly its new ids, each under itself. */
  lemma PrefixMapAfter(db: Db, hs: seq<Heard>, stamp: Stamp, k: string)
    requires Valid(db) && HexKeys(db, hs)
    ensures var once := Import(db, hs, stamp);
            var m, n := PrefixMap(db.ids, db.nodes), PrefixMap(once.ids, once.nodes);
            db.ids <= once.ids
            && if k in once.ids[|db.ids|..] then k in n && n[k] == k
               else (k in n <==> k in m) && (k in m ==> n[k] == m[k])
  {
    hide Lower, Prefix, Import, PrefixMap, HexKeys, Valid;
    var once := Import(db, hs, stamp);
    AppendedIds(db, hs, stamp, k);
    var extra := once.ids[|db.ids|..];
    forall i | 0 <= i < |extra|
      ensures extra[i] in once.nodes && once.nodes[extra[i]].protocol == "meshcore"
      ensures Lower(Prefix(extra[i], 8)) == extra[i]
    {
      AppendedIds(db, hs, stamp, extra[i]);
    }
    forall id | id in db.ids
      ensures id in db.nodes && id in once.nodes && once.nodes[id].protocol == db.nodes[id].protocol
    {
      ListedNodesStay(db, hs, stamp, id);
    }
    PrefixMapSame(db.ids, db.nodes, once.nodes);
    PrefixMapExtended(db.ids, extra, once.nodes);
    assert once.ids == db.ids + extra;
  }

  /** The second import sends every record to the node the first one sent it to. */
  lemma TargetsAgree(db: Db, hs: seq<Heard>, stamp: Stamp, i: nat)
    requires Valid(db) && HexKeys(db, hs) && i < |hs|
    ensures var once := Import(db, hs, stamp);
            Target(PrefixMap(once.ids, once.nodes), hs[i]) == Target(PrefixMap(db.ids, db.nodes), hs[i])
  {
    hide Lower, Import, PrefixMap, HexKeys, Valid;
    PrefixMapAfter(db, hs, stamp, hs[i].pubkey);
    AppendedIds(db, hs, stamp, hs[i].pubkey);
    if hs[i].pubkey in Import(db, hs, stamp).ids[|db.ids|..] {
      NewIdIsKey(db, hs, stamp, hs[i].pubkey);
    }
  }

  lemma {:induction false} SameTargets(db: Db, a: map<string, string>, b: map<string, string>, hs: seq<Heard>,
                                       stamp: Stamp)
    requires forall i :: 0 <= i < |hs| ==> Target(a, hs[i]) == Target(b, hs[i])
    ensures Steps(db, a, hs, stamp) == Steps(db, b, hs, stamp)
  {
    hide Target, Step;
    if hs != [] {
      SameTargets(db, a, b, hs[..|hs| - 1], stamp);
    }
  }

  lemma {:induction false} MineIsEmptyIff(hs: seq<Heard>, prefixes: map<string, string>, id: string)
    ensures Mine(hs, prefixes, id) != [] <==> exists i :: 0 <= i < |hs| && Target(prefixes, hs[i]) == id
  {
    hide Target;
    if hs != [] {
      var n := |hs| - 1;
      MineIsEmptyIff(hs[..n], prefixes, id);
      assert forall i :: 0 <= i < n ==> hs[..n][i] == hs[i];
    }
  }

  lemma {:induction false} KnownTargetsKeepIds(db: Db, prefixes: map<string, string>, hs: seq<Heard>, stamp: Stamp)
    requires forall i :: 0 <= i < |hs| ==> Target(prefixes, hs[i]) in db.nodes
    ensures var after := Steps(db, prefixes, hs, stamp);
            after.ids == db.ids && after.nodes.Keys == db.nodes.Keys
  {
    hide Target, StepPackets, NewestCaptured, Upserted;
    if hs != [] {
      KnownTargetsKeepIds(db, prefixes, hs[..|hs| - 1], stamp);
    }
  }

  /** Importing the same file again at the same clock gives the same tables exactly when no node that is
      new and listed once was captured more recently than the file says. */
  lemma ImportTwiceIff(db: Db, hs: seq<Heard>, stamp: Stamp)
    requires Valid(db) && HexKeys(db, hs)
    ensures Import(Import(db, hs, stamp), hs, stamp) == Import(db, hs, stamp)
       <==> forall id :: !Overtaken(LookupNode(db, id), Mine(hs, PrefixMap(db.ids, db.nodes), id),
                                    NewestCaptured(db.packets, id))
  {
    hide Steps, PrefixMap, Target, Mine, NewestCaptured, Overtaken, Folded, HexKeys, Valid;
    var pm := PrefixMap(db.ids, db.nodes);
    var once := Import(db, hs, stamp);
    var twice := Steps(once, pm, hs, stamp);
    assert Import(once, hs, stamp) == twice by {
      forall i | 0 <= i < |hs|
        ensures Target(PrefixMap(once.ids, once.nodes), hs[i]) == Target(pm, hs[i])
      {
        TargetsAgree(db, hs, stamp, i);
      }
      SameTargets(once, PrefixMap(once.ids, once.nodes), pm, hs, stamp);
    }
    PacketsTwice(db, pm, hs, stamp);
    forall i | 0 <= i < |hs|
      ensures Target(pm, hs[i]) in once.nodes
    {
      var id := Target(pm, hs[i]);
      MineIsEmptyIff(hs, pm, id);
      ImportRow(db, pm, hs, stamp, id);
      FoldedSome(LookupNode(db, id), Mine(hs, pm, id), NewestCaptured(db.packets, id));
    }
    KnownTargetsKeepIds(once, pm, hs, stamp);
    forall id: string
      ensures LookupNode(twice, id) == LookupNode(once, id)
         <==> !Overtaken(LookupNode(db, id), Mine(hs, pm, id), NewestCaptured(db.packets, id))
    {
      ImportRow(db, pm, hs, stamp, id);
      ImportRow(once, pm, hs, stamp, id);
      NewestIsOfCaptured(db.packets, id);
      NewestIsOfCaptured(once.packets, id);
      RowTwiceIff(LookupNode(db, id), Mine(hs, pm, id), NewestCaptured(db.packets, id));
    }
    SameTable(once, twice);
  }

  lemma FoldedSome(prior: Option<Node>, mine: seq<Heard>, newest: Option<int>)
    requires mine != []
    ensures Folded(prior, mine, newest).Some?
  {
  }

  lemma SameTable(a: Db, b: Db)
    requires a.ids == b.ids && a.packets == b.packets && a.nodes.Keys == b.nodes.Keys
    ensures a == b <==> forall id :: LookupNode(b, id) == LookupNode(a, id)
  {
    if forall id :: LookupNode(b, id) == LookupNode(a, id) {
      forall id | id in a.nodes
        ensures a.nodes[id] == b.nodes[id]
      {
        assert LookupNode(b, id) == LookupNode(a, id);
      }
    }
  }

  const MOVED_ID := "aaaaaaaa"

  function CapturedAt100(): Packet { Packet("p", MOVED_ID, None, 100) }

  function HeardAt50(): Heard { Heard(MOVED_ID, "n", None, None, None, None, 50) }

  lemma MovedIsOvertaken()
    ensures Overtaken(None, Mine([HeardAt50()], map[], MOVED_ID), NewestCaptured([CapturedAt100()], MOVED_ID))
  {
    var p, h := CapturedAt100(), HeardAt50();
    assert [p][..0] == [] && [h][..0] == [];
    assert Mine([h], map[], MOVED_ID) == [] + [h] == [h];
    assert |Lower("p")| == 1 && !IsSynthetic("p");
    assert NewestCaptured([p], MOVED_ID) == Some(100);
  }

  /** Such a node moves on the second import: heard at 50 by the file, captured at 100. */
  lemma SecondImportCanMove(stamp: Stamp)
    ensures var db := Db([], map[], [CapturedAt100()]);
            Import(Import(db, [HeardAt50()], stamp), [HeardAt50()], stamp) != Import(db, [HeardAt50()], stamp)
  {
    var db, hs := Db([], map[], [CapturedAt100()]), [HeardAt50()];
    hide Import, Overtaken, Mine, NewestCaptured;
    MovedIsOvertaken();
    assert PrefixMap(db.ids, db.nodes) == map[] && LookupNode(db, MOVED_ID) == None;
    assert Overtaken(LookupNode(db, MOVED_ID), Mine(hs, PrefixMap(db.ids, db.nodes), MOVED_ID),
                     NewestCaptured(db.packets, MOVED_ID));
    ImportTwiceIff(db, hs, stamp);
  }
}
