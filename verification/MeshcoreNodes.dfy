/** Importing the contacts and neighbours of a MeshCore archive into the node table. */
module MeshcoreNodes {
  import opened Common
  import opened MeshcoreIdentity

  /** A role column: a role name, or the archive's type number written as text. */
  datatype RoleText = Named(name: string) | Number(n: int)

  datatype ContactRow = ContactRow(
    src: Source, kind: Option<int>, lat: Option<int>, lon: Option<int>,
    lastAdvert: Option<int>, lastmod: Option<int>, updatedAt: Option<int>)

  datatype NeighbourRow = NeighbourRow(
    src: Source, kind: Option<int>, lat: Option<int>, lon: Option<int>,
    lastAdvert: Option<int>, updatedAt: Option<int>)

  datatype NodeRow = NodeRow(
    longName: Option<string>, protocol: string, role: Option<RoleText>, lat: Option<int>, lon: Option<int>,
    lastHeard: Option<int>, firstSeen: Option<int>, packetCount: int)

  type Nodes = map<string, NodeRow>

  /** The bound parameters of one upsert that gets past the guard. */
  datatype Record = Record(id: string, name: string, role: Option<RoleText>,
                           lat: Option<int>, lon: Option<int>, heard: int)

  /** `_iso_from_unix`: the years 1 to 9999 convert. */
  function IsoFromUnix(t: Option<int>): Option<int> {
    if t.Some? && -62135596800 <= t.value <= 253402300799 then t else None
  }

  /** The first of two integers that is present and not 0, as truthiness has it. */
  function OrInt(a: Option<int>, b: Option<int>): Option<int> {
    if a.Some? && a.value != 0 then a else b
  }

  function ContactRole(kind: Option<int>): Option<RoleText> {
    if kind.None? then None
    else match kind.value
      case 1 => Some(Named("CLIENT"))
      case 2 => Some(Named("ROUTER"))
      case 3 => Some(Named("CLIENT_MUTE"))
      case 4 => Some(Named("REPEATER"))
      case n => Some(Number(n))
  }

  function NeighbourRole(kind: Option<int>): Option<RoleText> {
    match kind
    case Some(0) => None
    case Some(1) => Some(Named("CLIENT"))
    case Some(2) => Some(Named("REPEATER"))
    case Some(3) => Some(Named("ROOMSERVER"))
    case Some(4) => Some(Named("SENSOR"))
    case _ => Some(Named("REPEATER"))
  }

  function ContactRecord(row: ContactRow): Option<Record> {
    var pk, name := KeyOf(row.src), NameOf(row.src);
    var heard := IsoFromUnix(OrInt(row.lastAdvert, OrInt(row.lastmod, row.updatedAt)));
    if pk == "" || name == "" || heard.None? then None
    else Some(Record(Prefix(pk, 12), name, ContactRole(row.kind), row.lat, row.lon, heard.value))
  }

  function NeighbourRecord(row: NeighbourRow, prefixes: map<string, string>): Option<Record> {
    var pk, name := KeyOf(row.src), NameOf(row.src);
    var heard := IsoFromUnix(OrInt(row.lastAdvert, row.updatedAt));
    if pk == "" || name == "" || heard.None? then None
    else Some(Record(NeighbourId(prefixes, pk), name, NeighbourRole(row.kind), row.lat, row.lon, heard.value))
  }

  function Listed(r: Option<Record>): seq<Record> { if r.Some? then [r.value] else [] }

  function ContactRecords(rows: seq<ContactRow>): seq<Record> {
    if rows == [] then []
    else ContactRecords(rows[..|rows| - 1]) + Listed(ContactRecord(rows[|rows| - 1]))
  }

  function NeighbourRecords(rows: seq<NeighbourRow>, prefixes: map<string, string>): seq<Record> {
    if rows == [] then []
    else NeighbourRecords(rows[..|rows| - 1], prefixes) + Listed(NeighbourRecord(rows[|rows| - 1], prefixes))
  }

  function NewRow(u: Record): NodeRow {
    NodeRow(Some(u.name), "meshcore", u.role, u.lat, u.lon, Some(u.heard), Some(u.heard), 0)
  }

  /** The incoming time is later than the stored one; a comparison with NULL is not true. */
  predicate Fresher(u: Record, r: NodeRow) { r.lastHeard.Some? && u.heard > r.lastHeard.value }

  function Refreshed(r: NodeRow, u: Record): NodeRow {
    if Fresher(u, r)
    then r.(role := u.role, longName := Some(u.name), lat := u.lat, lon := u.lon, lastHeard := Some(u.heard))
    else r.(role := u.role)
  }

  function Upsert(nodes: Nodes, u: Record): Nodes {
    nodes[u.id := if u.id in nodes then Refreshed(nodes[u.id], u) else NewRow(u)]
  }

  function UpsertAll(nodes: Nodes, us: seq<Record>): Nodes {
    if us == [] then nodes else Upsert(UpsertAll(nodes, us[..|us| - 1]), us[|us| - 1])
  }

  class NodeImporter {
    var nodes: Nodes
    var upserted: nat
    var skipped: nat

    constructor (nodes: Nodes)
      ensures this.nodes == nodes && upserted == skipped == 0
    {
      this.nodes, upserted, skipped := nodes, 0, 0;
    }

    method UpsertRow(r: Option<Record>)
      modifies this
      ensures nodes == UpsertAll(old(nodes), Listed(r))
      ensures upserted == old(upserted) + |Listed(r)| && skipped == old(skipped) + 1 - |Listed(r)|
    {
      if r.None? {
        skipped := skipped + 1;
        return;
      }
      var u := r.value;
      if u.id in nodes {
        nodes := nodes[u.id := Refreshed(nodes[u.id], u)];
      } else {
        nodes := nodes[u.id := NewRow(u)];
      }
      upserted := upserted + 1;
      assert [u][..0] == [];
    }

    /** `_import_nodes` */
    method ImportNodes(contacts: seq<ContactRow>, neighbours: seq<NeighbourRow>, prefixes: map<string, string>)
      modifies this
      ensures nodes == UpsertAll(old(nodes), ContactRecords(contacts) + NeighbourRecords(neighbours, prefixes))
      ensures upserted == old(upserted) + |ContactRecords(contacts)| + |NeighbourRecords(neighbours, prefixes)|
      ensures upserted + skipped == old(upserted) + old(skipped) + |contacts| + |neighbours|
    {
      hide ContactRecord, NeighbourRecord, UpsertAll;
      UpsertAllNothing(nodes);
      assert contacts[..|contacts|] == contacts && neighbours[..|neighbours|] == neighbours;
      var i := 0;
      while i < |contacts|
        invariant 0 <= i <= |contacts|
        invariant nodes == UpsertAll(old(nodes), ContactRecords(contacts[..i]))
        invariant upserted == old(upserted) + |ContactRecords(contacts[..i])|
        invariant upserted + skipped == old(upserted) + old(skipped) + i
      {
        var r := ContactRecord(contacts[i]);
        UpsertAllConcat(old(nodes), ContactRecords(contacts[..i]), Listed(r));
        UpsertRow(r);
        assert contacts[..i + 1][..i] == contacts[..i];
        i := i + 1;
      }
      ghost var before := nodes;
      UpsertAllNothing(nodes);
      i := 0;
      while i < |neighbours|
        invariant 0 <= i <= |neighbours|
        invariant nodes == UpsertAll(before, NeighbourRecords(neighbours[..i], prefixes))
        invariant upserted == old(upserted) + |ContactRecords(contacts)|
                              + |NeighbourRecords(neighbours[..i], prefixes)|
        invariant upserted + skipped == old(upserted) + old(skipped) + |contacts| + i
      {
        var r := NeighbourRecord(neighbours[i], prefixes);
        UpsertAllConcat(before, NeighbourRecords(neighbours[..i], prefixes), Listed(r));
        UpsertRow(r);
        assert neighbours[..i + 1][..i] == neighbours[..i];
        i := i + 1;
      }
      UpsertAllConcat(old(nodes), ContactRecords(contacts), NeighbourRecords(neighbours, prefixes));
    }
  }

  lemma UpsertAllNothing(nodes: Nodes)
    ensures UpsertAll(nodes, []) == nodes
  {
  }

  lemma {:induction false} UpsertAllConcat(nodes: Nodes, a: seq<Record>, b: seq<Record>)
    ensures UpsertAll(nodes, a + b) == UpsertAll(UpsertAll(nodes, a), b)
    decreases |b|
  {
    hide Upsert;
    if b == [] {
      assert a + b == a;
    } else {
      assert (a + b)[..|a + b| - 1] == a + b[..|b| - 1];
      UpsertAllConcat(nodes, a, b[..|b| - 1]);
    }
  }

  // ---------------------------------------------------------------- the freshest record wins

  function Mine(us: seq<Record>, id: string): (r: seq<Record>)
    ensures forall i :: 0 <= i < |r| ==> r[i].id == id
  {
    if us == [] then []
    else Mine(us[..|us| - 1], id) + if us[|us| - 1].id == id then [us[|us| - 1]] else []
  }

  /** The first of the records with the latest time. */
  function Winner(us: seq<Record>): Record
    requires us != []
  {
    if |us| == 1 then us[0]
    else
      var w, u := Winner(us[..|us| - 1]), us[|us| - 1];
      if u.heard > w.heard then u else w
  }

  ghost predicate IsFirstLatest(us: seq<Record>, i: nat) {
    i < |us|
    && (forall j :: 0 <= j < |us| ==> us[j].heard <= us[i].heard)
    && (forall j :: 0 <= j < i ==> us[j].heard < us[i].heard)
  }

  lemma {:induction false} WinnerIsFirstLatest(us: seq<Record>) returns (i: nat)
    requires us != []
    ensures IsFirstLatest(us, i) && us[i] == Winner(us)
  {
    i := 0;
    if |us| > 1 {
      var n := |us| - 1;
      i := WinnerIsFirstLatest(us[..n]);
      if us[n].heard > us[i].heard {
        i := n;
      }
    }
  }

  /** What the records of one id leave in its row. */
  function Outcome(prior: Option<NodeRow>, us: seq<Record>): NodeRow
    requires us != []
  {
    var w, last := Winner(us), us[|us| - 1];
    if prior.None? then NewRow(w).(role := last.role, firstSeen := Some(us[0].heard))
    else Refreshed(prior.value, w).(role := last.role)
  }

  function Lookup(nodes: Nodes, id: string): Option<NodeRow> {
    if id in nodes then Some(nodes[id]) else None
  }

  /** After any list of records each row is the prior row refreshed by the first of its latest records:
      name and position come from it when it is later than the prior time, the role from the last one. */
  lemma {:induction false} ImportOutcome(nodes: Nodes, us: seq<Record>, id: string)
    ensures Lookup(UpsertAll(nodes, us), id)
         == if Mine(us, id) == [] then Lookup(nodes, id) else Some(Outcome(Lookup(nodes, id), Mine(us, id)))
  {
    hide Outcome, Refreshed, NewRow;
    if us != [] {
      var front, u := us[..|us| - 1], us[|us| - 1];
      ImportOutcome(nodes, front, id);
      var mine := Mine(front, id);
      if u.id == id {
        OutcomeOne(Lookup(nodes, id), u);
        if mine == [] {
          assert mine + [u] == [u];
        } else {
          OutcomeMore(Lookup(nodes, id), mine, u);
        }
      } else {
        assert mine + [] == mine;
      }
    }
  }

  lemma OutcomeOne(prior: Option<NodeRow>, u: Record)
    ensures Outcome(prior, [u]) == if prior.None? then NewRow(u) else Refreshed(prior.value, u)
  {
  }

  lemma OutcomeMore(prior: Option<NodeRow>, us: seq<Record>, u: Record)
    requires us != []
    ensures Outcome(prior, us + [u]) == Refreshed(Outcome(prior, us), u)
  {
    assert (us + [u])[..|us|] == us;
    assert Winner(us + [u]) == if u.heard > Winner(us).heard then u else Winner(us);
  }

  /** The same in full: name and position are those of the first of the latest records when it is later than
      the prior row, which otherwise keeps its own; the role is the last record's; first_seen and the packet
      count are only set on a new row. */
  lemma RowAfterImport(nodes: Nodes, us: seq<Record>, id: string) returns (i: nat)
    requires Mine(us, id) != []
    ensures IsFirstLatest(Mine(us, id), i) && id in UpsertAll(nodes, us)
    ensures var mine, row, prior := Mine(us, id), UpsertAll(nodes, us)[id], Lookup(nodes, id);
            var w := mine[i];
            row.role == mine[|mine| - 1].role
            && if prior.None? then
                 row == NodeRow(Some(w.name), "meshcore", row.role, w.lat, w.lon, Some(w.heard),
                                Some(mine[0].heard), 0)
               else if prior.value.lastHeard.Some? && prior.value.lastHeard.value < w.heard then
                 row == NodeRow(Some(w.name), prior.value.protocol, row.role, w.lat, w.lon, Some(w.heard),
                                prior.value.firstSeen, prior.value.packetCount)
               else row == prior.value.(role := row.role)
  {
    ImportOutcome(nodes, us, id);
    i := WinnerIsFirstLatest(Mine(us, id));
  }

  /** `heard` is the maximum of the prior row's time and the times of `mine`. */
  ghost predicate IsMaximum(heard: Option<int>, prior: Option<NodeRow>, mine: seq<Record>) {
    heard.Some?
    && (forall i :: 0 <= i < |mine| ==> mine[i].heard <= heard.value)
    && (prior.Some? && prior.value.lastHeard.Some? ==> prior.value.lastHeard.value <= heard.value)
    && ((prior.Some? && prior.value.lastHeard == heard)
        || exists i :: 0 <= i < |mine| && mine[i].heard == heard.value)
  }

  /** The time ends at the maximum of the prior time and all imported ones exactly when the prior time,
      if there is a row, is not NULL. */
  lemma HeardIsMaximumIff(nodes: Nodes, us: seq<Record>, id: string)
    requires Mine(us, id) != []
    ensures id in UpsertAll(nodes, us)
    ensures IsMaximum(UpsertAll(nodes, us)[id].lastHeard, Lookup(nodes, id), Mine(us, id))
       <==> (id in nodes ==> nodes[id].lastHeard.Some?)
  {
    var mine := Mine(us, id);
    ImportOutcome(nodes, us, id);
    var i := WinnerIsFirstLatest(mine);
    assert mine[i].heard == Winner(mine).heard;
  }

  /** A row without a stored time stays without one, whatever is imported. */
  lemma NullTimeNeverAdvances(nodes: Nodes, us: seq<Record>, id: string)
    requires id in nodes && nodes[id].lastHeard.None?
    ensures id in UpsertAll(nodes, us) && UpsertAll(nodes, us)[id].lastHeard == None
  {
    ImportOutcome(nodes, us, id);
  }

  /** Importing the same archive again changes nothing. */
  lemma ImportIsIdempotent(nodes: Nodes, us: seq<Record>)
    ensures UpsertAll(UpsertAll(nodes, us), us) == UpsertAll(nodes, us)
  {
    var once, twice := UpsertAll(nodes, us), UpsertAll(UpsertAll(nodes, us), us);
    forall id: string
      ensures Lookup(twice, id) == Lookup(once, id)
    {
      ImportOutcome(nodes, us, id);
      ImportOutcome(once, us, id);
    }
    SameLookups(once, twice);
  }

  lemma SameLookups(a: Nodes, b: Nodes)
    requires forall id :: Lookup(a, id) == Lookup(b, id)
    ensures a == b
  {
    assert forall id :: id in a <==> Lookup(a, id).Some?;
    assert forall id :: id in b <==> Lookup(b, id).Some?;
    assert forall id :: id in a ==> a[id] == Lookup(a, id).value;
    assert forall id :: id in b ==> b[id] == Lookup(b, id).value;
  }

  // ---------------------------------------------------------------- from a source row to its node row

  /** Seconds of the years 1 to 9999 convert; nothing else does. */
  predicate Dated(claimed: Option<int>, heard: Option<int>) {
    heard == if claimed.Some? && -62135596800 <= claimed.value < 253402300800 then claimed else None
  }

  predicate Counts(t: Option<int>) { t.Some? && t.value != 0 }

  /** A contact was heard when it last advertised, or else was last modified, or else updated. */
  predicate ContactHeard(row: ContactRow, heard: Option<int>) {
    Dated(if Counts(row.lastAdvert) then row.lastAdvert
          else if Counts(row.lastmod) then row.lastmod else row.updatedAt, heard)
  }

  predicate NeighbourHeard(row: NeighbourRow, heard: Option<int>) {
    Dated(if Counts(row.lastAdvert) then row.lastAdvert else row.updatedAt, heard)
  }

  /** Contact types 1 to 4 have names, others are written as numbers. */
  predicate ContactRoleIs(kind: Option<int>, role: Option<RoleText>) {
    role == if kind.None? then None
            else if kind.value == 1 then Some(Named("CLIENT"))
            else if kind.value == 2 then Some(Named("ROUTER"))
            else if kind.value == 3 then Some(Named("CLIENT_MUTE"))
            else if kind.value == 4 then Some(Named("REPEATER"))
            else Some(Number(kind.value))
  }

  /** Neighbours are repeaters unless their type says otherwise; type 0 has no role. */
  predicate NeighbourRoleIs(kind: Option<int>, role: Option<RoleText>) {
    role == if kind == Some(0) then None
            else if kind == Some(1) then Some(Named("CLIENT"))
            else if kind == Some(3) then Some(Named("ROOMSERVER"))
            else if kind == Some(4) then Some(Named("SENSOR"))
            else Some(Named("REPEATER"))
  }

  /** The row after one record of a node heard at `heard`: a new row says what the record says; an old one takes name
      and position from it if that is later, and its role in any case. */
  predicate Says(prior: Option<NodeRow>, row: NodeRow, name: string, role: Option<RoleText>, lat: Option<int>,
                 lon: Option<int>, heard: int) {
    match prior
    case None => row == NodeRow(Some(name), "meshcore", role, lat, lon, Some(heard), Some(heard), 0)
    case Some(r) =>
      if r.lastHeard.Some? && r.lastHeard.value < heard
      then row == NodeRow(Some(name), r.protocol, role, lat, lon, Some(heard), r.firstSeen, r.packetCount)
      else row == r.(role := role)
  }

  ghost predicate OnlyRow(before: Nodes, after: Nodes, id: string) {
    id in after && forall j :: j != id ==> Lookup(after, j) == Lookup(before, j)
  }

  lemma RecordSets(nodes: Nodes, u: Record)
    ensures var after := UpsertAll(nodes, [u]);
            OnlyRow(nodes, after, u.id)
            && Says(Lookup(nodes, u.id), after[u.id], u.name, u.role, u.lat, u.lon, u.heard)
  {
    assert [u][..0] == [];
    assert UpsertAll(nodes, [u]) == Upsert(nodes, u);
  }

  /** What a contact puts into the node table: its own name, position and time, under the first twelve characters of
      its key; nothing without key, name and time. */
  lemma ContactSets(nodes: Nodes, row: ContactRow) returns (heard: Option<int>, role: Option<RoleText>)
    ensures ContactHeard(row, heard) && ContactRoleIs(row.kind, role)
    ensures var (after, key, name) := (UpsertAll(nodes, ContactRecords([row])), KeyOf(row.src), NameOf(row.src));
            if key == "" || name == "" || heard.None? then after == nodes
            else
              var id := if |key| > 12 then key[..12] else key;
              OnlyRow(nodes, after, id)
              && Says(Lookup(nodes, id), after[id], name, role, row.lat, row.lon, heard.value)
  {
    hide KeyOf, NameOf;
    var r := ContactRecord(row);
    heard, role := IsoFromUnix(OrInt(row.lastAdvert, OrInt(row.lastmod, row.updatedAt))), ContactRole(row.kind);
    assert [row][..0] == [] && ContactRecords([]) == [] && [] + Listed(r) == Listed(r);
    assert ContactRecords([row]) == Listed(r);
    hide UpsertAll, OnlyRow, Says;
    if r.Some? { RecordSets(nodes, r.value); } else { UpsertAllNothing(nodes); }
  }

  /** The id a neighbour's key stands for. */
  predicate StandsFor(key: string, prefixes: map<string, string>, id: string) {
    var (long, short) := (if |key| > 12 then key[..12] else key, if |key| > 8 then key[..8] else key);
    id == if long in prefixes && prefixes[long] != "" then prefixes[long]
          else if short in prefixes && prefixes[short] != "" then prefixes[short] else long
  }

  lemma NeighbourRecordSays(row: NeighbourRow, prefixes: map<string, string>)
    ensures NeighbourHeard(row, IsoFromUnix(OrInt(row.lastAdvert, row.updatedAt)))
    ensures NeighbourRoleIs(row.kind, NeighbourRole(row.kind))
    ensures var (key, heard) := (KeyOf(row.src), IsoFromUnix(OrInt(row.lastAdvert, row.updatedAt)));
            StandsFor(key, prefixes, NeighbourId(prefixes, key))
            && NeighbourRecord(row, prefixes)
               == if key == "" || NameOf(row.src) == "" || heard.None? then None
                  else Some(Record(NeighbourId(prefixes, key), NameOf(row.src), NeighbourRole(row.kind),
                                   row.lat, row.lon, heard.value))
  {
    hide KeyOf, NameOf;
  }

  /** What a neighbour puts there: the same under the id the prefix map has for its key. */
  lemma NeighbourSets(nodes: Nodes, row: NeighbourRow, prefixes: map<string, string>)
    returns (id: string, heard: Option<int>, role: Option<RoleText>)
    ensures StandsFor(KeyOf(row.src), prefixes, id) && NeighbourHeard(row, heard) && NeighbourRoleIs(row.kind, role)
    ensures var (after, name) := (UpsertAll(nodes, NeighbourRecords([row], prefixes)), NameOf(row.src));
            if KeyOf(row.src) == "" || name == "" || heard.None? then after == nodes
            else OnlyRow(nodes, after, id)
                 && Says(Lookup(nodes, id), after[id], name, role, row.lat, row.lon, heard.value)
  {
    NeighbourRecordSays(row, prefixes);
    hide KeyOf, NameOf, NeighbourRecord, NeighbourId, NeighbourRole, IsoFromUnix, OrInt, StandsFor, NeighbourHeard,
         NeighbourRoleIs;
    var r := NeighbourRecord(row, prefixes);
    id, heard := NeighbourId(prefixes, KeyOf(row.src)), IsoFromUnix(OrInt(row.lastAdvert, row.updatedAt));
    role := NeighbourRole(row.kind);
    assert [row][..0] == [] && NeighbourRecords([], prefixes) == [] && [] + Listed(r) == Listed(r);
    assert NeighbourRecords([row], prefixes) == Listed(r);
    hide UpsertAll, OnlyRow, Says, NeighbourRecords;
    if r.Some? { RecordSets(nodes, r.value); } else { UpsertAllNothing(nodes); }
  }
}
