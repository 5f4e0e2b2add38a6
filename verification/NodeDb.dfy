/** The sniffer's in-memory node table: a fixed array, a count, and an upsert that never forgets a name. */
module NodeDb {
  import opened Common

  const NODE_DB_MAX: nat := 1024

  datatype NodeRec = NodeRec(id: nat, longName: Bytes, shortName: Bytes, hwModel: Bytes,
                             pkey: Option<Bytes>, lastSeen: int)

  /** The arguments of one `node_upsert` call; empty strings and an absent key mean "nothing new". */
  datatype Update = Update(id: nat, longName: Bytes, shortName: Bytes, hwModel: Bytes,
                           pkey: Option<Bytes>, now: int)

  /** strncpy into a buffer whose last byte stays NUL. */
  function Fitted(s: Bytes, cap: nat): Bytes {
    if |s| <= cap then s else s[..cap]
  }

  function Renamed(given: Bytes, cap: nat, kept: Bytes): Bytes {
    if given == [] then kept else Fitted(given, cap)
  }

  function Touch(r: NodeRec, u: Update): NodeRec {
    NodeRec(r.id, Renamed(u.longName, 63, r.longName), Renamed(u.shortName, 7, r.shortName),
            Renamed(u.hwModel, 23, r.hwModel), OrElse(u.pkey, r.pkey), u.now)
  }

  function Blank(id: nat): NodeRec { NodeRec(id, [], [], [], None, 0) }

  /** Index of the record with this id, or the length when there is none. */
  function Find(s: seq<NodeRec>, id: nat): (i: nat)
    ensures i <= |s|
    ensures i < |s| ==> s[i].id == id
    ensures forall j :: 0 <= j < i ==> s[j].id != id
  {
    if s == [] || s[0].id == id then 0 else 1 + Find(s[1..], id)
  }

  function Upsert(s: seq<NodeRec>, u: Update): seq<NodeRec> {
    var i := Find(s, u.id);
    if i < |s| then s[i := Touch(s[i], u)]
    else if |s| >= NODE_DB_MAX then s
    else s + [Touch(Blank(u.id), u)]
  }

  ghost predicate DistinctIds(s: seq<NodeRec>) {
    forall i, j :: 0 <= i < j < |s| ==> s[i].id != s[j].id
  }

  class Table {
    const db: array<NodeRec>
    var n: nat

    ghost predicate Valid()
      reads this, db
    {
      db.Length == NODE_DB_MAX && n <= NODE_DB_MAX && DistinctIds(db[..n])
    }

    ghost function Contents(): seq<NodeRec>
      reads this, db
      requires Valid()
    {
      db[..n]
    }

    constructor ()
      ensures Valid() && fresh(db) && Contents() == []
    {
      db := new NodeRec[NODE_DB_MAX](_ => Blank(0));
      n := 0;
    }

    method NodeFind(id: nat) returns (i: nat)
      requires Valid()
      ensures i == Find(Contents(), id)
    {
      i := 0;
      while i < n
        invariant i <= n
        invariant forall j :: 0 <= j < i ==> db[j].id != id
      {
        if db[i].id == id {
          return;
        }
        i := i + 1;
      }
    }

    /** The slot of `id`, or None when the table is full of others. */
    method NodeGetOrAdd(id: nat) returns (slot: Option<nat>)
      requires Valid()
      modifies this, db
      ensures Valid()
      ensures var s := old(Contents());
              var i := Find(s, id);
              if i < |s| then slot == Some(i) && Contents() == s
              else if |s| >= NODE_DB_MAX then slot == None && Contents() == s
              else slot == Some(|s|) && Contents() == s + [Blank(id)]
    {
      var i := NodeFind(id);
      if i < n {
        return Some(i);
      }
      if n >= NODE_DB_MAX {
        return None;
      }
      db[n] := Blank(id);
      n := n + 1;
      slot := Some(n - 1);
    }

    method NodeUpsert(u: Update)
      requires Valid()
      modifies this, db
      ensures Valid() && Contents() == Upsert(old(Contents()), u)
    {
      assert forall r: NodeRec :: Touch(r, u).id == r.id;
      hide Touch, Find;
      ghost var was := Contents();
      var slot := NodeGetOrAdd(u.id);
      if slot.None? {
        return;
      }
      ghost var added := Contents();
      db[slot.value] := Touch(db[slot.value], u);
      assert Contents() == added[slot.value := Touch(added[slot.value], u)];
      if Find(was, u.id) == |was| {
        assert Contents() == was + [Touch(Blank(u.id), u)];
      }
    }
  }

  // ---------------------------------------------------------------- whole runs

  /** The table after a run of upserts on an empty one. */
  function Run(us: seq<Update>): seq<NodeRec> {
    if us == [] then [] else Upsert(Run(us[..|us| - 1]), us[|us| - 1])
  }

  datatype Name = Long | Short | Hardware

  function Offer(u: Update, name: Name): Bytes {
    match name
    case Long => u.longName
    case Short => u.shortName
    case Hardware => u.hwModel
  }

  /** The last non-blank value the run offered for one node's field, or the empty string. */
  function LastOffered(us: seq<Update>, id: nat, name: Name): Bytes {
    if us == [] then []
    else
      var u := us[|us| - 1];
      if u.id == id && Offer(u, name) != [] then Offer(u, name) else LastOffered(us[..|us| - 1], id, name)
  }

  function LastKey(us: seq<Update>, id: nat): Option<Bytes> {
    if us == [] then None
    else
      var u := us[|us| - 1];
      if u.id == id && u.pkey.Some? then u.pkey else LastKey(us[..|us| - 1], id)
  }

  function LastTime(us: seq<Update>, id: nat): int {
    if us == [] then 0
    else if us[|us| - 1].id == id then us[|us| - 1].now
    else LastTime(us[..|us| - 1], id)
  }

  /** The record the history of one node amounts to. */
  function Expected(us: seq<Update>, id: nat): NodeRec {
    NodeRec(id, Fitted(LastOffered(us, id, Long), 63),
            Fitted(LastOffered(us, id, Short), 7),
            Fitted(LastOffered(us, id, Hardware), 23),
            LastKey(us, id), LastTime(us, id))
  }

  /** The ids of a run in the order of their first appearance. */
  function Appearances(us: seq<Update>): seq<nat> {
    if us == [] then []
    else
      var before := Appearances(us[..|us| - 1]);
      if us[|us| - 1].id in before then before else before + [us[|us| - 1].id]
  }

  lemma UpsertKeepsDistinct(s: seq<NodeRec>, u: Update)
    requires DistinctIds(s)
    ensures DistinctIds(Upsert(s, u))
  {
  }

  lemma {:induction false} AppearancesAreDistinct(us: seq<Update>)
    ensures forall i, j :: 0 <= i < j < |Appearances(us)| ==> Appearances(us)[i] != Appearances(us)[j]
    ensures forall u :: u in us ==> u.id in Appearances(us)
  {
    if us != [] {
      var prior := us[..|us| - 1];
      AppearancesAreDistinct(prior);
      forall w | w in us
        ensures w.id in Appearances(us)
      {
        if w in prior { assert w.id in Appearances(prior); }
      }
    }
  }

  /** `s` holds the first 1024 of `ids`, each with the record its history amounts to. */
  ghost predicate Holds(s: seq<NodeRec>, us: seq<Update>, ids: seq<nat>) {
    |s| == (if |ids| <= NODE_DB_MAX then |ids| else NODE_DB_MAX)
    && forall i :: 0 <= i < |s| ==> s[i] == Expected(us, ids[i])
  }

  /** After every run the table holds exactly the first 1024 nodes that appeared, in that order, each
      with the last non-blank names, key and time reported for it. */
  lemma {:induction false} RunIsLastKnown(us: seq<Update>)
    ensures Holds(Run(us), us, Appearances(us))
    ensures DistinctIds(Run(us))
  {
    AppearancesAreDistinct(us);
    if us == [] {
    } else {
      var prior, u := us[..|us| - 1], us[|us| - 1];
      RunIsLastKnown(prior);
      AppearancesAreDistinct(prior);
      UpsertKeepsDistinct(Run(prior), u);
      if u.id !in Appearances(prior) {
        NeverOffered(prior, u.id);
      }
      OneUpsert(us, Run(prior), Appearances(prior), Appearances(us));
    }
  }

  lemma OneUpsert(us: seq<Update>, s: seq<NodeRec>, ids: seq<nat>, all: seq<nat>)
    requires us != [] && Holds(s, us[..|us| - 1], ids)
    requires forall i, j :: 0 <= i < j < |ids| ==> ids[i] != ids[j]
    requires var id := us[|us| - 1].id;
             if id in ids then all == ids
             else all == ids + [id] && Expected(us[..|us| - 1], id) == Blank(id)
    ensures Holds(Upsert(s, us[|us| - 1]), us, all)
  {
    hide Expected, Touch, Find;
    var u := us[|us| - 1];
    var at := Find(s, u.id);
    HeldIds(s, us[..|us| - 1], ids);
    if at == |s| && u.id in ids {
      var k :| 0 <= k < |ids| && ids[k] == u.id;
      assert k >= |s|;
    }
    assert at < |s| ==> ids[at] == u.id;
    OneMore(us, u.id);
    forall i | 0 <= i < |s|
      ensures ids[i] == u.id <==> i == at
      ensures ids[i] != u.id ==> s[i] == Expected(us, ids[i])
    {
      OneMore(us, ids[i]);
    }
  }

  lemma HeldIds(s: seq<NodeRec>, us: seq<Update>, ids: seq<nat>)
    requires Holds(s, us, ids)
    ensures forall i :: 0 <= i < |s| ==> s[i].id == ids[i]
  {
  }

  lemma OneMore(us: seq<Update>, id: nat)
    requires us != []
    ensures var prior, u := us[..|us| - 1], us[|us| - 1];
            Expected(us, id) == if id == u.id then Touch(Expected(prior, id), u) else Expected(prior, id)
    ensures Expected(us, id).id == id && Expected(us[..|us| - 1], id).id == id
  {
  }

  lemma {:induction false} NeverOffered(us: seq<Update>, id: nat)
    requires forall u :: u in us ==> u.id != id
    ensures Expected(us, id) == Blank(id)
  {
    if us != [] {
      var prior := us[..|us| - 1];
      assert us[|us| - 1] in us;
      forall u | u in prior ensures u in us { }
      NeverOffered(prior, id);
    }
  }

  // ---------------------------------------------------------------- which argument reaches which field

  /** A text field after an update that offers `said` for it: the first `cap` bytes, or what was there if it is
      blank. */
  predicate Told(said: Bytes, cap: nat, before: Bytes, after: Bytes) {
    if said == [] then after == before
    else |said| >= |after| && after == said[..|after|] && |after| == Lesser(|said|, cap)
  }

  function Lesser(a: nat, b: nat): nat { if a < b then a else b }

  /** After every run, one update more sets each field of its node from its own argument, as far as the field's buffer
      holds it, and no field of another node; it does nothing only when 1024 others are held. */
  lemma UpdateSets(us: seq<Update>, u: Update)
    ensures var (before, after) := (Run(us), Run(us + [u]));
            if (forall i :: 0 <= i < |before| ==> before[i].id != u.id) && |before| >= 1024 then after == before
            else
              exists i :: 0 <= i < |after| && after[i].id == u.id
                && |before| <= |after| <= |before| + 1
                && (forall j :: 0 <= j < |before| && j != i ==> after[j] == before[j])
                && (i == |before| || before[i].id == u.id)
                && var was := if i < |before| then before[i] else NodeRec(u.id, [], [], [], None, 0);
                   Told(u.longName, 63, was.longName, after[i].longName)
                   && Told(u.shortName, 7, was.shortName, after[i].shortName)
                   && Told(u.hwModel, 23, was.hwModel, after[i].hwModel)
                   && after[i].pkey == (if u.pkey.Some? then u.pkey else was.pkey) && after[i].lastSeen == u.now
  {
    assert (us + [u])[..|us|] == us;
    hide Run;
    var s := Run(us);
    assert Run(us + [u]) == Upsert(s, u) by { RunSnoc(us, u); }
    var i := Find(s, u.id);
    if i < |s| || |s| < NODE_DB_MAX {
      assert Upsert(s, u)[i].id == u.id;
    }
  }

  lemma RunSnoc(us: seq<Update>, u: Update)
    ensures Run(us + [u]) == Upsert(Run(us), u)
  {
    assert (us + [u])[..|us|] == us;
  }
}
