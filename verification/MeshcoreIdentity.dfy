/** How the MeshCore archive importer decides which node a key, a key prefix or a name stands for. */
module MeshcoreIdentity {
  import opened Common

  // ---------------------------------------------------------------- strings

  predicate IsSpace(c: char) { c == ' ' || c == '\t' || c == '\n' || c == '\r' }

  function LowerChar(c: char): char {
    if 'A' <= c <= 'Z' then (c as int + 32) as char else c
  }

  function Lower(s: string): (r: string)
    ensures |r| == |s|
    ensures forall i :: 0 <= i < |s| ==> r[i] == LowerChar(s[i])
  {
    if s == "" then "" else [LowerChar(s[0])] + Lower(s[1..])
  }

  function TrimLeft(s: string): string {
    if s != "" && IsSpace(s[0]) then TrimLeft(s[1..]) else s
  }

  function TrimRight(s: string): string {
    if s != "" && IsSpace(s[|s| - 1]) then TrimRight(s[..|s| - 1]) else s
  }

  /** str.strip() */
  function Trim(s: string): string { TrimRight(TrimLeft(s)) }

  /** s[:n] */
  function Prefix(s: string, n: nat): string { if |s| <= n then s else s[..n] }

  predicate IsSlugChar(c: char) {
    'A' <= c <= 'Z' || 'a' <= c <= 'z' || '0' <= c <= '9' || c == '.' || c == '_' || c == '-'
  }

  /** Runs of other characters become one underscore. */
  function Squeeze(s: string, inRun: bool): string {
    if s == "" then ""
    else if IsSlugChar(s[0]) then [s[0]] + Squeeze(s[1..], false)
    else (if inRun then "" else "_") + Squeeze(s[1..], true)
  }

  function StripBars(s: string): string {
    if s != "" && s[0] == '_' then StripBars(s[1..])
    else if s != "" && s[|s| - 1] == '_' then StripBars(s[..|s| - 1])
    else s
  }

  /** `_slug` */
  function Slug(s: string): string {
    var t := StripBars(Squeeze(Trim(s), false));
    if t == "" then "unknown" else t
  }

  predicate Barred(s: string) { s != "" && (s[0] == '_' || s[|s| - 1] == '_') }

  predicate OnlySlugChars(s: string) { forall i :: 0 <= i < |s| ==> IsSlugChar(s[i]) }

  lemma {:induction false} SqueezeShape(s: string, inRun: bool)
    ensures OnlySlugChars(Squeeze(s, inRun))
    ensures OnlySlugChars(s) ==> Squeeze(s, inRun) == s
  {
    if s != "" {
      SqueezeShape(s[1..], !IsSlugChar(s[0]));
      assert s == [s[0]] + s[1..];
    }
  }

  lemma {:induction false} StripShape(s: string)
    requires OnlySlugChars(s)
    ensures OnlySlugChars(StripBars(s)) && !Barred(StripBars(s)) && (!Barred(s) ==> StripBars(s) == s)
    decreases |s|
  {
    if s != "" && s[0] == '_' {
      StripShape(s[1..]);
    } else if s != "" && s[|s| - 1] == '_' {
      StripShape(s[..|s| - 1]);
    }
  }

  lemma {:induction false} TrimClean(s: string)
    requires OnlySlugChars(s)
    ensures Trim(s) == s
  {
  }

  /** A slug has only letters, digits, dots, dashes and underscores, does not begin or end with an underscore, and is
      not empty; a text that is so already is its own slug. */
  lemma SlugShape(s: string)
    ensures OnlySlugChars(Slug(s)) && !Barred(Slug(s)) && Slug(s) != ""
    ensures s != "" && OnlySlugChars(s) && !Barred(s) ==> Slug(s) == s
  {
    SqueezeShape(Trim(s), false);
    StripShape(Squeeze(Trim(s), false));
    if OnlySlugChars(s) { TrimClean(s); }
    assert OnlySlugChars("unknown");
    hide Squeeze, StripBars, Trim;
  }

  // ---------------------------------------------------------------- the two maps

  datatype Source = Source(pubkey: Option<string>, name: Option<string>)

  /** names: lower-cased name to node id; prefixes: key prefix to node id. */
  datatype Maps = Maps(names: map<string, string>, prefixes: map<string, string>)

  function KeyOf(row: Source): string { Lower(Trim(GetOr(row.pubkey, ""))) }

  function NameOf(row: Source): string { Trim(GetOr(row.name, "")) }

  function SetDefault(m: map<string, string>, k: string, v: string): map<string, string> {
    if k in m then m else m[k := v]
  }

  function AddContact(m: Maps, row: Source): Maps {
    var pk, name := KeyOf(row), NameOf(row);
    if pk == "" || name == "" then m
    else
      var id := Prefix(pk, 12);
      Maps(SetDefault(m.names, Lower(name), id), m.prefixes[Prefix(pk, 12) := id][Prefix(pk, 8) := id])
  }

  /** The id known for the twelve-character prefix of a key, else for the eight-character one, else the key cut at
      twelve. */
  function NeighbourId(prefixes: map<string, string>, pk: string): string {
    if Prefix(pk, 12) in prefixes && prefixes[Prefix(pk, 12)] != "" then prefixes[Prefix(pk, 12)]
    else if Prefix(pk, 8) in prefixes && prefixes[Prefix(pk, 8)] != "" then prefixes[Prefix(pk, 8)]
    else Prefix(pk, 12)
  }

  function AddNeighbour(m: Maps, row: Source): Maps {
    var pk, name := KeyOf(row), NameOf(row);
    if pk == "" then m
    else
      var id := NeighbourId(m.prefixes, pk);
      Maps(if name == "" then m.names else SetDefault(m.names, Lower(name), id),
           SetDefault(SetDefault(m.prefixes, Prefix(pk, 12), id), Prefix(pk, 8), id))
  }

  function AddContacts(m: Maps, rows: seq<Source>): Maps {
    if rows == [] then m else AddContact(AddContacts(m, rows[..|rows| - 1]), rows[|rows| - 1])
  }

  function AddNeighbours(m: Maps, rows: seq<Source>): Maps {
    if rows == [] then m else AddNeighbour(AddNeighbours(m, rows[..|rows| - 1]), rows[|rows| - 1])
  }

  function Build(contacts: seq<Source>, neighbours: seq<Source>): Maps {
    AddNeighbours(AddContacts(Maps(map[], map[]), contacts), neighbours)
  }

  /** `_build_identity_maps` */
  method BuildIdentityMaps(contacts: seq<Source>, neighbours: seq<Source>)
    returns (names: map<string, string>, prefixes: map<string, string>)
    ensures Maps(names, prefixes) == Build(contacts, neighbours)
  {
    hide Lower, Trim;
    names, prefixes := map[], map[];
    assert contacts[..|contacts|] == contacts && neighbours[..|neighbours|] == neighbours;
    var i := 0;
    while i < |contacts|
      invariant 0 <= i <= |contacts|
      invariant Maps(names, prefixes) == AddContacts(Maps(map[], map[]), contacts[..i])
    {
      var pk, name := KeyOf(contacts[i]), NameOf(contacts[i]);
      assert contacts[..i + 1][..i] == contacts[..i];
      i := i + 1;
      if pk == "" || name == "" {
        continue;
      }
      var id := Prefix(pk, 12);
      prefixes := prefixes[Prefix(pk, 12) := id];
      prefixes := prefixes[Prefix(pk, 8) := id];
      names := SetDefault(names, Lower(name), id);
    }
    i := 0;
    while i < |neighbours|
      invariant 0 <= i <= |neighbours|
      invariant Maps(names, prefixes)
             == AddNeighbours(AddContacts(Maps(map[], map[]), contacts), neighbours[..i])
    {
      var pk, name := KeyOf(neighbours[i]), NameOf(neighbours[i]);
      assert neighbours[..i + 1][..i] == neighbours[..i];
      i := i + 1;
      if pk == "" {
        continue;
      }
      var id := NeighbourId(prefixes, pk);
      prefixes := SetDefault(prefixes, Prefix(pk, 12), id);
      prefixes := SetDefault(prefixes, Prefix(pk, 8), id);
      if name != "" {
        names := SetDefault(names, Lower(name), id);
      }
    }
  }

  /** `_resolve_node_id` */
  function Resolve(source: Option<string>, m: Maps): string {
    var key := Trim(GetOr(source, ""));
    if key == "" then "unknown"
    else
      var lowered := Lower(key);
      if lowered in m.names then m.names[lowered]
      else if Prefix(lowered, 12) in m.prefixes then m.prefixes[Prefix(lowered, 12)]
      else if Prefix(lowered, 8) in m.prefixes then m.prefixes[Prefix(lowered, 8)]
      else Slug(key)
  }

  // ---------------------------------------------------------------- what the maps hold

  predicate Used(row: Source) { KeyOf(row) != "" && NameOf(row) != "" }

  predicate IsLower(s: string) { forall i :: 0 <= i < |s| ==> LowerChar(s[i]) == s[i] }

  /** Written the way node ids are. */
  ghost predicate IsNodeId(s: string) { 0 < |s| <= 12 && IsLower(s) }

  lemma CutIsNodeId(row: Source)
    requires KeyOf(row) != ""
    ensures IsNodeId(Prefix(KeyOf(row), 12))
  {
    hide Trim;
  }

  /** The maps use this id for some node. */
  ghost predicate Given(m: Maps, id: string) { id in m.prefixes.Values || id in m.names.Values }

  /** The id of the last contact whose key starts with these eight characters. */
  function LastOwner(rows: seq<Source>, p: string): Option<string> {
    if rows == [] then None
    else
      var row := rows[|rows| - 1];
      if Used(row) && Prefix(KeyOf(row), 8) == p then Some(Prefix(KeyOf(row), 12))
      else LastOwner(rows[..|rows| - 1], p)
  }

  /** What the prefix map makes of an id: the id itself, unless it is eight characters long and starts the key of
      a contact read after it. */
  function Standing(contacts: seq<Source>, id: string): string {
    if |id| == 8 then GetOr(LastOwner(contacts, id), id) else id
  }

  /** Every id in use is written like one and found in the prefix map. */
  ghost predicate Stands(m: Maps, contacts: seq<Source>) {
    forall id :: Given(m, id) ==> IsNodeId(id) && id in m.prefixes && m.prefixes[id] == Standing(contacts, id)
  }

  lemma ContactKeepsStanding(m: Maps, rows: seq<Source>)
    requires rows != [] && Stands(m, rows[..|rows| - 1])
    ensures Stands(AddContact(m, rows[|rows| - 1]), rows)
  {
    hide IsNodeId, KeyOf, NameOf, Lower;
    var row := rows[|rows| - 1];
    var n := AddContact(m, row);
    if Used(row) {
      CutIsNodeId(row);
      var (id, short) := (Prefix(KeyOf(row), 12), Prefix(KeyOf(row), 8));
      forall v | Given(n, v)
        ensures IsNodeId(v) && v in n.prefixes && n.prefixes[v] == Standing(rows, v)
      {
        GivenByContact(m, row, v);
      }
    }
  }

  lemma GivenByContact(m: Maps, row: Source, v: string)
    requires Used(row) && Given(AddContact(m, row), v)
    ensures v == Prefix(KeyOf(row), 12) || Given(m, v)
  {
    hide KeyOf, NameOf, Lower, Prefix;
  }

  /** After the contacts, every id in use is found in the prefix map and stands for itself, or for the last contact
      whose key it starts. */
  lemma {:induction false} ContactsStand(rows: seq<Source>)
    ensures Stands(AddContacts(Maps(map[], map[]), rows), rows)
  {
    hide AddContact, Stands;
    if rows == [] {
      assert Stands(Maps(map[], map[]), []) by { NothingGiven(); }
    } else {
      var front := rows[..|rows| - 1];
      ContactsStand(front);
      ContactKeepsStanding(AddContacts(Maps(map[], map[]), front), rows);
    }
  }

  lemma NothingGiven()
    ensures Stands(Maps(map[], map[]), [])
  {
  }

  /** The contacts alone decide what an eight-character prefix of one of their keys stands for. */
  lemma {:induction false} ContactsOwnPrefixes(rows: seq<Source>, p: string)
    requires |p| == 8
    ensures var m := AddContacts(Maps(map[], map[]), rows).prefixes;
            (p in m <==> LastOwner(rows, p).Some?) && (p in m ==> Some(m[p]) == LastOwner(rows, p))
  {
    hide KeyOf, NameOf, Lower;
    if rows != [] {
      ContactsOwnPrefixes(rows[..|rows| - 1], p);
    }
  }

  ghost predicate Owned(m: Maps, contacts: seq<Source>) {
    forall p: string :: |p| == 8 && LastOwner(contacts, p).Some? ==> p in m.prefixes
  }

  lemma NeighbourKeepsStanding(m: Maps, contacts: seq<Source>, row: Source)
    requires Stands(m, contacts) && Owned(m, contacts)
    ensures Stands(AddNeighbour(m, row), contacts) && Owned(AddNeighbour(m, row), contacts)
  {
    hide KeyOf, NameOf, Lower;
    var n, pk := AddNeighbour(m, row), KeyOf(row);
    if pk != "" {
      CutIsNodeId(row);
      var id := NeighbourId(m.prefixes, pk);
      IdOfNeighbour(m, contacts, pk);
      hide IsNodeId, NeighbourId, LastOwner;
      forall v | Given(n, v)
        ensures IsNodeId(v) && v in n.prefixes && n.prefixes[v] == Standing(contacts, v)
      {
        assert v == id || Given(m, v);
      }
    }
  }

  /** A neighbour gets an id that is in use, or is the first to use its own. */
  lemma IdOfNeighbour(m: Maps, contacts: seq<Source>, pk: string)
    requires Stands(m, contacts) && pk != ""
    ensures var (id, long) := (NeighbourId(m.prefixes, pk), Prefix(pk, 12));
            if long in m.prefixes then id == m.prefixes[long] && Given(m, id)
            else Given(m, id) || id == long
  {
    var (long, short) := (Prefix(pk, 12), Prefix(pk, 8));
    if long in m.prefixes { assert Given(m, m.prefixes[long]); }
    if short in m.prefixes { assert Given(m, m.prefixes[short]); }
  }

  /** The neighbours change nothing about that. */
  lemma {:induction false} NeighboursStand(m: Maps, contacts: seq<Source>, rows: seq<Source>)
    requires Stands(m, contacts) && Owned(m, contacts)
    ensures Stands(AddNeighbours(m, rows), contacts) && Owned(AddNeighbours(m, rows), contacts)
  {
    hide AddNeighbour, Stands, Owned;
    if rows != [] {
      var front := rows[..|rows| - 1];
      NeighboursStand(m, contacts, front);
      NeighbourKeepsStanding(AddNeighbours(m, front), contacts, rows[|rows| - 1]);
    }
  }

  lemma OwnedByContacts(contacts: seq<Source>)
    ensures Owned(AddContacts(Maps(map[], map[]), contacts), contacts)
  {
    forall p: string | |p| == 8 && LastOwner(contacts, p).Some?
      ensures p in AddContacts(Maps(map[], map[]), contacts).prefixes
    {
      ContactsOwnPrefixes(contacts, p);
    }
  }

  lemma AllStand(contacts: seq<Source>, neighbours: seq<Source>)
    ensures Stands(Build(contacts, neighbours), contacts)
  {
    hide Stands, Owned;
    ContactsStand(contacts);
    OwnedByContacts(contacts);
    NeighboursStand(AddContacts(Maps(map[], map[]), contacts), contacts, neighbours);
  }

  // ---------------------------------------------------------------- the first row with a name has it

  /** The key of the first row that has a key and this name, upper and lower case alike. */
  function FirstNamed(rows: seq<Source>, w: string): Option<string> {
    if rows == [] then None
    else
      var (earlier, row) := (FirstNamed(rows[..|rows| - 1], w), rows[|rows| - 1]);
      if earlier.Some? then earlier
      else if Used(row) && Lower(NameOf(row)) == w then Some(KeyOf(row))
      else None
  }

  /** The id a name stands for: that of the first contact named so, or else what the prefix map has for the first
      neighbour named so. */
  function NamedId(contacts: seq<Source>, neighbours: seq<Source>, prefixes: map<string, string>, w: string)
    : Option<string>
  {
    var (c, n) := (FirstNamed(contacts, w), FirstNamed(neighbours, w));
    if c.Some? then Some(Prefix(c.value, 12))
    else if n.Some? && Prefix(n.value, 12) in prefixes then Some(prefixes[Prefix(n.value, 12)])
    else None
  }

  function Find(m: map<string, string>, k: string): Option<string> { if k in m then Some(m[k]) else None }

  lemma {:induction false} ContactNames(rows: seq<Source>, w: string)
    ensures Find(AddContacts(Maps(map[], map[]), rows).names, w) == NamedId(rows, [], map[], w)
  {
    hide KeyOf, NameOf, Lower, Prefix;
    if rows != [] { ContactNames(rows[..|rows| - 1], w); }
  }

  lemma NeighbourKeepsPrefix(m: Maps, row: Source, k: string)
    requires k in m.prefixes
    ensures k in AddNeighbour(m, row).prefixes && AddNeighbour(m, row).prefixes[k] == m.prefixes[k]
  {
  }

  lemma {:induction false} NeighboursKeepPrefixes(m: Maps, rows: seq<Source>, p: string)
    requires p in m.prefixes
    ensures p in AddNeighbours(m, rows).prefixes && AddNeighbours(m, rows).prefixes[p] == m.prefixes[p]
  {
    hide AddNeighbour;
    if rows != [] {
      NeighboursKeepPrefixes(m, rows[..|rows| - 1], p);
      NeighbourKeepsPrefix(AddNeighbours(m, rows[..|rows| - 1]), rows[|rows| - 1], p);
    }
  }

  /** A neighbour that is the first with its name gives it the id the prefix map then has for its key. */
  lemma OneNeighbourName(m: Maps, contacts: seq<Source>, row: Source, w: string)
    requires Stands(m, contacts)
    ensures var n := AddNeighbour(m, row);
            Find(n.names, w)
            == if w in m.names then Some(m.names[w])
               else if Used(row) && Lower(NameOf(row)) == w then Find(n.prefixes, Prefix(KeyOf(row), 12))
               else None
  {
    hide KeyOf, NameOf, Lower, NeighbourId, Stands;
    if KeyOf(row) != "" { IdOfNeighbour(m, contacts, KeyOf(row)); }
  }

  /** The key of a row with a name is in the prefix map. */
  lemma {:induction false} NamedIsKnown(m: Maps, rows: seq<Source>, w: string)
    requires FirstNamed(rows, w).Some?
    ensures Prefix(FirstNamed(rows, w).value, 12) in AddNeighbours(m, rows).prefixes
  {
    hide KeyOf, NameOf, Lower, Prefix, NeighbourId;
    if FirstNamed(rows[..|rows| - 1], w).Some? {
      NamedIsKnown(m, rows[..|rows| - 1], w);
    }
  }

  lemma {:induction false} NeighbourNames(c: Maps, contacts: seq<Source>, rows: seq<Source>, w: string)
    requires Stands(c, contacts) && Owned(c, contacts)
    requires Find(c.names, w) == NamedId(contacts, [], map[], w)
    ensures var m := AddNeighbours(c, rows); Find(m.names, w) == NamedId(contacts, rows, m.prefixes, w)
  {
    hide KeyOf, NameOf, Lower, AddNeighbour, Prefix, Stands, Owned;
    if rows != [] {
      var (front, row) := (rows[..|rows| - 1], rows[|rows| - 1]);
      var m := AddNeighbours(c, front);
      NeighbourNames(c, contacts, front, w);
      NeighboursStand(c, contacts, front);
      OneNeighbourName(m, contacts, row, w);
      if FirstNamed(front, w).Some? {
        NamedIsKnown(c, front, w);
        NeighbourKeepsPrefix(m, row, Prefix(FirstNamed(front, w).value, 12));
      }
    }
  }

  /** The names map, from the rows: the first row with a name has it, contacts before neighbours. */
  lemma NamesAreFirst(contacts: seq<Source>, neighbours: seq<Source>, w: string)
    ensures var m := Build(contacts, neighbours); Find(m.names, w) == NamedId(contacts, neighbours, m.prefixes, w)
  {
    hide AddContacts, AddNeighbours, Stands, NamedId;
    var c := AddContacts(Maps(map[], map[]), contacts);
    ContactsStand(contacts);
    OwnedByContacts(contacts);
    ContactNames(contacts, w);
    NeighbourNames(c, contacts, neighbours, w);
  }

  // ---------------------------------------------------------------- node ids resolve to themselves

  ghost predicate NoSpaces(s: string) { forall i :: 0 <= i < |s| ==> !IsSpace(s[i]) }

  lemma TrimSolid(s: string)
    requires NoSpaces(s)
    ensures Trim(s) == s
  {
  }

  lemma LowerFixed(s: string)
    requires IsLower(s)
    ensures Lower(s) == s
  {
  }

  /** Every node id that building the maps produced, for a key prefix or for a name, resolves to itself exactly when
      the first row that is named like it has that very id or, when there is no such row and the id is eight
      characters long, the last contact whose key starts with it has no longer key. The id must not end in a blank,
      which it can only where a key has one as its twelfth character. */
  lemma IdsResolveIff(contacts: seq<Source>, neighbours: seq<Source>, id: string)
    requires Given(Build(contacts, neighbours), id) && Trim(id) == id
    ensures var m := Build(contacts, neighbours);
            var named := NamedId(contacts, neighbours, m.prefixes, id);
            Resolve(Some(id), m) == id <==>
            if named.Some? then named == Some(id) else Standing(contacts, id) == id
  {
    AllStand(contacts, neighbours);
    NamesAreFirst(contacts, neighbours, id);
    var m := Build(contacts, neighbours);
    assert IsNodeId(id) && id in m.prefixes && m.prefixes[id] == Standing(contacts, id);
    LowerFixed(id);
    hide Build, Lower, Trim, Slug, NamedId, Standing;
    assert Prefix(id, 12) == id;
  }

  ghost predicate Plain(s: string) { s != "" && NoSpaces(s) && IsLower(s) }

  /** The maps after one contact more, for a row written plainly. */
  lemma PlainContact(m: Maps, key: string, name: string)
    requires Plain(key) && Plain(name)
    ensures AddContact(m, Source(Some(key), Some(name)))
            == Maps(SetDefault(m.names, name, Prefix(key, 12)),
                    m.prefixes[Prefix(key, 12) := Prefix(key, 12)][Prefix(key, 8) := Prefix(key, 12)])
  {
    TrimSolid(key);
    TrimSolid(name);
    LowerFixed(key);
    LowerFixed(name);
    hide Trim, Lower;
  }

  /** The maps two plainly written contacts with different names give. */
  lemma TwoContacts(k: string, x: string, l: string, y: string)
    requires Plain(k) && Plain(x) && Plain(l) && Plain(y) && x != y && |k| <= 8 && |l| <= 12
    ensures Build([Source(Some(k), Some(x)), Source(Some(l), Some(y))], [])
            == Maps(map[x := k, y := l], map[k := k][l := l][Prefix(l, 8) := l])
  {
    hide Plain, AddContact;
    var (a, b) := (Source(Some(k), Some(x)), Source(Some(l), Some(y)));
    var none := Maps(map[], map[]);
    assert [a][..0] == [];
    assert AddContacts(none, [a]) == AddContact(none, a);
    assert [a, b][..1] == [a];
    assert AddContacts(none, [a, b]) == AddContact(AddContact(none, a), b);
    PlainContact(none, k, x);
    PlainContact(AddContact(none, a), l, y);
  }

  /** An id that is lost to a name: the second contact is called like the first one's id. */
  lemma NameTakesId()
    ensures var m := Build([Source(Some("a1"), Some("x")), Source(Some("b2"), Some("a1"))], []);
            Given(m, "a1") && Resolve(Some("a1"), m) == "b2"
  {
    assert "b2"[0] == 'b';
    TwoContacts("a1", "x", "b2", "a1");
    TrimSolid("a1");
    LowerFixed("a1");
    hide Build, Lower, Trim;
    var m := Build([Source(Some("a1"), Some("x")), Source(Some("b2"), Some("a1"))], []);
    assert m.prefixes["a1"] == "a1";
  }

  /** And one that is lost to a longer key: the second contact's goes on where the first one's ends. */
  lemma LongerKeyTakesId()
    ensures var m := Build([Source(Some("abcdefgh"), Some("x")), Source(Some("abcdefgh1"), Some("y"))], []);
            Given(m, "abcdefgh") && Resolve(Some("abcdefgh"), m) == "abcdefgh1"
  {
    var (k, l) := ("abcdefgh", "abcdefgh1");
    assert l[..8] == k && |k| == 8 && |l| == 9 && "x"[0] == 'x' && "y"[0] == 'y';
    TwoContacts(k, "x", l, "y");
    KeyStandsForLonger(k, "x", l, "y", Build([Source(Some(k), Some("x")), Source(Some(l), Some("y"))], []));
  }

  lemma KeyStandsForLonger(k: string, x: string, l: string, y: string, m: Maps)
    requires Plain(k) && |k| == 8 && k != x && k != y && x != y
    requires m == Maps(map[x := k, y := l], map[k := k][l := l][k := l])
    ensures Given(m, k) && Resolve(Some(k), m) == l
  {
    TrimSolid(k);
    LowerFixed(k);
    hide Lower, Trim, Plain;
    assert m.names[x] == k && m.prefixes[k] == l && k !in m.names;
  }

  // ---------------------------------------------------------------- short prefixes find their contact

  /** A node known only by the first eight characters of some contact's key resolves to the id of the last such
      contact, which goes on from them, unless a node is named like the prefix. */
  lemma ShortPrefixResolves(contacts: seq<Source>, neighbours: seq<Source>, i: nat)
    requires i < |contacts| && Used(contacts[i]) && |KeyOf(contacts[i])| >= 8
    requires var p := KeyOf(contacts[i])[..8]; Trim(p) == p && p !in Build(contacts, neighbours).names
    ensures var p := KeyOf(contacts[i])[..8];
            var id := Resolve(Some(p), Build(contacts, neighbours));
            p <= id && Some(id) == LastOwner(contacts, p)
  {
    hide NameOf, Lower, Trim, AddContacts, AddNeighbours, Used, Slug;
    var p := KeyOf(contacts[i])[..8];
    ContactsOwnPrefixes(contacts, p);
    OwnerShape(contacts, p, i);
    NeighboursKeepPrefixes(AddContacts(Maps(map[], map[]), contacts), neighbours, p);
    CutIsNodeId(contacts[i]);
    assert IsLower(p) by { assert forall k :: 0 <= k < 8 ==> p[k] == Prefix(KeyOf(contacts[i]), 12)[k]; }
    LowerFixed(p);
  }

  lemma {:induction false} OwnerShape(rows: seq<Source>, p: string, i: nat)
    requires i < |rows| && Used(rows[i]) && |KeyOf(rows[i])| >= 8 && KeyOf(rows[i])[..8] == p
    ensures var o := LastOwner(rows, p); o.Some? && p <= o.value
  {
    hide KeyOf, Used;
    var row := rows[|rows| - 1];
    if !(Used(row) && Prefix(KeyOf(row), 8) == p) {
      OwnerShape(rows[..|rows| - 1], p, i);
    }
  }
}
