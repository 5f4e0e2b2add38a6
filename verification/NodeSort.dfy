/** The order of the node cards: favourites first, then by signal, hops, name or time last heard. */
module NodeSort {
  import opened Common
  import opened StableSorting

  /** A field read as a number: absent, not a number, or a finite number. */
  datatype JsValue = Nullish | NotANumber | Number(value: int)

  datatype Node = Node(
    nodeId: string, longName: string, shortName: string,
    latestRssi: JsValue, rssi: JsValue, latestHops: JsValue, hopCount: JsValue,
    lastHeard: string, lastSeen: string)

  datatype SortKey = Signal | Hops | Name | LastHeard

  datatype Direction = Asc | Desc

  /** What the browser supplies: the locale's string order and its reading of timestamps. */
  datatype Browser = Browser(collate: (string, string) -> int, parse: string -> Option<int>)

  // ---------------------------------------------------------------- comparators

  /** The second value where the first is absent. */
  function Coalesce(a: JsValue, b: JsValue): JsValue { if a.Nullish? then b else a }

  function Finite(v: JsValue): Option<int> { if v.Number? then Some(v.value) else None }

  /** A missing value follows every present one, in either direction. */
  function CompareMissingLast(a: Option<int>, b: Option<int>, direction: Direction): int {
    if a.None? && b.None? then 0
    else if a.None? then 1
    else if b.None? then -1
    else if direction.Asc? then a.value - b.value else b.value - a.value
  }

  function CompareNum(a: JsValue, b: JsValue, direction: Direction): int {
    CompareMissingLast(Finite(a), Finite(b), direction)
  }

  function Rssi(n: Node): JsValue { Coalesce(n.latestRssi, n.rssi) }

  function HopsAway(n: Node): JsValue { Coalesce(n.latestHops, n.hopCount) }

  /** The second string where the first is empty. */
  function NonEmpty(a: string, b: string): string { if a != "" then a else b }

  function HeardMs(env: Browser, n: Node): Option<int> {
    var ts := NonEmpty(n.lastHeard, n.lastSeen);
    if ts == "" then None else env.parse(ts)
  }

  function CompareLastHeardDesc(env: Browser, a: Node, b: Node): int {
    CompareMissingLast(HeardMs(env, a), HeardMs(env, b), Desc)
  }

  function DisplayName(n: Node): string { NonEmpty(n.longName, NonEmpty(n.shortName, n.nodeId)) }

  /** The second result where the first is a tie. */
  function Then(x: int, y: int): int { if x != 0 then x else y }

  function Comparator(env: Browser, key: SortKey): (Node, Node) -> int {
    match key
    case Signal => (a, b) => Then(CompareNum(Rssi(a), Rssi(b), Desc), CompareLastHeardDesc(env, a, b))
    case Hops => (a, b) => Then(CompareNum(HopsAway(a), HopsAway(b), Asc), CompareLastHeardDesc(env, a, b))
    case Name => (a, b) => env.collate(DisplayName(a), DisplayName(b))
    case LastHeard => (a, b) => CompareLastHeardDesc(env, a, b)
  }

  /** The comparator handed to `sort`: the pin applies only when there are favourites. */
  function SortComparator(env: Browser, key: SortKey, favourites: set<string>): (Node, Node) -> int {
    if favourites != {} then
      (a: Node, b: Node) => if (a.nodeId in favourites) != (b.nodeId in favourites)
                then (if a.nodeId in favourites then -1 else 1)
                else Comparator(env, key)(a, b)
    else Comparator(env, key)
  }

  function IsFavourite(favourites: set<string>): Node -> bool { (n: Node) => n.nodeId in favourites }

  // ---------------------------------------------------------------- each comparator is a total preorder

  lemma MissingLastIsTransitive(a: Option<int>, b: Option<int>, c: Option<int>, d: Direction)
    requires CompareMissingLast(a, b, d) <= 0 && CompareMissingLast(b, c, d) <= 0
    ensures CompareMissingLast(a, c, d) <= 0
    ensures CompareMissingLast(a, c, d) == 0 ==> CompareMissingLast(a, b, d) == 0 == CompareMissingLast(b, c, d)
  {}

  lemma MissingLastIsAntisymmetric(a: Option<int>, b: Option<int>, d: Direction)
    ensures CompareMissingLast(a, b, d) == -CompareMissingLast(b, a, d)
  {}

  /** Every sort key orders the nodes consistently, missing values included, if the locale orders strings so. */
  lemma ComparatorIsConsistent(env: Browser, key: SortKey)
    requires Consistent(env.collate)
    ensures Consistent(Comparator(env, key))
  {
    var cmp := Comparator(env, key);
    forall a, b ensures cmp(a, b) < 0 <==> cmp(b, a) > 0 {
      ghost var names := (DisplayName(a), DisplayName(b));
      assert key.Name? ==> cmp(a, b) == env.collate(names.0, names.1) && cmp(b, a) == env.collate(names.1, names.0);
      MissingLastIsAntisymmetric(HeardMs(env, a), HeardMs(env, b), Desc);
      MissingLastIsAntisymmetric(Finite(Rssi(a)), Finite(Rssi(b)), Desc);
      MissingLastIsAntisymmetric(Finite(HopsAway(a)), Finite(HopsAway(b)), Asc);
    }
    forall a, b, c {:trigger cmp(a, b), cmp(b, c)} | cmp(a, b) <= 0 && cmp(b, c) <= 0 ensures cmp(a, c) <= 0 {
      ComparatorIsTransitive(env, key, a, b, c);
    }
  }

  lemma ComparatorIsTransitive(env: Browser, key: SortKey, a: Node, b: Node, c: Node)
    requires Consistent(env.collate)
    requires Comparator(env, key)(a, b) <= 0 && Comparator(env, key)(b, c) <= 0
    ensures Comparator(env, key)(a, c) <= 0
  {
    var (x, y, z) := (HeardMs(env, a), HeardMs(env, b), HeardMs(env, c));
    match key
    case Name =>
      assert env.collate(DisplayName(a), DisplayName(b)) <= 0 && env.collate(DisplayName(b), DisplayName(c)) <= 0;
    case LastHeard => MissingLastIsTransitive(x, y, z, Desc);
    case Signal => LexicographicIsTransitive(Finite(Rssi(a)), Finite(Rssi(b)), Finite(Rssi(c)), Desc, x, y, z);
    case Hops => LexicographicIsTransitive(Finite(HopsAway(a)), Finite(HopsAway(b)), Finite(HopsAway(c)), Asc, x, y, z);
  }

  lemma LexicographicIsTransitive(a: Option<int>, b: Option<int>, c: Option<int>, d: Direction,
                                  x: Option<int>, y: Option<int>, z: Option<int>)
    requires Then(CompareMissingLast(a, b, d), CompareMissingLast(x, y, Desc)) <= 0
    requires Then(CompareMissingLast(b, c, d), CompareMissingLast(y, z, Desc)) <= 0
    ensures Then(CompareMissingLast(a, c, d), CompareMissingLast(x, z, Desc)) <= 0
  {
    MissingLastIsTransitive(a, b, c, d);
    if CompareMissingLast(a, c, d) == 0 { MissingLastIsTransitive(x, y, z, Desc); }
  }

  // ---------------------------------------------------------------- the sorted cards

  /** Whatever stable sort the browser uses, the cards are the favourites sorted by the key, then the others
      sorted by the key, and they are the nodes given. */
  lemma ApplySortResult(env: Browser, key: SortKey, favourites: set<string>, nodes: seq<Node>, cards: seq<Node>)
    requires Consistent(env.collate)
    requires StablySorted(SortComparator(env, key, favourites), nodes, cards)
    ensures cards == PinnedFirst(IsFavourite(favourites), Comparator(env, key), nodes)
    ensures multiset(cards) == multiset(nodes)
  {
    var (pin, cmp) := (IsFavourite(favourites), Comparator(env, key));
    ComparatorIsConsistent(env, key);
    PinnedIsConsistent(pin, cmp);
    var used := SortComparator(env, key, favourites);
    SameOrder(used, Pinned(pin, cmp), nodes, cards);
    PinnedSortSplits(pin, cmp, nodes, cards);
    StablySortedPermutes(Pinned(pin, cmp), nodes, cards);
  }

  /** Comparators with equal values accept the same results. */
  lemma SameOrder<T(!new)>(c: (T, T) -> int, d: (T, T) -> int, s: seq<T>, t: seq<T>)
    requires forall a, b :: c(a, b) == d(a, b)
    requires StablySorted(c, s, t)
    ensures StablySorted(d, s, t)
  {
    forall x ensures Ties(d, x, t) == Ties(d, x, s) {
      SameTies(c, d, x, t);
      SameTies(c, d, x, s);
    }
  }

  /** `x` is present and better than `y`, or `y` is missing. */
  predicate Better(x: Option<int>, y: Option<int>, d: Direction) {
    x.Some? && (y.None? || if d.Asc? then x.value < y.value else x.value > y.value)
  }

  lemma MeaningOfCompare(a: Option<int>, b: Option<int>, d: Direction, x: Option<int>, y: Option<int>)
    ensures Then(CompareMissingLast(a, b, d), CompareMissingLast(x, y, Desc)) <= 0
            <==> Better(a, b, d) || (a == b && !Better(y, x, Desc))
  {
    assert CompareMissingLast(a, b, d) < 0 <==> Better(a, b, d);
    assert CompareMissingLast(a, b, d) == 0 <==> a == b;
    assert CompareMissingLast(x, y, Desc) > 0 <==> Better(y, x, Desc);
  }

  /** What a reader of the page sees by signal: no favourite below another node, and within a group stronger
      signals first, nodes without one last, ties broken by the later time heard. */
  lemma SignalOrder(env: Browser, favourites: set<string>, nodes: seq<Node>, cards: seq<Node>, i: nat, j: nat)
    requires StablySorted(SortComparator(env, Signal, favourites), nodes, cards) && i < j < |cards|
    ensures cards[j].nodeId in favourites ==> cards[i].nodeId in favourites
    ensures (cards[i].nodeId in favourites) == (cards[j].nodeId in favourites) ==>
              var (x, y) := (Finite(Rssi(cards[i])), Finite(Rssi(cards[j])));
              Better(x, y, Desc) || (x == y && !Better(HeardMs(env, cards[j]), HeardMs(env, cards[i]), Desc))
  {
    var (a, b) := (cards[i], cards[j]);
    assert SortComparator(env, Signal, favourites)(a, b) <= 0;
    if (a.nodeId in favourites) == (b.nodeId in favourites) {
      assert Comparator(env, Signal)(a, b) <= 0;
      MeaningOfCompare(Finite(Rssi(a)), Finite(Rssi(b)), Desc, HeardMs(env, a), HeardMs(env, b));
    }
  }

  /** By hops: fewer hops first, nodes with no hop count last. */
  lemma HopsOrder(env: Browser, favourites: set<string>, nodes: seq<Node>, cards: seq<Node>, i: nat, j: nat)
    requires StablySorted(SortComparator(env, Hops, favourites), nodes, cards) && i < j < |cards|
    ensures cards[j].nodeId in favourites ==> cards[i].nodeId in favourites
    ensures (cards[i].nodeId in favourites) == (cards[j].nodeId in favourites) ==>
              var (x, y) := (Finite(HopsAway(cards[i])), Finite(HopsAway(cards[j])));
              Better(x, y, Asc) || (x == y && !Better(HeardMs(env, cards[j]), HeardMs(env, cards[i]), Desc))
  {
    var (a, b) := (cards[i], cards[j]);
    assert SortComparator(env, Hops, favourites)(a, b) <= 0;
    if (a.nodeId in favourites) == (b.nodeId in favourites) {
      assert Comparator(env, Hops)(a, b) <= 0;
      MeaningOfCompare(Finite(HopsAway(a)), Finite(HopsAway(b)), Asc, HeardMs(env, a), HeardMs(env, b));
    }
  }

  // ---------------------------------------------------------------- in terms of the fields of a node

  /** A reading that may stand in either of two fields: the first where it is present, even if it is no number. */
  predicate Reads(first: JsValue, second: JsValue, x: Option<int>) {
    match first
    case Number(v) => x == Some(v)
    case NotANumber => x == None
    case Nullish => x == if second.Number? then Some(second.value) else None
  }

  /** When a node was heard: the reading of last_heard or, if that is empty, of last_seen. */
  predicate HeardReads(env: Browser, n: Node, x: Option<int>) {
    if n.lastHeard != "" then x == env.parse(n.lastHeard)
    else if n.lastSeen != "" then x == env.parse(n.lastSeen) else x == None
  }

  /** What a card is titled: the long name, else the short one, else the id. */
  predicate Titled(n: Node, title: string) {
    title == if n.longName != "" then n.longName else if n.shortName != "" then n.shortName else n.nodeId
  }

  /** x stands before y: it is present and y is missing, or both are and x comes first in this direction. */
  predicate Precedes(x: Option<int>, y: Option<int>, d: Direction) {
    x.Some? && (y.None? || (if d == Desc then x.value > y.value else x.value < y.value))
  }

  /** The order of two cards of one group, by signal: the stronger first, a missing one last, ties by the later time. */
  lemma BySignal(env: Browser, favourites: set<string>, nodes: seq<Node>, cards: seq<Node>, i: nat, j: nat,
                 x: Option<int>, y: Option<int>, s: Option<int>, t: Option<int>)
    requires StablySorted(SortComparator(env, Signal, favourites), nodes, cards) && i < j < |cards|
    requires (cards[i].nodeId in favourites) == (cards[j].nodeId in favourites)
    requires Reads(cards[i].latestRssi, cards[i].rssi, x) && Reads(cards[j].latestRssi, cards[j].rssi, y)
    requires HeardReads(env, cards[i], s) && HeardReads(env, cards[j], t)
    ensures Precedes(x, y, Desc) || (x == y && !Precedes(t, s, Desc))
  {
    SignalOrder(env, favourites, nodes, cards, i, j);
  }

  /** By hops: the fewer first. */
  lemma ByHops(env: Browser, favourites: set<string>, nodes: seq<Node>, cards: seq<Node>, i: nat, j: nat,
               x: Option<int>, y: Option<int>, s: Option<int>, t: Option<int>)
    requires StablySorted(SortComparator(env, Hops, favourites), nodes, cards) && i < j < |cards|
    requires (cards[i].nodeId in favourites) == (cards[j].nodeId in favourites)
    requires Reads(cards[i].latestHops, cards[i].hopCount, x) && Reads(cards[j].latestHops, cards[j].hopCount, y)
    requires HeardReads(env, cards[i], s) && HeardReads(env, cards[j], t)
    ensures Precedes(x, y, Asc) || (x == y && !Precedes(t, s, Desc))
  {
    HopsOrder(env, favourites, nodes, cards, i, j);
  }

  /** By time, the default: no favourite below another node, and within a group the last heard first, those never heard
      last. */
  lemma ByTime(env: Browser, favourites: set<string>, nodes: seq<Node>, cards: seq<Node>, i: nat, j: nat,
               s: Option<int>, t: Option<int>)
    requires StablySorted(SortComparator(env, LastHeard, favourites), nodes, cards) && i < j < |cards|
    requires HeardReads(env, cards[i], s) && HeardReads(env, cards[j], t)
    ensures cards[j].nodeId in favourites ==> cards[i].nodeId in favourites
    ensures (cards[i].nodeId in favourites) == (cards[j].nodeId in favourites) ==> s == t || Precedes(s, t, Desc)
  {
    var (a, b) := (cards[i], cards[j]);
    assert SortComparator(env, LastHeard, favourites)(a, b) <= 0;
    if (a.nodeId in favourites) == (b.nodeId in favourites) {
      assert Comparator(env, LastHeard)(a, b) <= 0;
    }
  }

  /** By name: in the order of the locale, forwards. */
  lemma ByName(env: Browser, favourites: set<string>, nodes: seq<Node>, cards: seq<Node>, i: nat, j: nat,
               m: string, n: string)
    requires StablySorted(SortComparator(env, Name, favourites), nodes, cards) && i < j < |cards|
    requires Titled(cards[i], m) && Titled(cards[j], n)
    ensures cards[j].nodeId in favourites ==> cards[i].nodeId in favourites
    ensures (cards[i].nodeId in favourites) == (cards[j].nodeId in favourites) ==> env.collate(m, n) <= 0
  {
    var (a, b) := (cards[i], cards[j]);
    assert SortComparator(env, Name, favourites)(a, b) <= 0;
    if (a.nodeId in favourites) == (b.nodeId in favourites) {
      assert Comparator(env, Name)(a, b) <= 0;
      assert m == DisplayName(a) && n == DisplayName(b);
    }
  }
}
