/** The channel list of the message page: starred channels first, otherwise in the server's order. */
module ChannelOrder {
  import opened Common
  import opened StableSorting

  datatype Channel = Channel(nodeId: string, name: string)

  datatype Entry = Entry(ch: Channel, idx: int)

  function Indexed(from: int, channels: seq<Channel>): seq<Entry>
    decreases channels
  {
    if channels == [] then [] else [Entry(channels[0], from)] + Indexed(from + 1, channels[1..])
  }

  function Channels(entries: seq<Entry>): seq<Channel> {
    if entries == [] then [] else [entries[0].ch] + Channels(entries[1..])
  }

  function ByIndex(): (Entry, Entry) -> int { (a: Entry, b: Entry) => a.idx - b.idx }

  function Starred(favourites: set<string>): Channel -> bool { (c: Channel) => c.nodeId in favourites }

  function StarredEntry(favourites: set<string>): Entry -> bool { (e: Entry) => e.ch.nodeId in favourites }

  function EntryComparator(favourites: set<string>): (Entry, Entry) -> int {
    (a: Entry, b: Entry) =>
      if (a.ch.nodeId in favourites) != (b.ch.nodeId in favourites)
      then (if a.ch.nodeId in favourites then -1 else 1)
      else a.idx - b.idx
  }

  /** `sorted` stands for what the browser's sort returns; without favourites the list is not touched. */
  function SortChannels(channels: seq<Channel>, favourites: set<string>, sorted: seq<Entry>): seq<Channel> {
    if favourites == {} then channels else Channels(sorted)
  }

  // ---------------------------------------------------------------- indexes

  lemma {:induction false} IndexedBounds(from: int, s: seq<Channel>, e: Entry)
    requires e in Indexed(from, s)
    ensures from <= e.idx < from + |s| && e.ch == s[e.idx - from]
    decreases s
  {
    if e != Entry(s[0], from) { IndexedBounds(from + 1, s[1..], e); }
  }

  lemma {:induction false} FilteredIsOrdered(from: int, s: seq<Channel>, p: Entry -> bool)
    ensures Ordered(ByIndex(), Filter(p, Indexed(from, s)))
    decreases s
  {
    if s != [] {
      FilteredIsOrdered(from + 1, s[1..], p);
      var rest := Filter(p, Indexed(from + 1, s[1..]));
      forall e | e in rest ensures e.idx > from {
        FilterMember(p, Indexed(from + 1, s[1..]), e);
        IndexedBounds(from + 1, s[1..], e);
      }
      assert Indexed(from, s)[1..] == Indexed(from + 1, s[1..]);
    }
  }

  lemma {:induction false} ChannelsAppend(s: seq<Entry>, t: seq<Entry>)
    ensures Channels(s + t) == Channels(s) + Channels(t)
  {
    if s == [] {
      assert s + t == t;
    } else {
      ChannelsAppend(s[1..], t);
      assert (s + t)[0] == s[0] && (s + t)[1..] == s[1..] + t;
      ConcatAssoc([s[0].ch], Channels(s[1..]), Channels(t));
    }
  }

  lemma {:induction false} ChannelsOfFiltered(from: int, s: seq<Channel>, p: Entry -> bool, q: Channel -> bool)
    requires forall e: Entry :: p(e) == q(e.ch)
    ensures Channels(Filter(p, Indexed(from, s))) == Filter(q, s)
    decreases s
  {
    if s != [] {
      ChannelsOfFiltered(from + 1, s[1..], p, q);
      assert Indexed(from, s)[1..] == Indexed(from + 1, s[1..]);
      var (head, rest) := (Entry(s[0], from), Filter(p, Indexed(from + 1, s[1..])));
      assert p(head) == q(s[0]);
      assert Filter(p, Indexed(from, s)) == (if q(s[0]) then [head] else []) + rest;
      ChannelsAppend(if q(s[0]) then [head] else [], rest);
    }
  }

  // ---------------------------------------------------------------- the list shown

  lemma NoTwoEntriesTie(favourites: set<string>, channels: seq<Channel>, x: Entry, y: Entry)
    requires x in Indexed(0, channels) && y in Indexed(0, channels)
    requires Pinned(StarredEntry(favourites), ByIndex())(x, y) == 0
    ensures x == y
  {
    IndexedBounds(0, channels, x);
    IndexedBounds(0, channels, y);
  }

  lemma InOrderIsPinnedFirst(favourites: set<string>, channels: seq<Channel>, sorted: seq<Entry>)
    requires Ordered(EntryComparator(favourites), sorted) && multiset(sorted) == multiset(Indexed(0, channels))
    ensures sorted == PinnedFirst(StarredEntry(favourites), ByIndex(), Indexed(0, channels))
  {
    var (pin, s) := (StarredEntry(favourites), Indexed(0, channels));
    var cmp := Pinned(pin, ByIndex());
    assert Ordered(cmp, sorted);
    assert Consistent(ByIndex());
    hide Indexed, ByIndex, EntryComparator;
    PinnedIsConsistent(pin, ByIndex());
    hide Pinned;
    forall x, y | x in sorted && y in sorted && cmp(x, y) == 0 ensures x == y {
      assert x in multiset(s) && y in multiset(s);
      NoTwoEntriesTie(favourites, channels, x, y);
    }
    StableSortSorts(cmp, s);
    StablySortedPermutes(cmp, s, StableSort(cmp, s));
    StrictOrderIsUnique(cmp, sorted, StableSort(cmp, s));
    PinnedSortSplits(pin, ByIndex(), s, sorted);
  }

  lemma InOrderSplits(favourites: set<string>, channels: seq<Channel>, sorted: seq<Entry>)
    requires Ordered(EntryComparator(favourites), sorted) && multiset(sorted) == multiset(Indexed(0, channels))
    ensures sorted == Filter(StarredEntry(favourites), Indexed(0, channels))
                      + Filter(Not(StarredEntry(favourites)), Indexed(0, channels))
  {
    var (pin, s) := (StarredEntry(favourites), Indexed(0, channels));
    InOrderIsPinnedFirst(favourites, channels, sorted);
    FilteredIsOrdered(0, channels, pin);
    FilteredIsOrdered(0, channels, Not(pin));
    assert Consistent(ByIndex());
    OrderedStays(ByIndex(), Filter(pin, s));
    OrderedStays(ByIndex(), Filter(Not(pin), s));
  }

  /** However the browser sorts, stably or not, the list is the starred channels followed by the rest, each in
      the server's order. */
  lemma SortChannelsResult(favourites: set<string>, channels: seq<Channel>, sorted: seq<Entry>)
    requires Ordered(EntryComparator(favourites), sorted) && multiset(sorted) == multiset(Indexed(0, channels))
    ensures SortChannels(channels, favourites, sorted)
            == Filter(Starred(favourites), channels) + Filter(Not(Starred(favourites)), channels)
  {
    hide Filter, Channels, Indexed, Ordered, EntryComparator;
    if favourites == {} {
      NoneStarred(channels, Not(Starred(favourites)), Starred(favourites));
    } else {
      InOrderSplits(favourites, channels, sorted);
      ChannelsOfSplit(favourites, channels);
    }
  }

  lemma ChannelsOfSplit(favourites: set<string>, channels: seq<Channel>)
    ensures var (pin, s) := (StarredEntry(favourites), Indexed(0, channels));
            Channels(Filter(pin, s) + Filter(Not(pin), s))
            == Filter(Starred(favourites), channels) + Filter(Not(Starred(favourites)), channels)
  {
    hide Filter, Channels, Indexed;
    var (pin, s) := (StarredEntry(favourites), Indexed(0, channels));
    ChannelsAppend(Filter(pin, s), Filter(Not(pin), s));
    ChannelsOfFiltered(0, channels, pin, Starred(favourites));
    ChannelsOfFiltered(0, channels, Not(pin), Not(Starred(favourites)));
  }

  lemma {:induction false} NoneStarred(s: seq<Channel>, all: Channel -> bool, none: Channel -> bool)
    requires forall c :: all(c) && !none(c)
    ensures Filter(all, s) == s && Filter(none, s) == []
  {
    if s != [] { NoneStarred(s[1..], all, none); }
  }
}
