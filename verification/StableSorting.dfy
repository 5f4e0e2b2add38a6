/** What a stable sort by a consistent comparator must return, and that this fixes its result whatever the
    algorithm: the contract of `Array.prototype.sort` (ECMAScript, section "Array.prototype.sort"). */
module StableSorting {
  import opened Common

  /** A comparator that orders any two values one way only and is transitive. */
  ghost predicate Consistent<T(!new)>(cmp: (T, T) -> int) {
    && (forall a, b :: cmp(a, b) < 0 <==> cmp(b, a) > 0)
    && (forall a, b, c {:trigger cmp(a, b), cmp(b, c)} :: cmp(a, b) <= 0 && cmp(b, c) <= 0 ==> cmp(a, c) <= 0)
  }

  predicate Ordered<T>(cmp: (T, T) -> int, s: seq<T>) {
    forall i, j :: 0 <= i < j < |s| ==> cmp(s[i], s[j]) <= 0
  }

  /** The elements of `s` that compare equal to `x`, in their order. */
  function Ties<T>(cmp: (T, T) -> int, x: T, s: seq<T>): seq<T> {
    if s == [] then [] else (if cmp(x, s[0]) == 0 then [s[0]] else []) + Ties(cmp, x, s[1..])
  }

  /** `t` is `s` sorted stably: in order, and elements that tie keep their relative order. */
  ghost predicate StablySorted<T(!new)>(cmp: (T, T) -> int, s: seq<T>, t: seq<T>) {
    Ordered(cmp, t) && forall x :: Ties(cmp, x, t) == Ties(cmp, x, s)
  }

  function Filter<T>(p: T -> bool, s: seq<T>): seq<T> {
    if s == [] then [] else (if p(s[0]) then [s[0]] else []) + Filter(p, s[1..])
  }

  function Not<T>(p: T -> bool): T -> bool { y => !p(y) }

  // ---------------------------------------------------------------- the contract fixes the result

  function One<T>(cmp: (T, T) -> int, x: T, y: T): seq<T> { if cmp(x, y) == 0 then [y] else [] }

  lemma TiesCons<T>(cmp: (T, T) -> int, x: T, head: T, tail: seq<T>)
    ensures Ties(cmp, x, [head] + tail) == One(cmp, x, head) + Ties(cmp, x, tail)
  {
    assert ([head] + tail)[1..] == tail;
  }

  lemma {:induction false} TiesMember<T>(cmp: (T, T) -> int, x: T, s: seq<T>, y: T)
    ensures y in Ties(cmp, x, s) <==> y in s && cmp(x, y) == 0
  {
    if s != [] { TiesMember(cmp, x, s[1..], y); }
  }

  /** A stable sort returns a permutation. */
  lemma StablySortedPermutes<T(!new)>(cmp: (T, T) -> int, s: seq<T>, t: seq<T>)
    requires Consistent(cmp) && StablySorted(cmp, s, t)
    ensures multiset(t) == multiset(s)
  {
    forall y ensures multiset(t)[y] == multiset(s)[y] {
      TiesCount(cmp, y, s);
      TiesCount(cmp, y, t);
    }
  }

  lemma {:induction false} TiesCount<T(!new)>(cmp: (T, T) -> int, y: T, s: seq<T>)
    requires Consistent(cmp)
    ensures multiset(Ties(cmp, y, s))[y] == multiset(s)[y]
  {
    if s != [] {
      TiesCount(cmp, y, s[1..]);
      assert s == [s[0]] + s[1..];
      assert cmp(y, y) == 0;
    }
  }

  /** Two stable sorts of one list agree. */
  lemma {:induction false} StableSortIsUnique<T(!new)>(cmp: (T, T) -> int, s: seq<T>, t: seq<T>, u: seq<T>)
    requires Consistent(cmp) && StablySorted(cmp, s, t) && StablySorted(cmp, s, u)
    ensures t == u
  {
    SameTiesSameList(cmp, t, u);
  }

  lemma HeadIsLeast<T(!new)>(cmp: (T, T) -> int, t: seq<T>, u: seq<T>)
    requires Consistent(cmp) && Ordered(cmp, u) && t != []
    requires forall x :: Ties(cmp, x, t) == Ties(cmp, x, u)
    ensures u != [] && cmp(u[0], t[0]) <= 0
  {
    assert cmp(t[0], t[0]) == 0;
    TiesMember(cmp, t[0], t, t[0]);
    assert t[0] in Ties(cmp, t[0], u);
    TiesMember(cmp, t[0], u, t[0]);
  }

  lemma TiesHead<T(!new)>(cmp: (T, T) -> int, t: seq<T>)
    requires Consistent(cmp) && t != []
    ensures Ties(cmp, t[0], t) != [] && Ties(cmp, t[0], t)[0] == t[0]
  {
    assert cmp(t[0], t[0]) == 0;
  }

  lemma {:induction false} TiesOfEquals<T(!new)>(cmp: (T, T) -> int, x: T, y: T, t: seq<T>)
    requires Consistent(cmp) && cmp(x, y) <= 0 && cmp(y, x) <= 0
    ensures Ties(cmp, x, t) == Ties(cmp, y, t)
  {
    if t != [] {
      TiesOfEquals(cmp, x, y, t[1..]);
      var z := t[0];
      assert cmp(x, z) <= 0 <==> cmp(y, z) <= 0;
      assert cmp(z, x) <= 0 <==> cmp(z, y) <= 0;
    }
  }

  lemma TiesOfTails<T(!new)>(cmp: (T, T) -> int, t: seq<T>, u: seq<T>, x: T)
    requires t != [] && u != [] && t[0] == u[0] && Ties(cmp, x, t) == Ties(cmp, x, u)
    ensures Ties(cmp, x, t[1..]) == Ties(cmp, x, u[1..])
  {
    hide Ties;
    var head := One(cmp, x, t[0]);
    assert t == [t[0]] + t[1..] && u == [u[0]] + u[1..];
    TiesCons(cmp, x, t[0], t[1..]);
    TiesCons(cmp, x, u[0], u[1..]);
    assert (head + Ties(cmp, x, t[1..]))[|head|..] == Ties(cmp, x, t[1..]);
    assert (head + Ties(cmp, x, u[1..]))[|head|..] == Ties(cmp, x, u[1..]);
  }

  lemma SameHead<T(!new)>(cmp: (T, T) -> int, t: seq<T>, u: seq<T>)
    requires Consistent(cmp) && Ordered(cmp, t) && Ordered(cmp, u) && t != []
    requires forall x :: Ties(cmp, x, t) == Ties(cmp, x, u)
    ensures u != [] && t[0] == u[0]
  {
    hide Ties;
    HeadIsLeast(cmp, t, u);
    HeadIsLeast(cmp, u, t);
    TiesHead(cmp, t);
    TiesHead(cmp, u);
    TiesOfEquals(cmp, t[0], u[0], t);
  }

  lemma {:induction false} SameTiesSameList<T(!new)>(cmp: (T, T) -> int, t: seq<T>, u: seq<T>)
    requires Consistent(cmp) && Ordered(cmp, t) && Ordered(cmp, u)
    requires forall x :: Ties(cmp, x, t) == Ties(cmp, x, u)
    ensures t == u
    decreases t
  {
    hide Ties, Consistent;
    if t == [] {
      if u != [] { SameHead(cmp, u, t); }
    } else {
      SameHead(cmp, t, u);
      forall x ensures Ties(cmp, x, t[1..]) == Ties(cmp, x, u[1..]) { TiesOfTails(cmp, t, u, x); }
      SameTiesSameList(cmp, t[1..], u[1..]);
      assert t == [t[0]] + t[1..] && u == [u[0]] + u[1..];
    }
  }

  // ---------------------------------------------------------------- a stable sort exists

  function Insert<T>(cmp: (T, T) -> int, x: T, s: seq<T>): seq<T> {
    if s == [] then [x]
    else if cmp(x, s[0]) <= 0 then [x] + s
    else [s[0]] + Insert(cmp, x, s[1..])
  }

  function StableSort<T>(cmp: (T, T) -> int, s: seq<T>): seq<T> {
    if s == [] then [] else Insert(cmp, s[0], StableSort(cmp, s[1..]))
  }

  lemma {:induction false} InsertMember<T>(cmp: (T, T) -> int, x: T, s: seq<T>, y: T)
    ensures y in Insert(cmp, x, s) <==> y == x || y in s
  {
    if s != [] && cmp(x, s[0]) > 0 { InsertMember(cmp, x, s[1..], y); }
  }

  lemma OrderedCons<T>(cmp: (T, T) -> int, x: T, s: seq<T>)
    requires Ordered(cmp, s) && forall y :: y in s ==> cmp(x, y) <= 0
    ensures Ordered(cmp, [x] + s)
  {
    var r := [x] + s;
    forall i, j | 0 <= i < j < |r| ensures cmp(r[i], r[j]) <= 0 {
      assert r[j] == s[j - 1];
      if i > 0 { assert r[i] == s[i - 1]; }
    }
  }

  lemma {:induction false} InsertKeepsOrder<T(!new)>(cmp: (T, T) -> int, x: T, s: seq<T>)
    requires Consistent(cmp) && Ordered(cmp, s)
    ensures Ordered(cmp, Insert(cmp, x, s))
  {
    if s == [] {
    } else if cmp(x, s[0]) <= 0 {
      forall y | y in s ensures cmp(x, y) <= 0 {
        assert cmp(s[0], s[0]) == 0;
        assert cmp(s[0], y) <= 0;
      }
      OrderedCons(cmp, x, s);
    } else {
      InsertKeepsOrder(cmp, x, s[1..]);
      assert cmp(s[0], x) <= 0;
      forall y | y in Insert(cmp, x, s[1..]) ensures cmp(s[0], y) <= 0 { InsertMember(cmp, x, s[1..], y); }
      OrderedCons(cmp, s[0], Insert(cmp, x, s[1..]));
    }
  }

  lemma {:induction false} InsertGoesFirst<T(!new)>(cmp: (T, T) -> int, x: T, s: seq<T>, y: T)
    requires Consistent(cmp)
    ensures Ties(cmp, y, Insert(cmp, x, s)) == One(cmp, y, x) + Ties(cmp, y, s)
  {
    hide Ties;
    if s == [] || cmp(x, s[0]) <= 0 {
      TiesCons(cmp, y, x, s);
      assert [x] + s == if s == [] then [x] else [x] + s;
    } else {
      InsertGoesFirst(cmp, x, s[1..], y);
      assert s == [s[0]] + s[1..];
      TiesCons(cmp, y, s[0], s[1..]);
      TiesCons(cmp, y, s[0], Insert(cmp, x, s[1..]));
      NotBoth(cmp, y, x, s[0]);
    }
  }

  lemma NotBoth<T(!new)>(cmp: (T, T) -> int, y: T, x: T, z: T)
    requires Consistent(cmp) && cmp(x, z) > 0
    ensures One(cmp, y, x) == [] || One(cmp, y, z) == []
  {
    assert cmp(x, y) <= 0 && cmp(y, z) <= 0 ==> cmp(x, z) <= 0;
  }

  /** Some list always meets the contract. */
  lemma {:induction false} StableSortSorts<T(!new)>(cmp: (T, T) -> int, s: seq<T>)
    requires Consistent(cmp)
    ensures StablySorted(cmp, s, StableSort(cmp, s))
  {
    if s != [] {
      StableSortSorts(cmp, s[1..]);
      InsertKeepsOrder(cmp, s[0], StableSort(cmp, s[1..]));
      forall y ensures Ties(cmp, y, StableSort(cmp, s)) == Ties(cmp, y, s) {
        InsertGoesFirst(cmp, s[0], StableSort(cmp, s[1..]), y);
      }
    }
  }

  /** A list already in order stays as it is. */
  lemma OrderedStays<T(!new)>(cmp: (T, T) -> int, s: seq<T>)
    requires Consistent(cmp) && Ordered(cmp, s)
    ensures StableSort(cmp, s) == s
  {
    StableSortSorts(cmp, s);
    StableSortIsUnique(cmp, s, StableSort(cmp, s), s);
  }

  lemma SameLeast<T(!new)>(cmp: (T, T) -> int, t: seq<T>, u: seq<T>)
    requires Consistent(cmp) && Ordered(cmp, t) && Ordered(cmp, u) && t != [] && u != []
    requires t[0] in u && u[0] in t
    ensures cmp(t[0], u[0]) == 0
  {
    assert cmp(t[0], t[0]) == 0 && cmp(u[0], u[0]) == 0;
    assert cmp(t[0], u[0]) <= 0 && cmp(u[0], t[0]) <= 0;
  }

  lemma SameRest<T>(t: seq<T>, u: seq<T>)
    requires t != [] && u != [] && t[0] == u[0] && multiset(t) == multiset(u)
    ensures multiset(t[1..]) == multiset(u[1..])
  {
    assert t == [t[0]] + t[1..] && u == [u[0]] + u[1..];
    assert multiset(t[1..]) == multiset(t) - multiset{t[0]};
    assert multiset(u[1..]) == multiset(u) - multiset{u[0]};
  }

  /** Where no two listed elements tie, being in order alone fixes the list: stability is not needed. */
  lemma {:induction false} StrictOrderIsUnique<T(!new)>(cmp: (T, T) -> int, t: seq<T>, u: seq<T>)
    requires Consistent(cmp) && Ordered(cmp, t) && Ordered(cmp, u) && multiset(t) == multiset(u)
    requires forall x, y :: x in t && y in t && cmp(x, y) == 0 ==> x == y
    ensures t == u
    decreases t
  {
    hide Consistent;
    assert |t| == |multiset(t)| == |u|;
    if t != [] {
      assert t[0] in multiset(u) && u[0] in multiset(t);
      SameLeast(cmp, t, u);
      SameRest(t, u);
      StrictOrderIsUnique(cmp, t[1..], u[1..]);
      assert t == [t[0]] + t[1..] && u == [u[0]] + u[1..];
    }
  }

  // ---------------------------------------------------------------- pinning

  /** Elements satisfying `pin` come first; within a group `cmp` decides. */
  function Pinned<T>(pin: T -> bool, cmp: (T, T) -> int): (T, T) -> int {
    (a, b) => if pin(a) != pin(b) then (if pin(a) then -1 else 1) else cmp(a, b)
  }

  lemma PinnedIsConsistent<T(!new)>(pin: T -> bool, cmp: (T, T) -> int)
    requires Consistent(cmp)
    ensures Consistent(Pinned(pin, cmp))
  {
    var c := Pinned(pin, cmp);
    forall x, y, z | c(x, y) <= 0 && c(y, z) <= 0 ensures c(x, z) <= 0 {}
  }

  lemma {:induction false} FilterMember<T>(p: T -> bool, s: seq<T>, y: T)
    ensures y in Filter(p, s) <==> y in s && p(y)
  {
    if s != [] { FilterMember(p, s[1..], y); }
  }

  lemma {:induction false} TiesOfPinned<T(!new)>(pin: T -> bool, group: T -> bool, cmp: (T, T) -> int, x: T, s: seq<T>)
    requires forall y :: group(y) <==> pin(y) == pin(x)
    ensures Ties(Pinned(pin, cmp), x, s) == Ties(cmp, x, Filter(group, s))
  {
    if s != [] {
      TiesOfPinned(pin, group, cmp, x, s[1..]);
      var rest := Filter(group, s[1..]);
      if group(s[0]) {
        assert Filter(group, s) == [s[0]] + rest;
        TiesAppend(cmp, x, [s[0]], rest);
        assert Ties(cmp, x, [s[0]]) == if cmp(x, s[0]) == 0 then [s[0]] else [];
        assert Pinned(pin, cmp)(x, s[0]) == cmp(x, s[0]);
      } else {
        assert Filter(group, s) == rest;
        assert Pinned(pin, cmp)(x, s[0]) != 0;
      }
    }
  }

  lemma {:induction false} TiesAppend<T>(cmp: (T, T) -> int, x: T, s: seq<T>, t: seq<T>)
    ensures Ties(cmp, x, s + t) == Ties(cmp, x, s) + Ties(cmp, x, t)
  {
    if s == [] {
      assert s + t == t;
    } else {
      hide Ties;
      TiesAppend(cmp, x, s[1..], t);
      TiesCons(cmp, x, s[0], s[1..]);
      TiesCons(cmp, x, s[0], s[1..] + t);
      ConsAssoc(s, t);
      assert s == [s[0]] + s[1..];
      ConcatAssoc(One(cmp, x, s[0]), Ties(cmp, x, s[1..]), Ties(cmp, x, t));
    }
  }

  lemma {:induction false} NoTies<T>(cmp: (T, T) -> int, x: T, s: seq<T>)
    requires forall y :: y in s ==> cmp(x, y) != 0
    ensures Ties(cmp, x, s) == []
  {
    if s != [] { NoTies(cmp, x, s[1..]); }
  }

  lemma {:induction false} SameTies<T>(c: (T, T) -> int, d: (T, T) -> int, x: T, s: seq<T>)
    requires forall y :: y in s ==> c(x, y) == d(x, y)
    ensures Ties(c, x, s) == Ties(d, x, s)
  {
    if s != [] { SameTies(c, d, x, s[1..]); }
  }

  lemma {:induction false} SameFilter<T>(p: T -> bool, q: T -> bool, s: seq<T>)
    requires forall y :: y in s ==> p(y) == q(y)
    ensures Filter(p, s) == Filter(q, s)
  {
    if s != [] { SameFilter(p, q, s[1..]); }
  }

  lemma StableSortMember<T(!new)>(cmp: (T, T) -> int, s: seq<T>, y: T)
    requires Consistent(cmp)
    ensures y in StableSort(cmp, s) <==> y in s
  {
    StableSortSorts(cmp, s);
    StablySortedPermutes(cmp, s, StableSort(cmp, s));
    assert y in StableSort(cmp, s) <==> y in multiset(s);
  }

  /** The pinned elements sorted, then the others sorted. */
  function PinnedFirst<T>(pin: T -> bool, cmp: (T, T) -> int, s: seq<T>): seq<T> {
    StableSort(cmp, Filter(pin, s)) + StableSort(cmp, Filter(Not(pin), s))
  }

  lemma PinnedFirstIsOrdered<T(!new)>(pin: T -> bool, cmp: (T, T) -> int, s: seq<T>)
    requires Consistent(cmp)
    ensures Ordered(Pinned(pin, cmp), PinnedFirst(pin, cmp, s))
  {
    var (a, b) := (Filter(pin, s), Filter(Not(pin), s));
    StableSortSorts(cmp, a);
    StableSortSorts(cmp, b);
    forall y | y in StableSort(cmp, a) ensures pin(y) { StableSortMember(cmp, a, y); FilterMember(pin, s, y); }
    forall y | y in StableSort(cmp, b) ensures !pin(y) {
      StableSortMember(cmp, b, y);
      FilterMember(Not(pin), s, y);
    }
  }

  lemma PinnedFirstKeepsTies<T(!new)>(pin: T -> bool, cmp: (T, T) -> int, s: seq<T>, x: T)
    requires Consistent(cmp)
    ensures Ties(Pinned(pin, cmp), x, PinnedFirst(pin, cmp, s)) == Ties(Pinned(pin, cmp), x, s)
  {
    var c := Pinned(pin, cmp);
    var (a, b) := (Filter(pin, s), Filter(Not(pin), s));
    var (sa, sb) := (StableSort(cmp, a), StableSort(cmp, b));
    TiesAppend(c, x, sa, sb);
    TiesOfPinned(pin, y => pin(y) == pin(x), cmp, x, s);
    StableSortSorts(cmp, a);
    StableSortSorts(cmp, b);
    forall y ensures y in sa ==> pin(y) { StableSortMember(cmp, a, y); FilterMember(pin, s, y); }
    forall y ensures y in sb ==> !pin(y) { StableSortMember(cmp, b, y); FilterMember(Not(pin), s, y); }
    if pin(x) {
      NoTies(c, x, sb);
      SameTies(c, cmp, x, sa);
      SameFilter(pin, y => pin(y) == pin(x), s);
    } else {
      NoTies(c, x, sa);
      SameTies(c, cmp, x, sb);
      SameFilter(Not(pin), y => pin(y) == pin(x), s);
    }
  }

  /** Any stable sort by the pinned comparator is the pinned elements sorted, then the rest sorted. */
  lemma PinnedSortSplits<T(!new)>(pin: T -> bool, cmp: (T, T) -> int, s: seq<T>, t: seq<T>)
    requires Consistent(cmp) && StablySorted(Pinned(pin, cmp), s, t)
    ensures t == PinnedFirst(pin, cmp, s)
  {
    PinnedIsConsistent(pin, cmp);
    PinnedFirstIsOrdered(pin, cmp, s);
    forall x ensures Ties(Pinned(pin, cmp), x, PinnedFirst(pin, cmp, s)) == Ties(Pinned(pin, cmp), x, s) {
      PinnedFirstKeepsTies(pin, cmp, s, x);
    }
    StableSortIsUnique(Pinned(pin, cmp), s, t, PinnedFirst(pin, cmp, s));
  }
}
