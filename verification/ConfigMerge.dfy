/** The recursive merge of a YAML mapping into a dataclass instance, and the traversal that reports the
    keys it ignored. */
module ConfigMerge {
  import opened Common

  /** Parsed YAML. A mapping keeps its order; its keys are distinct (`Distinct`). */
  datatype Value =
    | Null
    | Bool(b: bool)
    | Number(n: int)
    | Text(s: string)
    | List(items: seq<Value>)
    | Dict(entries: Entries)

  datatype Entries = Nil | Cons(key: string, value: Value, rest: Entries)

  /** A dataclass field: a nested dataclass instance, or any other value. */
  datatype Field = Leaf(v: Value) | Section(fields: Fields)

  type Fields = map<string, Field>

  function Keys(o: Entries): set<string> {
    match o
    case Nil => {}
    case Cons(k, _, rest) => {k} + Keys(rest)
  }

  function Get(o: Entries, k: string): Value
    requires k in Keys(o)
  {
    if o.key == k then o.value else Get(o.rest, k)
  }

  ghost predicate Distinct(o: Entries) {
    match o
    case Nil => true
    case Cons(k, v, rest) => k !in Keys(rest) && DistinctIn(v) && Distinct(rest)
  }

  ghost predicate DistinctIn(v: Value) { v.Dict? ==> Distinct(v.entries) }

  lemma {:induction false} DistinctGet(o: Entries, k: string)
    requires Distinct(o) && k in Keys(o)
    ensures DistinctIn(Get(o, k)) && Get(o, k) < o
  {
    if o.key != k {
      DistinctGet(o.rest, k);
    }
  }

  // ---------------------------------------------------------------- equal up to the order of keys

  lemma {:induction false} GetIsInside(o: Entries, k: string)
    requires k in Keys(o)
    ensures Get(o, k) < o
  {
    if o.key != k { GetIsInside(o.rest, k); }
  }

  /** Equal up to the order in which mappings list their keys, all the way down. */
  ghost predicate Alike(v: Value, w: Value)
    decreases v
  {
    if v.Dict? && w.Dict? then
      Keys(v.entries) == Keys(w.entries)
      && forall k :: k in Keys(v.entries) ==>
                       (GetIsInside(v.entries, k); Alike(Get(v.entries, k), Get(w.entries, k)))
    else if v.List? && w.List? then
      |v.items| == |w.items| && forall i :: 0 <= i < |v.items| ==> Alike(v.items[i], w.items[i])
    else v == w
  }

  ghost predicate AlikeFields(c: Fields, d: Fields) {
    (forall k :: k in c <==> k in d) && forall k :: k in c && k in d ==> AlikeField(c[k], d[k])
  }

  ghost predicate AlikeField(f: Field, g: Field)
    decreases f
  {
    if f.Leaf? && g.Leaf? then Alike(f.v, g.v)
    else
      f.Section? && g.Section?
      && (forall k :: k in f.fields <==> k in g.fields)
      && forall k :: k in f.fields && k in g.fields ==> AlikeField(f.fields[k], g.fields[k])
  }

  lemma {:induction false} AlikeItself(v: Value)
    ensures Alike(v, v)
    decreases v
  {
    if v.Dict? {
      forall k | k in Keys(v.entries)
        ensures Alike(Get(v.entries, k), Get(v.entries, k))
      {
        GetIsInside(v.entries, k);
        AlikeItself(Get(v.entries, k));
      }
    } else if v.List? {
      forall i | 0 <= i < |v.items|
        ensures Alike(v.items[i], v.items[i])
      {
        AlikeItself(v.items[i]);
      }
    }
  }

  lemma {:induction false} FieldAlikeItself(f: Field)
    ensures AlikeField(f, f)
    decreases f
  {
    hide Alike;
    if f.Leaf? {
      AlikeItself(f.v);
    } else {
      forall k | k in f.fields
        ensures AlikeField(f.fields[k], f.fields[k])
      {
        FieldAlikeItself(f.fields[k]);
      }
    }
  }

  lemma FieldsAlikeThemselves(c: Fields)
    ensures AlikeFields(c, c)
  {
    forall k | k in c ensures AlikeField(c[k], c[k]) { FieldAlikeItself(c[k]); }
  }

  // ---------------------------------------------------------------- the merge

  /** One field overridden by one value. */
  function MergeField(f: Field, v: Value): Field
    decreases v, 1
  {
    if f.Section? && v.Dict? then Section(Merge(f.fields, v.entries)) else Leaf(v)
  }

  /** `_merge_dataclass`, entry by entry. */
  function Merge(c: Fields, o: Entries): Fields
    decreases o, 0
  {
    match o
    case Nil => c
    case Cons(k, v, rest) => Merge(if k in c then c[k := MergeField(c[k], v)] else c, rest)
  }

  /** The loop over the entries of the overrides; a nested dataclass is merged by the recursive call. */
  method MergeDataclass(instance: Fields, overrides: Entries) returns (c: Fields)
    ensures c == Merge(instance, overrides)
    decreases overrides
  {
    c := instance;
    var o := overrides;
    while o.Cons?
      invariant Merge(c, o) == Merge(instance, overrides)
      invariant o == overrides || o < overrides
      decreases o
    {
      if o.key in c {
        if c[o.key].Section? && o.value.Dict? {
          var merged := MergeDataclass(c[o.key].fields, o.value.entries);
          c := c[o.key := Section(merged)];
        } else {
          c := c[o.key := Leaf(o.value)];
        }
      }
      o := o.rest;
    }
  }

  /** The merge, key by key: a key that is not overridden is untouched, and no key appears or goes. */
  lemma {:induction false} MergeAt(c: Fields, o: Entries, k: string)
    requires Distinct(o)
    ensures k in Merge(c, o) <==> k in c
    ensures k in c ==> Merge(c, o)[k] == if k in Keys(o) then MergeField(c[k], Get(o, k)) else c[k]
    decreases o
  {
    if o.Cons? {
      MergeAt(if o.key in c then c[o.key := MergeField(c[o.key], o.value)] else c, o.rest, k);
    }
  }

  lemma SameFields(a: Fields, b: Fields)
    requires forall k :: k in a <==> k in b
    requires forall k :: k in a && k in b ==> a[k] == b[k]
    ensures a == b
  {
  }

  /** Merging the same overrides twice is merging them once. */
  lemma {:induction false} MergeIsIdempotent(c: Fields, o: Entries)
    requires Distinct(o)
    ensures Merge(Merge(c, o), o) == Merge(c, o)
    decreases o
  {
    hide Merge, MergeField;
    var once := Merge(c, o);
    forall k: string
      ensures k in Merge(once, o) <==> k in once
      ensures k in once ==> Merge(once, o)[k] == once[k]
    {
      MergeAt(c, o, k);
      MergeAt(once, o, k);
      if k in c && k in Keys(o) {
        DistinctGet(o, k);
        FieldTwice(c[k], Get(o, k));
      }
    }
    SameFields(Merge(once, o), once);
  }

  lemma {:induction false} FieldTwice(f: Field, v: Value)
    requires DistinctIn(v)
    ensures MergeField(MergeField(f, v), v) == MergeField(f, v)
    decreases v
  {
    if f.Section? && v.Dict? {
      MergeIsIdempotent(f.fields, v.entries);
    }
  }

  // ---------------------------------------------------------------- layers

  /** Layer b laid over layer a, following the schema c: only where c has a nested section and both layers
      give a mapping are the two combined; otherwise b's value stands. */
  function OverlayValue(f: Option<Field>, a: Value, b: Value): Value
    decreases a, 1
  {
    if f.Some? && f.value.Section? && a.Dict? && b.Dict?
    then Dict(Overlay(f.value.fields, a.entries, b.entries)) else b
  }

  function FieldAt(c: Fields, k: string): Option<Field> { if k in c then Some(c[k]) else None }

  function Overlay(c: Fields, a: Entries, b: Entries): Entries
    decreases a, 0
  {
    match a
    case Nil => b
    case Cons(k, v, rest) =>
      if k in Keys(b) then Cons(k, OverlayValue(FieldAt(c, k), v, Get(b, k)), Overlay(c, rest, Remove(b, k)))
      else Cons(k, v, Overlay(c, rest, b))
  }

  function Remove(o: Entries, k: string): (r: Entries)
    ensures Keys(r) == Keys(o) - {k}
  {
    match o
    case Nil => Nil
    case Cons(j, v, rest) => if j == k then Remove(rest, k) else Cons(j, v, Remove(rest, k))
  }

  lemma {:induction false} RemoveKeeps(o: Entries, k: string)
    requires Distinct(o)
    ensures Distinct(Remove(o, k))
    ensures forall j :: j in Keys(Remove(o, k)) ==> Get(Remove(o, k), j) == Get(o, j)
  {
    if o.Cons? {
      RemoveKeeps(o.rest, k);
    }
  }

  lemma {:induction false} OverlayAt(c: Fields, a: Entries, b: Entries, k: string)
    requires Distinct(a) && Distinct(b)
    ensures Keys(Overlay(c, a, b)) == Keys(a) + Keys(b)
    ensures k in Keys(a) + Keys(b) ==>
              Get(Overlay(c, a, b), k)
              == if k !in Keys(b) then Get(a, k)
                 else if k !in Keys(a) then Get(b, k)
                 else OverlayValue(FieldAt(c, k), Get(a, k), Get(b, k))
    decreases a
  {
    hide OverlayValue;
    if a.Cons? {
      RemoveKeeps(b, a.key);
      OverlayAt(c, a.rest, if a.key in Keys(b) then Remove(b, a.key) else b, k);
    }
  }

  lemma {:induction false} OverlayDistinct(c: Fields, a: Entries, b: Entries)
    requires Distinct(a) && Distinct(b)
    ensures Distinct(Overlay(c, a, b))
    decreases a, 0
  {
    if a.Cons? {
      var less := if a.key in Keys(b) then Remove(b, a.key) else b;
      RemoveKeeps(b, a.key);
      OverlayDistinct(c, a.rest, less);
      OverlayAt(c, a.rest, less, a.key);
      if a.key in Keys(b) {
        DistinctGet(b, a.key);
        OverlayValueDistinct(FieldAt(c, a.key), a.value, Get(b, a.key));
      }
    }
  }

  lemma {:induction false} OverlayValueDistinct(f: Option<Field>, a: Value, b: Value)
    requires DistinctIn(a) && DistinctIn(b)
    ensures DistinctIn(OverlayValue(f, a, b))
    decreases a, 1
  {
    if f.Some? && f.value.Section? && a.Dict? && b.Dict? {
      OverlayDistinct(f.value.fields, a.entries, b.entries);
    }
  }

  /** No nested section is first replaced by a plain value and then given a mapping. */
  ghost predicate CompatibleAt(f: Field, a: Value, b: Value)
    decreases a, 1
  {
    f.Section? && b.Dict? ==> a.Dict? && Compatible(f.fields, a.entries, b.entries)
  }

  ghost predicate Compatible(c: Fields, a: Entries, b: Entries)
    decreases a, 0
  {
    match a
    case Nil => true
    case Cons(k, v, rest) =>
      (k in c && k in Keys(b) ==> CompatibleAt(c[k], v, Get(b, k))) && Compatible(c, rest, b)
  }

  lemma {:induction false} CompatibleIff(c: Fields, a: Entries, b: Entries)
    requires Distinct(a)
    ensures Compatible(c, a, b)
       <==> forall k :: k in c && k in Keys(a) && k in Keys(b) ==> CompatibleAt(c[k], Get(a, k), Get(b, k))
  {
    hide CompatibleAt;
    if a.Cons? {
      CompatibleIff(c, a.rest, b);
      assert forall k :: k in Keys(a.rest) ==> Get(a, k) == Get(a.rest, k);
      assert forall k :: k in Keys(a) ==> k == a.key || k in Keys(a.rest);
    }
  }

  /** Merging layer a and then layer b is one merge of b laid over a. */
  lemma {:induction false} LayersCompose(c: Fields, a: Entries, b: Entries)
    requires Distinct(a) && Distinct(b) && Compatible(c, a, b)
    ensures Merge(Merge(c, a), b) == Merge(c, Overlay(c, a, b))
    decreases a, 0
  {
    hide Merge, MergeField, OverlayValue, Overlay, CompatibleAt;
    var o := Overlay(c, a, b);
    OverlayDistinct(c, a, b);
    CompatibleIff(c, a, b);
    forall k: string
      ensures k in Merge(Merge(c, a), b) <==> k in Merge(c, o)
      ensures k in Merge(c, o) ==> Merge(Merge(c, a), b)[k] == Merge(c, o)[k]
    {
      MergeAt(c, a, k);
      MergeAt(Merge(c, a), b, k);
      MergeAt(c, o, k);
      OverlayAt(c, a, b, k);
      if k in c && k in Keys(a) && k in Keys(b) {
        DistinctGet(a, k);
        DistinctGet(b, k);
        FieldsCompose(c[k], Get(a, k), Get(b, k));
      }
    }
    SameFields(Merge(Merge(c, a), b), Merge(c, o));
  }

  lemma {:induction false} FieldsCompose(f: Field, a: Value, b: Value)
    requires DistinctIn(a) && DistinctIn(b) && CompatibleAt(f, a, b)
    ensures MergeField(MergeField(f, a), b) == MergeField(f, OverlayValue(Some(f), a, b))
    decreases a, 1
  {
    if f.Section? && a.Dict? && b.Dict? {
      LayersCompose(f.fields, a.entries, b.entries);
    }
  }

  /** When a nested section is replaced and then given a mapping, no single layer has the same effect, not even up
      to the order of keys. */
  lemma {:induction false} NoSingleLayer(c: Fields, a: Entries, b: Entries, o: Entries)
    requires Distinct(a) && Distinct(b) && Distinct(o) && !Compatible(c, a, b)
    ensures !AlikeFields(Merge(Merge(c, a), b), Merge(c, o))
    decreases a, 0
  {
    hide Merge, MergeField, CompatibleAt, AlikeField;
    CompatibleIff(c, a, b);
    var k :| k in c && k in Keys(a) && k in Keys(b) && !CompatibleAt(c[k], Get(a, k), Get(b, k));
    MergeAt(c, a, k);
    MergeAt(Merge(c, a), b, k);
    MergeAt(c, o, k);
    DistinctGet(a, k);
    DistinctGet(b, k);
    if k in Keys(o) {
      DistinctGet(o, k);
    }
    NoSingleValue(c[k], Get(a, k), Get(b, k), if k in Keys(o) then Some(Get(o, k)) else None);
  }

  lemma {:induction false} NoSingleValue(f: Field, a: Value, b: Value, o: Option<Value>)
    requires DistinctIn(a) && DistinctIn(b) && (o.Some? ==> DistinctIn(o.value)) && !CompatibleAt(f, a, b)
    ensures !AlikeField(MergeField(MergeField(f, a), b), if o.None? then f else MergeField(f, o.value))
    decreases a, 1
  {
    hide Merge;
    if a.Dict? {
      MergeNothing(f.fields);
      NoSingleLayer(f.fields, a.entries, b.entries, Nil);
      if o.Some? && o.value.Dict? {
        NoSingleLayer(f.fields, a.entries, b.entries, o.value.entries);
      }
    }
  }

  lemma MergeNothing(c: Fields)
    ensures Merge(c, Nil) == c && Distinct(Nil)
  {
  }

  /** Two layers collapse into one exactly when they are compatible, whether the order of keys counts or not. */
  lemma LayersComposeIff(c: Fields, a: Entries, b: Entries)
    requires Distinct(a) && Distinct(b)
    ensures (exists o :: Distinct(o) && Merge(c, o) == Merge(Merge(c, a), b)) <==> Compatible(c, a, b)
    ensures (exists o :: Distinct(o) && AlikeFields(Merge(Merge(c, a), b), Merge(c, o))) <==> Compatible(c, a, b)
  {
    hide Merge, Compatible, Distinct, AlikeFields;
    if Compatible(c, a, b) {
      LayersCompose(c, a, b);
      OverlayDistinct(c, a, b);
      FieldsAlikeThemselves(Merge(Merge(c, a), b));
    } else {
      forall o | Distinct(o)
        ensures !AlikeFields(Merge(Merge(c, a), b), Merge(c, o)) && Merge(c, o) != Merge(Merge(c, a), b)
      {
        NoSingleLayer(c, a, b, o);
        FieldsAlikeThemselves(Merge(c, o));
      }
    }
  }

  // ---------------------------------------------------------------- the unknown-key report

  /** `_collect_unknown_keys` */
  function UnknownKeys(c: Fields, o: Entries, prefix: string): seq<string>
    decreases o
  {
    match o
    case Nil => []
    case Cons(k, v, rest) =>
      (if k !in c then [prefix + k]
       else if c[k].Section? && v.Dict? then UnknownKeys(c[k].fields, v.entries, prefix + k + ".")
       else [])
      + UnknownKeys(c, rest, prefix)
  }

  method CollectUnknownKeys(instance: Fields, overrides: Entries, prefix: string) returns (unknown: seq<string>)
    ensures unknown == UnknownKeys(instance, overrides, prefix)
    decreases overrides
  {
    unknown := [];
    var o := overrides;
    while o.Cons?
      invariant unknown + UnknownKeys(instance, o, prefix) == UnknownKeys(instance, overrides, prefix)
      invariant o == overrides || o < overrides
      decreases o
    {
      var found: seq<string> := [];
      if o.key !in instance {
        found := [prefix + o.key];
      } else if instance[o.key].Section? && o.value.Dict? {
        found := CollectUnknownKeys(instance[o.key].fields, o.value.entries, prefix + o.key + ".");
      }
      assert UnknownKeys(instance, o, prefix) == found + UnknownKeys(instance, o.rest, prefix);
      ConcatAssoc(unknown, found, UnknownKeys(instance, o.rest, prefix));
      unknown := unknown + found;
      o := o.rest;
    }
    assert unknown + [] == unknown;
  }

  /** The report computed after the merge, as the code does, is the report computed before it. */
  lemma ReportUnchangedByMerge(c: Fields, o: Entries, prefix: string)
    requires Distinct(o)
    ensures UnknownKeys(Merge(c, o), o, prefix) == UnknownKeys(c, o, prefix)
    decreases o, 1
  {
    forall k: string
      ensures k in Merge(c, o) <==> k in c
      ensures k in c && k in Keys(o) ==> Merge(c, o)[k] == MergeField(c[k], Get(o, k))
    {
      MergeAt(c, o, k);
    }
    SuffixReport(c, Merge(c, o), o, prefix);
  }

  lemma {:induction false} SuffixReport(c: Fields, merged: Fields, o: Entries, prefix: string)
    requires Distinct(o)
    requires forall k :: k in merged <==> k in c
    requires forall k :: k in c && k in Keys(o) ==> merged[k] == MergeField(c[k], Get(o, k))
    ensures UnknownKeys(merged, o, prefix) == UnknownKeys(c, o, prefix)
    decreases o, 0
  {
    if o.Cons? {
      assert forall k :: k in Keys(o.rest) ==> Get(o, k) == Get(o.rest, k);
      SuffixReport(c, merged, o.rest, prefix);
      if o.key in c && c[o.key].Section? && o.value.Dict? {
        ReportUnchangedByMerge(c[o.key].fields, o.value.entries, prefix + o.key + ".");
      }
    }
  }

  // ---------------------------------------------------------------- the report is what was not applied

  type Path = seq<string>

  /** The same report as paths, before they are written with dots. */
  function UnknownPaths(c: Fields, o: Entries, at: Path): seq<Path>
    decreases o
  {
    match o
    case Nil => []
    case Cons(k, v, rest) =>
      (if k !in c then [at + [k]]
       else if c[k].Section? && v.Dict? then UnknownPaths(c[k].fields, v.entries, at + [k])
       else [])
      + UnknownPaths(c, rest, at)
  }

  /** "a.b." for [a, b] */
  function Dotted(at: Path): string {
    if at == [] then "" else Dotted(at[..|at| - 1]) + at[|at| - 1] + "."
  }

  function Written(ps: seq<Path>): seq<string> {
    if ps == [] then []
    else
      [if ps[0] == [] then "" else Dotted(ps[0][..|ps[0]| - 1]) + ps[0][|ps[0]| - 1]] + Written(ps[1..])
  }

  lemma {:induction false} WrittenConcat(a: seq<Path>, b: seq<Path>)
    ensures Written(a + b) == Written(a) + Written(b)
  {
    if a == [] {
      assert a + b == b;
    } else {
      assert (a + b)[1..] == a[1..] + b;
      WrittenConcat(a[1..], b);
    }
  }

  lemma {:induction false} ReportIsWrittenPaths(c: Fields, o: Entries, at: Path)
    ensures UnknownKeys(c, o, Dotted(at)) == Written(UnknownPaths(c, o, at))
    decreases o
  {
    if o.Cons? {
      var p := at + [o.key];
      assert p[..|at|] == at;
      ReportIsWrittenPaths(c, o.rest, at);
      if o.key !in c {
        WrittenConcat([p], UnknownPaths(c, o.rest, at));
      } else if c[o.key].Section? && o.value.Dict? {
        ReportIsWrittenPaths(c[o.key].fields, o.value.entries, p);
        WrittenConcat(UnknownPaths(c[o.key].fields, o.value.entries, p), UnknownPaths(c, o.rest, at));
      } else {
        assert [] + UnknownPaths(c, o.rest, at) == UnknownPaths(c, o.rest, at);
        assert [] + UnknownKeys(c, o.rest, Dotted(at)) == UnknownKeys(c, o.rest, Dotted(at));
      }
    }
  }

  /** Where the traversal of overrides `o` along schema `c` stops: the value found at the end of `p`. */
  function StopsAt(c: Fields, o: Entries, p: Path): Option<Value>
    decreases |p|
  {
    if p == [] || p[0] !in Keys(o) then None
    else
      var v := Get(o, p[0]);
      var descends := p[0] in c && c[p[0]].Section? && v.Dict?;
      if |p| == 1 then (if descends then None else Some(v))
      else if descends then StopsAt(c[p[0]].fields, v.entries, p[1..])
      else None
  }

  function FieldAtPath(c: Fields, p: Path): Option<Field>
    decreases |p|
  {
    if p == [] || p[0] !in c then None
    else if |p| == 1 then Some(c[p[0]])
    else if c[p[0]].Section? then FieldAtPath(c[p[0]].fields, p[1..])
    else None
  }

  /** The traversal stops at `p` because the schema has no such field. */
  predicate IsUnknown(c: Fields, o: Entries, p: Path)
    decreases |p|
  {
    p != [] && p[0] in Keys(o)
    && if |p| == 1 then p[0] !in c
       else p[0] in c && c[p[0]].Section? && Get(o, p[0]).Dict?
            && IsUnknown(c[p[0]].fields, Get(o, p[0]).entries, p[1..])
  }

  /** What remains of path `q` behind `at`. */
  function Behind(at: Path, q: Path): Path { if at <= q then q[|at|..] else [] }

  lemma BehindOne(at: Path, k: string, q: Path)
    ensures q == at + [k] <==> Behind(at, q) == [k]
    ensures at + [k] <= q <==> Behind(at, q) != [] && Behind(at, q)[0] == k
    ensures at + [k] <= q ==> Behind(at + [k], q) == Behind(at, q)[1..]
  {
    if at + [k] <= q {
      assert q[|at|] == (at + [k])[|at|] && q[..|at|] == (at + [k])[..|at|];
    }
    if Behind(at, q) != [] && Behind(at, q)[0] == k {
      assert q == at + Behind(at, q);
      assert q[..|at| + 1] == at + [k];
    }
  }

  lemma UnknownInRest(c: Fields, o: Entries, p: Path)
    requires Distinct(o) && o.Cons?
    ensures p != [] && p[0] != o.key ==> (IsUnknown(c, o, p) <==> IsUnknown(c, o.rest, p))
    ensures p != [] && p[0] == o.key ==> !IsUnknown(c, o.rest, p)
  {
  }

  lemma {:induction false} ReportedIff(c: Fields, o: Entries, at: Path, q: Path)
    requires Distinct(o)
    ensures q in UnknownPaths(c, o, at) <==> at <= q && IsUnknown(c, o, Behind(at, q))
    decreases o
  {
    if o.Cons? {
      var p := Behind(at, q);
      ReportedIff(c, o.rest, at, q);
      UnknownInRest(c, o, p);
      BehindOne(at, o.key, q);
      hide Behind, Distinct;
      if o.key in c && c[o.key].Section? && o.value.Dict? {
        DistinctGet(o, o.key);
        ReportedIff(c[o.key].fields, o.value.entries, at + [o.key], q);
        assert at + [o.key] <= q ==> at <= q;
        assert |p| == 1 ==> p[1..] == [];
      }
    }
  }

  /** Of the paths at which the overrides end, the report holds exactly those the merge did not apply: a
      reported path is absent from the merged config, any other holds the override's value. */
  lemma {:induction false} ReportIsWhatWasNotApplied(c: Fields, o: Entries, p: Path)
    requires Distinct(o)
    ensures IsUnknown(c, o, p) ==> StopsAt(c, o, p).Some? && FieldAtPath(Merge(c, o), p) == None
    ensures StopsAt(c, o, p).Some? && !IsUnknown(c, o, p) ==>
              FieldAtPath(Merge(c, o), p) == Some(Leaf(StopsAt(c, o, p).value))
    decreases |p|
  {
    hide Merge, UnknownPaths;
    if p != [] && p[0] in Keys(o) {
      var k := p[0];
      MergeAt(c, o, k);
      DistinctGet(o, k);
      if |p| > 1 && k in c && c[k].Section? && Get(o, k).Dict? {
        ReportIsWhatWasNotApplied(c[k].fields, Get(o, k).entries, p[1..]);
      }
    }
  }

  /** In the terms of the warning the code logs: a dotted path is in the list exactly when it is written
      from a path the merge left out. */
  lemma ReportIff(c: Fields, o: Entries, p: Path)
    requires Distinct(o) && StopsAt(c, o, p).Some?
    ensures UnknownKeys(Merge(c, o), o, "") == Written(UnknownPaths(c, o, []))
    ensures p in UnknownPaths(c, o, []) <==> FieldAtPath(Merge(c, o), p) != Some(Leaf(StopsAt(c, o, p).value))
  {
    hide Merge, UnknownKeys, UnknownPaths, IsUnknown, StopsAt;
    ReportUnchangedByMerge(c, o, "");
    ReportIsWrittenPaths(c, o, []);
    ReportedIff(c, o, [], p);
    assert [] <= p && Behind([], p) == p;
    ReportIsWhatWasNotApplied(c, o, p);
  }
}
