/** Applying whole YAML files to the application config: plugins, plugin sources, and the sections. */
module ConfigLayers {
  import opened Common
  import opened ConfigMerge

  datatype AppConfig = AppConfig(
    sections: map<string, Fields>, plugins: map<string, Value>, sources: seq<Value>, sourcesEnabled: bool)

  /** The `_coerce_*` functions, by section and key; what they return is always a list. */
  type Coerce = (string, string, Value) -> seq<Value>

  const SPECIAL: set<(string, string)> :=
    {("capture", "meshcore_usb"), ("capture", "serial"), ("capture", "rfenv_companion"),
     ("repeater_poll", "repeaters"), ("metrics", "api_keys")}

  /** What `_apply_yaml` takes from a mapping: the three keys it pops, where they have the type it looks
      for, and the rest as sections. */
  datatype Layer = Layer(plugins: Option<Entries>, sources: Option<seq<Value>>, enabled: Option<bool>,
                         sections: Entries)

  function Lookup(o: Entries, k: string): Option<Value> { if k in Keys(o) then Some(Get(o, k)) else None }

  function OnlyDicts(items: seq<Value>): seq<Value> {
    if items == [] then []
    else (if items[0].Dict? then [items[0]] else []) + OnlyDicts(items[1..])
  }

  function ParseLayer(raw: Entries): Layer {
    var p, s, e := Lookup(raw, "plugins"), Lookup(raw, "plugin_sources"), Lookup(raw, "plugin_sources_enabled");
    Layer(if p.Some? && p.value.Dict? then Some(p.value.entries) else None,
          if s.Some? && s.value.List? then Some(OnlyDicts(s.value.items)) else None,
          if e.Some? && e.value.Bool? then Some(e.value.b) else None,
          Remove(Remove(Remove(raw, "plugins"), "plugin_sources"), "plugin_sources_enabled"))
  }

  // ---------------------------------------------------------------- plugins

  /** dict.update */
  function Update(a: Entries, b: Entries): Entries {
    match a
    case Nil => b
    case Cons(k, v, rest) =>
      if k in Keys(b) then Cons(k, Get(b, k), Update(rest, Remove(b, k))) else Cons(k, v, Update(rest, b))
  }

  function MergePlugin(current: Option<Value>, conf: Value): Value {
    if conf.Dict? && current.Some? && current.value.Dict? then Dict(Update(current.value.entries, conf.entries))
    else conf
  }

  function PluginAt(ps: map<string, Value>, id: string): Option<Value> { if id in ps then Some(ps[id]) else None }

  function MergePlugins(ps: map<string, Value>, o: Entries): map<string, Value>
    decreases o
  {
    match o
    case Nil => ps
    case Cons(id, conf, rest) => MergePlugins(ps[id := MergePlugin(PluginAt(ps, id), conf)], rest)
  }

  lemma {:induction false} MergePluginsAt(ps: map<string, Value>, o: Entries, id: string)
    requires Distinct(o)
    ensures PluginAt(MergePlugins(ps, o), id)
         == if id in Keys(o) then Some(MergePlugin(PluginAt(ps, id), Get(o, id))) else PluginAt(ps, id)
    decreases o
  {
    hide MergePlugin;
    if o.Cons? {
      MergePluginsAt(ps[o.key := MergePlugin(PluginAt(ps, o.key), o.value)], o.rest, id);
    }
  }

  lemma {:induction false} RemoveAbsent(o: Entries, k: string)
    requires k !in Keys(o)
    ensures Remove(o, k) == o
  {
    if o.Cons? {
      RemoveAbsent(o.rest, k);
    }
  }

  lemma {:induction false} RemoveCommutes(o: Entries, j: string, k: string)
    ensures Remove(Remove(o, j), k) == Remove(Remove(o, k), j)
  {
    if o.Cons? {
      RemoveCommutes(o.rest, j, k);
    }
  }

  lemma {:induction false} UpdateKeys(a: Entries, b: Entries)
    requires Distinct(a) && Distinct(b)
    ensures Keys(Update(a, b)) == Keys(a) + Keys(b)
    ensures forall k :: k in Keys(a) + Keys(b) ==>
                          Get(Update(a, b), k) == if k in Keys(b) then Get(b, k) else Get(a, k)
    ensures Distinct(Update(a, b))
    decreases a
  {
    if a.Cons? {
      RemoveKeeps(b, a.key);
      UpdateKeys(a.rest, if a.key in Keys(b) then Remove(b, a.key) else b);
      if a.key in Keys(b) {
        DistinctGet(b, a.key);
      }
    }
  }

  lemma {:induction false} RemoveUpdate(a: Entries, b: Entries, k: string)
    requires Distinct(a) && Distinct(b)
    ensures Remove(Update(a, b), k) == Update(Remove(a, k), Remove(b, k))
    decreases a
  {
    if a.Cons? {
      var j := a.key;
      var less := if j in Keys(b) then Remove(b, j) else b;
      RemoveKeeps(b, j);
      RemoveUpdate(a.rest, less, k);
      RemoveCommutes(b, j, k);
      RemoveKeeps(b, k);
      if j == k {
        RemoveAbsent(a.rest, k);
        if k !in Keys(b) { RemoveAbsent(b, k); } else { RemoveAbsent(less, k); }
      }
    }
  }

  /** Shallow updates compose. */
  lemma {:induction false} UpdateAssociative(p: Entries, a: Entries, b: Entries)
    requires Distinct(p) && Distinct(a) && Distinct(b)
    ensures Update(Update(p, a), b) == Update(p, Update(a, b))
    decreases p
  {
    if p.Cons? {
      var k := p.key;
      UpdateKeys(a, b);
      RemoveUpdate(a, b, k);
      RemoveKeeps(a, k);
      RemoveKeeps(b, k);
      if k !in Keys(a) { RemoveAbsent(a, k); }
      if k !in Keys(b) { RemoveAbsent(b, k); }
      UpdateAssociative(p.rest, if k in Keys(a) then Remove(a, k) else a, if k in Keys(b) then Remove(b, k) else b);
    }
  }

  /** Entries of both layers, combined by `f` where both have the key. */
  function Combine(a: Entries, b: Entries, f: (string, Value, Value) -> Value): Entries {
    match a
    case Nil => b
    case Cons(k, v, rest) =>
      if k in Keys(b) then Cons(k, f(k, v, Get(b, k)), Combine(rest, Remove(b, k), f))
      else Cons(k, v, Combine(rest, b, f))
  }

  lemma {:induction false} CombineAt(a: Entries, b: Entries, f: (string, Value, Value) -> Value)
    requires Distinct(a) && Distinct(b)
    requires forall k, x, y :: DistinctIn(x) && DistinctIn(y) ==> DistinctIn(f(k, x, y))
    ensures Distinct(Combine(a, b, f)) && Keys(Combine(a, b, f)) == Keys(a) + Keys(b)
    ensures forall k :: k in Keys(a) + Keys(b) ==>
                          Get(Combine(a, b, f), k)
                          == if k !in Keys(b) then Get(a, k) else if k !in Keys(a) then Get(b, k)
                             else f(k, Get(a, k), Get(b, k))
    decreases a
  {
    if a.Cons? {
      RemoveKeeps(b, a.key);
      CombineAt(a.rest, if a.key in Keys(b) then Remove(b, a.key) else b, f);
      if a.key in Keys(b) {
        DistinctGet(b, a.key);
      }
    }
  }

  function BothPlugins(id: string, x: Value, y: Value): Value {
    if x.Dict? && y.Dict? then Dict(Update(x.entries, y.entries)) else y
  }

  /** An existing plugin mapping is replaced by a plain value and then given a mapping again. */
  predicate Replaced(p: Value, a: Value, b: Value) { p.Dict? && !a.Dict? && b.Dict? }

  /** No plugin is replaced like that, unless the new mapping names every key the plugin had. */
  predicate CompatiblePlugin(p: Value, a: Value, b: Value) {
    Replaced(p, a, b) ==> Keys(p.entries) <= Keys(b.entries)
  }

  ghost predicate CompatiblePlugins(ps: map<string, Value>, a: Entries, b: Entries) {
    forall id :: id in ps && id in Keys(a) && id in Keys(b) ==> CompatiblePlugin(ps[id], Get(a, id), Get(b, id))
  }

  /** The keys of `p`, in order, are the first keys of `b`. */
  predicate LeadsWith(b: Entries, p: Entries) {
    p.Nil? || (b.Cons? && b.key == p.key && LeadsWith(b.rest, p.rest))
  }

  /** And where one is, the new mapping starts with the old keys in their order. */
  predicate KeepsOrder(p: Value, a: Value, b: Value) { Replaced(p, a, b) ==> LeadsWith(b.entries, p.entries) }

  ghost predicate AllKeepOrder(ps: map<string, Value>, a: Entries, b: Entries) {
    forall id :: id in ps && id in Keys(a) && id in Keys(b) ==> KeepsOrder(ps[id], Get(a, id), Get(b, id))
  }

  lemma {:induction false} UpdateOverwrites(p: Entries, b: Entries)
    requires Distinct(p) && Distinct(b) && LeadsWith(b, p)
    ensures Update(p, b) == b
  {
    if p.Cons? {
      RemoveAbsent(b.rest, b.key);
      UpdateOverwrites(p.rest, b.rest);
    }
  }

  /** The same plugins, each up to the order of keys. */
  ghost predicate AlikePlugins(x: map<string, Value>, y: map<string, Value>) {
    forall id: string :: AlikeAt(PluginAt(x, id), PluginAt(y, id))
  }

  ghost predicate AlikeAt(v: Option<Value>, w: Option<Value>) {
    (v.Some? <==> w.Some?) && (v.Some? && w.Some? ==> Alike(v.value, w.value))
  }

  ghost predicate DistinctPlugins(ps: map<string, Value>) { forall id :: id in ps ==> DistinctIn(ps[id]) }

  lemma CombinedPlugins(a: Entries, b: Entries)
    requires Distinct(a) && Distinct(b)
    ensures var o := Combine(a, b, BothPlugins);
            Distinct(o) && Keys(o) == Keys(a) + Keys(b)
            && forall k :: k in Keys(a) + Keys(b) ==>
                 Get(o, k) == if k !in Keys(b) then Get(a, k) else if k !in Keys(a) then Get(b, k)
                              else BothPlugins(k, Get(a, k), Get(b, k))
  {
    hide Combine;
    forall k: string, x: Value, y: Value | DistinctIn(x) && DistinctIn(y)
      ensures DistinctIn(BothPlugins(k, x, y))
    {
      if x.Dict? && y.Dict? { UpdateKeys(x.entries, y.entries); }
    }
    CombineAt(a, b, BothPlugins);
  }

  /** Two layers of plugins are one, combined per plugin, up to the order of keys where a plugin is replaced in
      between; to the letter where it is not, or its new mapping keeps the order. */
  lemma PluginsCompose(ps: map<string, Value>, a: Entries, b: Entries)
    requires DistinctPlugins(ps) && Distinct(a) && Distinct(b) && CompatiblePlugins(ps, a, b)
    ensures Distinct(Combine(a, b, BothPlugins))
    ensures AlikePlugins(MergePlugins(MergePlugins(ps, a), b), MergePlugins(ps, Combine(a, b, BothPlugins)))
    ensures AllKeepOrder(ps, a, b) ==>
              MergePlugins(MergePlugins(ps, a), b) == MergePlugins(ps, Combine(a, b, BothPlugins))
  {
    hide MergePlugins, MergePlugin, Combine, CompatiblePlugin, KeepsOrder, Alike, Distinct, BothPlugins;
    CombinedPlugins(a, b);
    var o := Combine(a, b, BothPlugins);
    var (x, y) := (MergePlugins(MergePlugins(ps, a), b), MergePlugins(ps, o));
    forall id: string
      ensures AlikeAt(PluginAt(x, id), PluginAt(y, id))
      ensures AllKeepOrder(ps, a, b) ==> PluginAt(x, id) == PluginAt(y, id)
    {
      MergePluginsAt(ps, a, id);
      MergePluginsAt(MergePlugins(ps, a), b, id);
      MergePluginsAt(ps, o, id);
      if id in Keys(a) && id in Keys(b) {
        DistinctGet(a, id);
        DistinctGet(b, id);
        OnePluginComposes(PluginAt(ps, id), Get(a, id), Get(b, id), id);
      } else if PluginAt(x, id).Some? {
        AlikeItself(PluginAt(x, id).value);
      }
    }
    if AllKeepOrder(ps, a, b) { SamePlugins(x, y); }
  }

  lemma OnePluginComposes(p: Option<Value>, a: Value, b: Value, id: string)
    requires p.Some? ==> DistinctIn(p.value)
    requires DistinctIn(a) && DistinctIn(b)
    requires p.Some? ==> CompatiblePlugin(p.value, a, b)
    ensures Alike(MergePlugin(Some(MergePlugin(p, a)), b), MergePlugin(p, BothPlugins(id, a, b)))
    ensures (p.Some? ==> KeepsOrder(p.value, a, b)) ==>
              MergePlugin(Some(MergePlugin(p, a)), b) == MergePlugin(p, BothPlugins(id, a, b))
  {
    hide Update, Alike, LeadsWith;
    if p.Some? && Replaced(p.value, a, b) {
      UpdateAlike(p.value.entries, b.entries);
      if KeepsOrder(p.value, a, b) { UpdateOverwrites(p.value.entries, b.entries); }
    } else {
      if p.Some? && p.value.Dict? && a.Dict? && b.Dict? {
        UpdateAssociative(p.value.entries, a.entries, b.entries);
      }
      AlikeItself(MergePlugin(p, BothPlugins(id, a, b)));
    }
  }

  /** An update that names every old key leaves nothing of the old values. */
  lemma UpdateAlike(p: Entries, b: Entries)
    requires Distinct(p) && Distinct(b) && Keys(p) <= Keys(b)
    ensures Alike(Dict(b), Dict(Update(p, b)))
  {
    UpdateKeys(p, b);
    AlikeItself(Dict(b));
  }

  /** No value has the effect of an incompatible pair, not even up to the order of keys. */
  lemma NoSinglePlugin(p: Value, a: Value, b: Value, o: Option<Value>)
    requires DistinctIn(p) && (o.Some? ==> DistinctIn(o.value)) && !CompatiblePlugin(p, a, b)
    ensures !Alike(MergePlugin(Some(MergePlugin(Some(p), a)), b),
                   if o.None? then p else MergePlugin(Some(p), o.value))
  {
    hide Update;
    if o.Some? && o.value.Dict? { UpdateKeys(p.entries, o.value.entries); }
  }

  lemma SamePlugins(x: map<string, Value>, y: map<string, Value>)
    requires forall id :: PluginAt(x, id) == PluginAt(y, id)
    ensures x == y
  {
    assert forall id :: id in x <==> PluginAt(x, id).Some?;
    assert forall id :: id in y <==> PluginAt(y, id).Some?;
    assert forall id :: id in x ==> x[id] == PluginAt(x, id).value;
    assert forall id :: id in y ==> y[id] == PluginAt(y, id).value;
  }

  // ---------------------------------------------------------------- sections

  function IsFalsy(v: Value): bool {
    v == Null || v == Bool(false) || v == Number(0) || v == Text("") || v == List([]) || v == Dict(Nil)
  }

  /** The special keys of a section, converted; they end in leaf fields. */
  function Coerced(s: string, o: Entries, coerce: Coerce): Entries {
    match o
    case Nil => Nil
    case Cons(k, v, rest) =>
      Cons(k, if (s, k) in SPECIAL then List(coerce(s, k, v)) else v, Coerced(s, rest, coerce))
  }

  function ApplySection(s: string, c: Fields, o: Entries, coerce: Coerce): Fields {
    Merge(c, Coerced(s, o, coerce))
  }

  lemma {:induction false} CoercedAt(s: string, o: Entries, coerce: Coerce)
    requires Distinct(o)
    ensures Keys(Coerced(s, o, coerce)) == Keys(o) && Distinct(Coerced(s, o, coerce))
    ensures forall k :: k in Keys(o) ==>
                          Get(Coerced(s, o, coerce), k)
                          == if (s, k) in SPECIAL then List(coerce(s, k, Get(o, k))) else Get(o, k)
  {
    if o.Cons? {
      CoercedAt(s, o.rest, coerce);
    }
  }

  ghost predicate SpecialsAreLeaves(s: string, c: Fields) {
    forall k :: (s, k) in SPECIAL ==> k in c && c[k].Leaf?
  }

  /** A key whose field is no nested section is never reported. */
  lemma {:induction false} LeafUnreported(c: Fields, o: Entries, k: string, prefix: string)
    requires k in c && c[k].Leaf?
    ensures UnknownKeys(c, Remove(o, k), prefix) == UnknownKeys(c, o, prefix)
    decreases o
  {
    if o.Cons? {
      LeafUnreported(c, o.rest, k, prefix);
      assert [] + UnknownKeys(c, o.rest, prefix) == UnknownKeys(c, o.rest, prefix);
    }
  }

  /** The special keys are set and popped before the rest of the section is merged. */
  method PopSpecial(s: string, k: string, c: Fields, o: Entries, coerce: Coerce, ghost schema: Fields,
                    ghost prefix: string)
    returns (d: Fields, rest: Entries)
    requires Distinct(o) && k in schema && schema[k].Leaf?
    ensures Distinct(rest) && Keys(rest) == Keys(o) - {k}
    ensures forall j :: j in Keys(rest) ==> Get(rest, j) == Get(o, j)
    ensures d == if k in Keys(o) then c[k := Leaf(List(coerce(s, k, Get(o, k))))] else c
    ensures UnknownKeys(schema, rest, prefix) == UnknownKeys(schema, o, prefix)
  {
    d, rest := c, o;
    if k in Keys(o) {
      d := c[k := Leaf(List(coerce(s, k, Get(o, k))))];
      rest := Remove(o, k);
      RemoveKeeps(o, k);
      LeafUnreported(schema, o, k, prefix);
    }
  }

  /** Sets and pops the special keys of a section. */
  method PopSpecials(s: string, c: Fields, o: Entries, coerce: Coerce) returns (d: Fields, rest: Entries)
    requires Distinct(o) && SpecialsAreLeaves(s, c)
    ensures Distinct(rest) && forall k :: k in Keys(rest) <==> k in Keys(o) && (s, k) !in SPECIAL
    ensures forall k :: k in Keys(rest) ==> Get(rest, k) == Get(o, k)
    ensures forall k :: k in d <==> k in c
    ensures forall k :: k in c ==>
              d[k] == if (s, k) in SPECIAL && k in Keys(o) then Leaf(List(coerce(s, k, Get(o, k)))) else c[k]
    ensures UnknownKeys(c, rest, s + ".") == UnknownKeys(c, o, s + ".")
  {
    hide Merge, Coerced, Distinct, Keys, Get, UnknownKeys, Remove;
    rest := o;
    d := c;
    ghost var at := s + ".";
    if s == "capture" {
      d, rest := PopSpecial(s, "meshcore_usb", d, rest, coerce, c, at);
      d, rest := PopSpecial(s, "serial", d, rest, coerce, c, at);
      d, rest := PopSpecial(s, "rfenv_companion", d, rest, coerce, c, at);
    } else if s == "repeater_poll" {
      d, rest := PopSpecial(s, "repeaters", d, rest, coerce, c, at);
    } else if s == "metrics" {
      d, rest := PopSpecial(s, "api_keys", d, rest, coerce, c, at);
    }
  }

  /** One section: its special keys, the merge, and the unknown keys, reported against the merged section. */
  method MergeSection(s: string, c: Fields, o: Entries, coerce: Coerce) returns (d: Fields, unknown: seq<string>)
    requires Distinct(o) && SpecialsAreLeaves(s, c)
    ensures d == ApplySection(s, c, o, coerce)
    ensures unknown == UnknownKeys(c, o, s + ".")
  {
    hide Merge, Coerced, Distinct, Keys, Get, UnknownKeys, Remove, SpecialsAreLeaves;
    var rest;
    d, rest := PopSpecials(s, c, o, coerce);
    PoppedThenMerged(s, c, o, d, rest, coerce);
    SpecialsAreLeavesIn(s, c, o, d, coerce);
    SameShapeSameReport(c, d, rest, s + ".");
    ReportUnchangedByMerge(d, rest, s + ".");
    d := MergeDataclass(d, rest);
    unknown := CollectUnknownKeys(d, rest, s + ".");
  }

  lemma SpecialsAreLeavesIn(s: string, c: Fields, o: Entries, d: Fields, coerce: Coerce)
    requires SpecialsAreLeaves(s, c) && forall k :: k in d <==> k in c
    requires forall k :: k in c ==>
               d[k] == if (s, k) in SPECIAL && k in Keys(o) then Leaf(List(coerce(s, k, Get(o, k)))) else c[k]
    ensures forall k :: k in c ==> d[k] == c[k] || (d[k].Leaf? && c[k].Leaf?)
  {
  }

  lemma {:induction false} SameShapeSameReport(c: Fields, d: Fields, o: Entries, prefix: string)
    requires forall k :: k in d <==> k in c
    requires forall k :: k in c ==> d[k] == c[k] || (d[k].Leaf? && c[k].Leaf?)
    ensures UnknownKeys(d, o, prefix) == UnknownKeys(c, o, prefix)
    decreases o
  {
    if o.Cons? { SameShapeSameReport(c, d, o.rest, prefix); }
  }

  lemma PoppedThenMerged(s: string, c: Fields, o: Entries, d: Fields, rest: Entries, coerce: Coerce)
    requires Distinct(o) && Distinct(rest) && SpecialsAreLeaves(s, c)
    requires forall k :: k in Keys(rest) <==> k in Keys(o) && (s, k) !in SPECIAL
    requires forall k :: k in Keys(rest) ==> Get(rest, k) == Get(o, k)
    requires forall k :: k in d <==> k in c
    requires forall k :: k in c ==>
               d[k] == if (s, k) in SPECIAL && k in Keys(o) then Leaf(List(coerce(s, k, Get(o, k)))) else c[k]
    ensures Merge(d, rest) == ApplySection(s, c, o, coerce)
  {
    hide Merge, Coerced, Distinct, Keys, Get;
    CoercedAt(s, o, coerce);
    forall k: string
      ensures k in Merge(d, rest) <==> k in ApplySection(s, c, o, coerce)
      ensures k in Merge(d, rest) ==> Merge(d, rest)[k] == ApplySection(s, c, o, coerce)[k]
    {
      MergeAt(d, rest, k);
      MergeAt(c, Coerced(s, o, coerce), k);
    }
    SameFields(Merge(d, rest), ApplySection(s, c, o, coerce));
  }

  lemma SectionsCompose(s: string, c: Fields, a: Entries, b: Entries, coerce: Coerce)
    requires Distinct(a) && Distinct(b) && SpecialsAreLeaves(s, c) && Compatible(c, a, b)
    ensures ApplySection(s, ApplySection(s, c, a, coerce), b, coerce)
         == ApplySection(s, c, Overlay(c, a, b), coerce)
    ensures SpecialsAreLeaves(s, ApplySection(s, c, a, coerce))
  {
    hide Merge, Coerced, Distinct, Keys, Get, Overlay, OverlayValue, Compatible, CompatibleAt;
    var ca, cb, o := Coerced(s, a, coerce), Coerced(s, b, coerce), Overlay(c, a, b);
    CoercedAt(s, a, coerce);
    CoercedAt(s, b, coerce);
    OverlayDistinct(c, a, b);
    CoercedAt(s, o, coerce);
    CompatibleIff(c, a, b);
    CompatibleIff(c, ca, cb);
    LeafIsCompatible();
    LayersCompose(c, ca, cb);
    var p := Overlay(c, ca, cb);
    OverlayDistinct(c, ca, cb);
    forall k: string
      ensures k in Merge(c, p) <==> k in Merge(c, Coerced(s, o, coerce))
      ensures k in Merge(c, p) ==> Merge(c, p)[k] == Merge(c, Coerced(s, o, coerce))[k]
      ensures k in Merge(c, ca) <==> k in c
      ensures (s, k) in SPECIAL && k in c ==> Merge(c, ca)[k].Leaf?
    {
      MergeAt(c, ca, k);
      MergeAt(c, p, k);
      MergeAt(c, Coerced(s, o, coerce), k);
      OverlayAt(c, a, b, k);
      OverlayAt(c, ca, cb, k);
      if k in c && c[k].Leaf? && k in Keys(a) && k in Keys(b) {
        LeafOverlay(c[k], Get(a, k), Get(b, k));
        LeafOverlay(c[k], Get(ca, k), Get(cb, k));
      }
    }
    SameFields(Merge(c, p), Merge(c, Coerced(s, o, coerce)));
  }

  lemma LeafIsCompatible()
    ensures forall f: Field, a, b :: f.Leaf? ==> CompatibleAt(f, a, b)
  {
  }

  lemma LeafOverlay(f: Field, a: Value, b: Value)
    requires f.Leaf?
    ensures OverlayValue(Some(f), a, b) == b
  {
  }

  type Sections = map<string, Fields>

  function ApplySections(cs: Sections, o: Entries, coerce: Coerce): Sections
    decreases o
  {
    match o
    case Nil => cs
    case Cons(s, v, rest) =>
      ApplySections(if s in cs && v.Dict? then cs[s := ApplySection(s, cs[s], v.entries, coerce)] else cs,
                    rest, coerce)
  }

  /** A section given a truthy value that is not a mapping makes `_merge_dataclass` raise. */
  predicate Raises(names: set<string>, o: Entries) {
    match o
    case Nil => false
    case Cons(s, v, rest) => (s in names && !v.Dict? && !IsFalsy(v)) || Raises(names, rest)
  }

  lemma {:induction false} SectionAt(cs: Sections, o: Entries, coerce: Coerce, s: string)
    requires Distinct(o)
    ensures s in ApplySections(cs, o, coerce) <==> s in cs
    ensures s in cs ==> ApplySections(cs, o, coerce)[s]
                        == if s in Keys(o) && Get(o, s).Dict?
                           then ApplySection(s, cs[s], Get(o, s).entries, coerce) else cs[s]
    decreases o
  {
    hide ApplySection;
    if o.Cons? {
      var next := if o.key in cs && o.value.Dict?
                  then cs[o.key := ApplySection(o.key, cs[o.key], o.value.entries, coerce)] else cs;
      SectionAt(next, o.rest, coerce, s);
    }
  }

  function ApplyLayer(cfg: AppConfig, l: Layer, coerce: Coerce): Option<AppConfig> {
    if Raises(cfg.sections.Keys, l.sections) then None
    else Some(AppConfig(ApplySections(cfg.sections, l.sections, coerce),
                        if l.plugins.Some? then MergePlugins(cfg.plugins, l.plugins.value) else cfg.plugins,
                        GetOr(l.sources, cfg.sources), GetOr(l.enabled, cfg.sourcesEnabled)))
  }

  /** `_apply_yaml` on a file that is missing or holds a parsed document. */
  function ApplyFile(cfg: AppConfig, file: Option<Value>, coerce: Coerce): Option<AppConfig> {
    if file.None? || IsFalsy(file.value) || !file.value.Dict? then Some(cfg)
    else ApplyLayer(cfg, ParseLayer(file.value.entries), coerce)
  }

  ghost predicate GoodConfig(cfg: AppConfig) {
    (forall s :: s in cfg.sections ==> SpecialsAreLeaves(s, cfg.sections[s])) && DistinctPlugins(cfg.plugins)
  }

  ghost predicate GoodLayer(l: Layer) {
    Distinct(l.sections) && (l.plugins.Some? ==> Distinct(l.plugins.value))
  }

  /** The sections as one schema: a section is a nested dataclass of the whole. */
  function Schema(cs: Sections): Fields { map s | s in cs :: Section(cs[s]) }

  /** The unknown keys of a file, against the schema as it was before the file. */
  function FileReport(cfg: AppConfig, file: Option<Value>): seq<string> {
    if file.None? || IsFalsy(file.value) || !file.value.Dict? then []
    else UnknownKeys(Schema(cfg.sections), ParseLayer(file.value.entries).sections, "")
  }

  lemma ReportStep(cs: Sections, o: Entries, found: seq<string>, unknown: seq<string>)
    requires o.Cons?
    requires found == if o.key !in cs then [o.key]
                      else if o.value.Dict? then UnknownKeys(cs[o.key], o.value.entries, o.key + ".") else []
    ensures unknown + UnknownKeys(Schema(cs), o, "") == (unknown + found) + UnknownKeys(Schema(cs), o.rest, "")
  {
    assert "" + o.key == o.key;
    assert UnknownKeys(Schema(cs), o, "") == found + UnknownKeys(Schema(cs), o.rest, "");
    ConcatAssoc(unknown, found, UnknownKeys(Schema(cs), o.rest, ""));
  }

  /** The loop over the plugins of a file. */
  method ApplyPlugins(ps: map<string, Value>, conf: Entries) returns (plugins: map<string, Value>)
    ensures plugins == MergePlugins(ps, conf)
  {
    hide MergePlugin;
    plugins := ps;
    var o := conf;
    while o.Cons?
      invariant MergePlugins(plugins, o) == MergePlugins(ps, conf)
      decreases o
    {
      plugins := plugins[o.key := MergePlugin(PluginAt(plugins, o.key), o.value)];
      o := o.rest;
    }
  }

  /** The loop over the sections of a file, with the keys it does not know; None when a section raises. */
  method ApplyAllSections(cs: Sections, layer: Entries, coerce: Coerce)
    returns (r: Option<Sections>, unknown: seq<string>)
    requires Distinct(layer) && forall s :: s in cs ==> SpecialsAreLeaves(s, cs[s])
    ensures r == if Raises(cs.Keys, layer) then None else Some(ApplySections(cs, layer, coerce))
    ensures r.Some? ==> unknown == UnknownKeys(Schema(cs), layer, "")
  {
    hide ApplySection, SpecialsAreLeaves, Distinct, UnknownKeys, Keys, Schema;
    unknown := [];
    var o := layer;
    var sections := cs;
    while o.Cons?
      invariant DistinctTail(o)
      invariant sections.Keys == cs.Keys
      invariant forall s :: s in sections ==> SpecialsAreLeaves(s, sections[s])
      invariant ApplySections(sections, o, coerce) == ApplySections(cs, layer, coerce)
      invariant Raises(cs.Keys, o) == Raises(cs.Keys, layer)
      invariant forall s :: s in Keys(o) && s in sections ==> sections[s] == cs[s]
      invariant unknown + UnknownKeys(Schema(cs), o, "") == UnknownKeys(Schema(cs), layer, "")
      decreases o
    {
      TailIsDistinct(o);
      var found: seq<string> := [];
      if o.key !in sections {
        found := [o.key];
      } else if o.value.Dict? {
        SectionKeepsSpecials(o.key, sections[o.key], o.value.entries, coerce);
        var merged;
        merged, found := MergeSection(o.key, sections[o.key], o.value.entries, coerce);
        sections := sections[o.key := merged];
      } else if !IsFalsy(o.value) {
        return None, [];
      }
      ReportStep(cs, o, found, unknown);
      unknown := unknown + found;
      o := o.rest;
    }
    NothingUnknown(Schema(cs));
    assert unknown + [] == unknown;
    r := Some(sections);
  }

  /** `_apply_yaml` with the keys it warns about; None when it raises. */
  method ApplyYaml(cfg: AppConfig, file: Option<Value>, coerce: Coerce)
    returns (r: Option<AppConfig>, unknown: seq<string>)
    requires GoodConfig(cfg)
    requires file.Some? && file.value.Dict? ==> GoodLayer(ParseLayer(file.value.entries))
    ensures r == ApplyFile(cfg, file, coerce)
    ensures r.Some? ==> unknown == FileReport(cfg, file)
  {
    hide ApplySections, SpecialsAreLeaves, MergePlugins, ParseLayer, Distinct, UnknownKeys, Schema, Raises;
    unknown := [];
    if file.None? || IsFalsy(file.value) || !file.value.Dict? {
      return Some(cfg), [];
    }
    var l := ParseLayer(file.value.entries);
    var c := cfg;
    if l.plugins.Some? {
      var plugins := ApplyPlugins(c.plugins, l.plugins.value);
      c := c.(plugins := plugins);
    }
    c := c.(sources := GetOr(l.sources, c.sources), sourcesEnabled := GetOr(l.enabled, c.sourcesEnabled));
    var sections;
    sections, unknown := ApplyAllSections(c.sections, l.sections, coerce);
    if sections.None? {
      return None, [];
    }
    r := Some(c.(sections := sections.value));
  }

  lemma NothingUnknown(c: Fields)
    ensures UnknownKeys(c, Nil, "") == []
  {
  }

  ghost predicate DistinctTail(o: Entries) { Distinct(o) }

  lemma TailIsDistinct(o: Entries)
    requires DistinctTail(o) && o.Cons?
    ensures DistinctTail(o.rest) && (o.value.Dict? ==> Distinct(o.value.entries))
    ensures o.key !in Keys(o.rest) && Keys(o) == {o.key} + Keys(o.rest)
  {
    assert DistinctIn(o.value);
  }

  lemma SectionKeepsSpecials(s: string, c: Fields, o: Entries, coerce: Coerce)
    requires Distinct(o) && SpecialsAreLeaves(s, c)
    ensures SpecialsAreLeaves(s, ApplySection(s, c, o, coerce))
  {
    hide Merge, Coerced, Distinct, Keys, Get;
    CoercedAt(s, o, coerce);
    forall k: string | (s, k) in SPECIAL
      ensures k in ApplySection(s, c, o, coerce) && ApplySection(s, c, o, coerce)[k].Leaf?
    {
      MergeAt(c, Coerced(s, o, coerce), k);
    }
  }

  /** `load_config` up to the radio frequency: the defaults, then the local file. */
  method LoadConfig(base: AppConfig, defaults: Option<Value>, local: Option<Value>, coerce: Coerce)
    returns (r: Option<AppConfig>, unknown: seq<string>)
    requires GoodConfig(base)
    requires defaults.Some? && defaults.value.Dict? ==> GoodLayer(ParseLayer(defaults.value.entries))
    requires local.Some? && local.value.Dict? ==> GoodLayer(ParseLayer(local.value.entries))
    ensures var first := ApplyFile(base, defaults, coerce);
            r == (if first.None? then None else ApplyFile(first.value, local, coerce))
            && (r.Some? ==> unknown == FileReport(base, defaults) + FileReport(first.value, local))
  {
    hide ApplyLayer, ParseLayer, GoodLayer, FileReport;
    r, unknown := ApplyYaml(base, defaults, coerce);
    if r.Some? {
      if !(defaults.None? || IsFalsy(defaults.value) || !defaults.value.Dict?) {
        LayerKeepsGood(base, ParseLayer(defaults.value.entries), coerce);
      }
      var more;
      r, more := ApplyYaml(r.value, local, coerce);
      unknown := unknown + more;
    }
  }

  lemma CoercedStops(s: string, c: Fields, o: Entries, coerce: Coerce, q: Path)
    requires Distinct(o) && SpecialsAreLeaves(s, c)
    ensures IsUnknown(c, Coerced(s, o, coerce), q) <==> IsUnknown(c, o, q)
    ensures StopsAt(c, Coerced(s, o, coerce), q).Some? <==> StopsAt(c, o, q).Some?
  {
    hide Coerced, Distinct, Keys, Get;
    CoercedAt(s, o, coerce);
  }

  /** Of the paths at which a file ends, those it warns about are exactly those with no place in the resulting
      configuration. */
  lemma FileReportIff(cfg: AppConfig, l: Layer, coerce: Coerce, p: Path)
    requires GoodConfig(cfg) && GoodLayer(l) && StopsAt(Schema(cfg.sections), l.sections, p).Some?
    ensures UnknownKeys(Schema(cfg.sections), l.sections, "")
         == Written(UnknownPaths(Schema(cfg.sections), l.sections, []))
    ensures p in UnknownPaths(Schema(cfg.sections), l.sections, [])
       <==> FieldAtPath(Schema(ApplySections(cfg.sections, l.sections, coerce)), p) == None
  {
    hide ApplySections, Merge, Coerced, UnknownKeys, UnknownPaths, Distinct, Keys, Get, Written;
    var (schema, o) := (Schema(cfg.sections), l.sections);
    ReportIsWrittenPaths(schema, o, []);
    ReportedIff(schema, o, [], p);
    assert [] <= p && Behind([], p) == p;
    SectionAt(cfg.sections, o, coerce, p[0]);
    if |p| > 1 {
      var (s, q) := (p[0], p[1..]);
      DistinctGet(o, s);
      var (c, entries) := (cfg.sections[s], Get(o, s).entries);
      CoercedStops(s, c, entries, coerce, q);
      CoercedAt(s, entries, coerce);
      ReportIsWhatWasNotApplied(c, Coerced(s, entries, coerce), q);
    }
  }

  lemma LayerKeepsGood(cfg: AppConfig, l: Layer, coerce: Coerce)
    requires GoodConfig(cfg) && GoodLayer(l) && ApplyLayer(cfg, l, coerce).Some?
    ensures GoodConfig(ApplyLayer(cfg, l, coerce).value)
    ensures ApplyLayer(cfg, l, coerce).value.sections.Keys == cfg.sections.Keys
  {
    hide ApplySection, SpecialsAreLeaves, ApplySections, MergePlugins, Distinct, Keys, Get;
    var next := ApplyLayer(cfg, l, coerce).value;
    forall s: string
      ensures s in next.sections <==> s in cfg.sections
      ensures s in cfg.sections ==> SpecialsAreLeaves(s, next.sections[s])
    {
      SectionAt(cfg.sections, l.sections, coerce, s);
      if s in Keys(l.sections) && Get(l.sections, s).Dict? && s in cfg.sections {
        DistinctGet(l.sections, s);
        SectionKeepsSpecials(s, cfg.sections[s], Get(l.sections, s).entries, coerce);
      }
    }
    if l.plugins.Some? {
      PluginsStayDistinct(cfg.plugins, l.plugins.value);
    }
  }

  lemma PluginsStayDistinct(ps: map<string, Value>, o: Entries)
    requires DistinctPlugins(ps) && Distinct(o)
    ensures DistinctPlugins(MergePlugins(ps, o))
  {
    hide MergePlugins, Update;
    var after := MergePlugins(ps, o);
    forall id | id in after
      ensures DistinctIn(after[id])
    {
      MergePluginsAt(ps, o, id);
      assert PluginAt(after, id) == Some(after[id]);
      if id in Keys(o) {
        DistinctGet(o, id);
        if Get(o, id).Dict? && id in ps && ps[id].Dict? {
          UpdateKeys(ps[id].entries, Get(o, id).entries);
        }
      }
    }
  }
}
