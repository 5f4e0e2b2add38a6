/** Laws of whole configuration files: one file laid over another. */
module ConfigFiles {
  import opened Common
  import opened ConfigMerge
  import opened ConfigLayers

  function BothSections(cs: Sections): (string, Value, Value) -> Value {
    (s: string, x: Value, y: Value) =>
      if !y.Dict? then x else if !x.Dict? then y
      else Dict(Overlay(if s in cs then cs[s] else map[], x.entries, y.entries))
  }

  /** Layer b laid over layer a: sections following the schema, plugins by shallow update, plugin_sources
      and its switch replaced whole. */
  function OverlayLayer(cfg: AppConfig, a: Layer, b: Layer): Layer {
    Layer(if a.plugins.Some? && b.plugins.Some?
          then Some(Combine(a.plugins.value, b.plugins.value, BothPlugins)) else OrElse(b.plugins, a.plugins),
          OrElse(b.sources, a.sources), OrElse(b.enabled, a.enabled),
          Combine(a.sections, b.sections, BothSections(cfg.sections)))
  }

  ghost predicate CompatibleLayers(cfg: AppConfig, a: Layer, b: Layer) {
    (a.plugins.Some? && b.plugins.Some? ==> CompatiblePlugins(cfg.plugins, a.plugins.value, b.plugins.value))
    && forall s :: s in cfg.sections && s in Keys(a.sections) && s in Keys(b.sections)
                   && Get(a.sections, s).Dict? && Get(b.sections, s).Dict?
                   ==> Compatible(cfg.sections[s], Get(a.sections, s).entries, Get(b.sections, s).entries)
  }

  lemma {:induction false} RaisesIff(names: set<string>, o: Entries)
    requires Distinct(o)
    ensures Raises(names, o)
       <==> exists s :: s in names && s in Keys(o) && !Get(o, s).Dict? && !IsFalsy(Get(o, s))
  {
    hide IsFalsy;
    if o.Cons? {
      RaisesIff(names, o.rest);
      assert o.key in Keys(o) && Get(o, o.key) == o.value;
      assert forall s :: s in Keys(o.rest) ==> s in Keys(o) && Get(o, s) == Get(o.rest, s);
    }
  }

  /** What two layers say of one section. */
  lemma OneSectionComposes(cs: Sections, a: Entries, b: Entries, o: Entries, coerce: Coerce, s: string)
    requires Distinct(a) && Distinct(b) && Distinct(o) && s in cs && SpecialsAreLeaves(s, cs[s])
    requires s in Keys(a) && s in Keys(b) && Get(a, s).Dict? && Get(b, s).Dict? ==>
               Compatible(cs[s], Get(a, s).entries, Get(b, s).entries)
    requires s in Keys(o) <==> s in Keys(a) || s in Keys(b)
    requires s in Keys(o) ==>
               Get(o, s) == if s !in Keys(b) then Get(a, s) else if s !in Keys(a) then Get(b, s)
                            else BothSections(cs)(s, Get(a, s), Get(b, s))
    ensures s in ApplySections(ApplySections(cs, a, coerce), b, coerce) && s in ApplySections(cs, o, coerce)
    ensures ApplySections(ApplySections(cs, a, coerce), b, coerce)[s] == ApplySections(cs, o, coerce)[s]
  {
    hide ApplySections, ApplySection, Compatible, Overlay, SpecialsAreLeaves, Distinct, Keys, Get;
    SectionAt(cs, a, coerce, s);
    SectionAt(ApplySections(cs, a, coerce), b, coerce, s);
    SectionAt(cs, o, coerce, s);
    if s in Keys(a) && s in Keys(b) && Get(a, s).Dict? && Get(b, s).Dict? {
      DistinctGet(a, s);
      DistinctGet(b, s);
      SectionsCompose(s, cs[s], Get(a, s).entries, Get(b, s).entries, coerce);
    }
  }

  lemma CombinedSections(cs: Sections, a: Entries, b: Entries)
    requires Distinct(a) && Distinct(b)
    ensures var o, f := Combine(a, b, BothSections(cs)), BothSections(cs);
            Distinct(o) && Keys(o) == Keys(a) + Keys(b)
            && forall k :: k in Keys(a) + Keys(b) ==>
                 Get(o, k) == if k !in Keys(b) then Get(a, k) else if k !in Keys(a) then Get(b, k)
                              else f(k, Get(a, k), Get(b, k))
  {
    hide Combine, Overlay, Distinct, Keys, Get;
    var f := BothSections(cs);
    forall k: string, x: Value, y: Value | DistinctIn(x) && DistinctIn(y)
      ensures DistinctIn(f(k, x, y))
    {
      if x.Dict? && y.Dict? {
        OverlayDistinct(if k in cs then cs[k] else map[], x.entries, y.entries);
      }
    }
    CombineAt(a, b, f);
  }

  lemma CombinedDoesNotRaise(cs: Sections, a: Entries, b: Entries)
    requires Distinct(a) && Distinct(b) && !Raises(cs.Keys, a) && !Raises(cs.Keys, b)
    ensures !Raises(cs.Keys, Combine(a, b, BothSections(cs)))
  {
    CombinedSections(cs, a, b);
    hide Combine, Distinct, Keys, Get, Raises, IsFalsy, Overlay;
    RaisesIff(cs.Keys, a);
    RaisesIff(cs.Keys, b);
    RaisesIff(cs.Keys, Combine(a, b, BothSections(cs)));
  }

  lemma SectionKeysStay(cs: Sections, o: Entries, coerce: Coerce)
    requires Distinct(o)
    ensures forall s :: s in ApplySections(cs, o, coerce) <==> s in cs
  {
    hide ApplySections, Distinct;
    forall s ensures s in ApplySections(cs, o, coerce) <==> s in cs { SectionAt(cs, o, coerce, s); }
  }

  lemma SectionMapsCompose(cs: Sections, a: Entries, b: Entries, coerce: Coerce)
    requires Distinct(a) && Distinct(b)
    requires forall s :: s in cs ==> SpecialsAreLeaves(s, cs[s])
    requires forall s :: s in cs && s in Keys(a) && s in Keys(b) && Get(a, s).Dict? && Get(b, s).Dict?
                         ==> Compatible(cs[s], Get(a, s).entries, Get(b, s).entries)
    ensures ApplySections(ApplySections(cs, a, coerce), b, coerce)
         == ApplySections(cs, Combine(a, b, BothSections(cs)), coerce)
  {
    CombinedSections(cs, a, b);
    hide ApplySections, BothSections, Combine, Compatible, SpecialsAreLeaves, Distinct, Keys, Get;
    var o := Combine(a, b, BothSections(cs));
    var mid := ApplySections(cs, a, coerce);
    SectionKeysStay(cs, a, coerce);
    SectionKeysStay(mid, b, coerce);
    SectionKeysStay(cs, o, coerce);
    var (x, y) := (ApplySections(mid, b, coerce), ApplySections(cs, o, coerce));
    forall s | s in cs
      ensures s in x && s in y && x[s] == y[s]
    {
      OneSectionComposes(cs, a, b, o, coerce, s);
    }
    SameSections(x, y);
  }

  lemma SameSections(x: Sections, y: Sections)
    requires forall s :: s in x <==> s in y
    requires forall s :: s in x && s in y ==> x[s] == y[s]
    ensures x == y
  {
  }

  // ---------------------------------------------------------------- equal up to the order of keys

  ghost predicate AlikeSections(x: Sections, y: Sections) {
    (forall s :: s in x <==> s in y) && forall s :: s in x && s in y ==> AlikeFields(x[s], y[s])
  }

  ghost predicate AlikeConfig(x: AppConfig, y: AppConfig) {
    AlikeSections(x.sections, y.sections) && AlikePlugins(x.plugins, y.plugins)
    && Alike(List(x.sources), List(y.sources)) && x.sourcesEnabled == y.sourcesEnabled
  }

  lemma AlikeExceptPlugins(x: AppConfig, y: AppConfig)
    requires x.sections == y.sections && x.sources == y.sources && x.sourcesEnabled == y.sourcesEnabled
    requires AlikePlugins(x.plugins, y.plugins)
    ensures AlikeConfig(x, y)
  {
    hide AlikeFields, Alike, AlikePlugins;
    forall s | s in x.sections
      ensures AlikeFields(x.sections[s], y.sections[s])
    {
      FieldsAlikeThemselves(x.sections[s]);
    }
    AlikeItself(List(x.sources));
  }

  lemma PluginsAlikeThemselves(ps: map<string, Value>)
    ensures AlikePlugins(ps, ps)
  {
    forall id | id in ps ensures Alike(ps[id], ps[id]) { AlikeItself(ps[id]); }
  }

  // ---------------------------------------------------------------- two layers

  /** No plugin that exists is replaced by the first layer and given a mapping again by the second, unless that
      starts with the old keys in their order. */
  ghost predicate OrderKept(cfg: AppConfig, a: Layer, b: Layer) {
    a.plugins.Some? && b.plugins.Some? ==> AllKeepOrder(cfg.plugins, a.plugins.value, b.plugins.value)
  }

  lemma PluginLayersCompose(cfg: AppConfig, a: Layer, b: Layer)
    requires GoodConfig(cfg) && GoodLayer(a) && GoodLayer(b) && CompatibleLayers(cfg, a, b)
    ensures var o := OverlayLayer(cfg, a, b);
            var first := if a.plugins.Some? then MergePlugins(cfg.plugins, a.plugins.value) else cfg.plugins;
            var twice := if b.plugins.Some? then MergePlugins(first, b.plugins.value) else first;
            var once := if o.plugins.Some? then MergePlugins(cfg.plugins, o.plugins.value) else cfg.plugins;
            AlikePlugins(twice, once) && (OrderKept(cfg, a, b) ==> twice == once)
  {
    hide Combine, MergePlugins, CompatiblePlugins, Distinct, AlikePlugins, AllKeepOrder;
    var o := OverlayLayer(cfg, a, b);
    if a.plugins.Some? && b.plugins.Some? {
      PluginsCompose(cfg.plugins, a.plugins.value, b.plugins.value);
    } else {
      PluginsAlikeThemselves(if o.plugins.Some? then MergePlugins(cfg.plugins, o.plugins.value) else cfg.plugins);
    }
  }

  /** Applying two layers one after the other is applying the second laid over the first, up to the order of keys
      of a plugin that is replaced in between. */
  lemma TwoLayersCompose(cfg: AppConfig, a: Layer, b: Layer, coerce: Coerce)
    requires GoodConfig(cfg) && GoodLayer(a) && GoodLayer(b) && CompatibleLayers(cfg, a, b)
    requires !Raises(cfg.sections.Keys, a.sections) && !Raises(cfg.sections.Keys, b.sections)
    ensures ApplyLayer(cfg, a, coerce).Some? && ApplyLayer(ApplyLayer(cfg, a, coerce).value, b, coerce).Some?
    ensures ApplyLayer(cfg, OverlayLayer(cfg, a, b), coerce).Some?
    ensures var twice := ApplyLayer(ApplyLayer(cfg, a, coerce).value, b, coerce).value;
            var once := ApplyLayer(cfg, OverlayLayer(cfg, a, b), coerce).value;
            AlikeConfig(twice, once) && (OrderKept(cfg, a, b) ==> twice == once)
  {
    SectionMapsCompose(cfg.sections, a.sections, b.sections, coerce);
    hide ApplySections, Combine, MergePlugins, Raises, Distinct, OrderKept, AlikePlugins, AlikeConfig;
    CombinedDoesNotRaise(cfg.sections, a.sections, b.sections);
    LayerKeepsGood(cfg, a, coerce);
    PluginLayersCompose(cfg, a, b);
    AlikeExceptPlugins(ApplyLayer(ApplyLayer(cfg, a, coerce).value, b, coerce).value,
                       ApplyLayer(cfg, OverlayLayer(cfg, a, b), coerce).value);
  }

  /** The overlay of two good layers is good. */
  lemma OverlayIsGood(cfg: AppConfig, a: Layer, b: Layer)
    requires GoodLayer(a) && GoodLayer(b)
    ensures GoodLayer(OverlayLayer(cfg, a, b))
  {
    CombinedSections(cfg.sections, a.sections, b.sections);
    if a.plugins.Some? && b.plugins.Some? { CombinedPlugins(a.plugins.value, b.plugins.value); }
  }

  /** The section of `c` after layer `o`, or as it was where `o` gives it no mapping. */
  function SectionAfter(s: string, c: Fields, o: Entries, coerce: Coerce): Fields {
    if s in Keys(o) && Get(o, s).Dict? then ApplySection(s, c, Get(o, s).entries, coerce) else c
  }

  lemma CoercedCompatible(s: string, c: Fields, a: Entries, b: Entries, coerce: Coerce)
    requires Distinct(a) && Distinct(b) && SpecialsAreLeaves(s, c)
    ensures Compatible(c, Coerced(s, a, coerce), Coerced(s, b, coerce)) <==> Compatible(c, a, b)
  {
    hide Compatible, CompatibleAt, Coerced, Distinct, Keys, Get;
    CoercedAt(s, a, coerce);
    CoercedAt(s, b, coerce);
    CompatibleIff(c, a, b);
    CompatibleIff(c, Coerced(s, a, coerce), Coerced(s, b, coerce));
    LeafIsCompatible();
  }

  /** No layer has the effect of two that are incompatible in one section. */
  lemma NoSingleSection(s: string, c: Fields, a: Entries, b: Entries, o: Entries, coerce: Coerce)
    requires Distinct(a) && Distinct(b) && Distinct(o) && SpecialsAreLeaves(s, c) && !Compatible(c, a, b)
    ensures !AlikeFields(ApplySection(s, ApplySection(s, c, a, coerce), b, coerce), SectionAfter(s, c, o, coerce))
  {
    hide Compatible, Coerced, Merge, SpecialsAreLeaves, Distinct, Keys, Get, AlikeFields;
    CoercedCompatible(s, c, a, b, coerce);
    CoercedAt(s, a, coerce);
    CoercedAt(s, b, coerce);
    if s in Keys(o) && Get(o, s).Dict? {
      DistinctGet(o, s);
      CoercedAt(s, Get(o, s).entries, coerce);
      NoSingleLayer(c, Coerced(s, a, coerce), Coerced(s, b, coerce), Coerced(s, Get(o, s).entries, coerce));
    } else {
      MergeNothing(c);
      NoSingleLayer(c, Coerced(s, a, coerce), Coerced(s, b, coerce), Nil);
    }
  }

  /** No layer of plugins has the effect of two that are incompatible in one plugin. */
  lemma NoSinglePluginMap(ps: map<string, Value>, a: Entries, b: Entries, o: Option<Entries>, id: string)
    requires DistinctPlugins(ps) && Distinct(a) && Distinct(b) && (o.Some? ==> Distinct(o.value))
    requires id in ps && id in Keys(a) && id in Keys(b) && !CompatiblePlugin(ps[id], Get(a, id), Get(b, id))
    ensures !AlikePlugins(MergePlugins(MergePlugins(ps, a), b), if o.Some? then MergePlugins(ps, o.value) else ps)
  {
    hide MergePlugins, MergePlugin, Distinct, CompatiblePlugin, Alike;
    MergePluginsAt(ps, a, id);
    MergePluginsAt(MergePlugins(ps, a), b, id);
    if o.Some? {
      MergePluginsAt(ps, o.value, id);
      if id in Keys(o.value) { DistinctGet(o.value, id); }
    }
    NoSinglePlugin(ps[id], Get(a, id), Get(b, id), if o.Some? then Lookup(o.value, id) else None);
    assert !AlikeAt(PluginAt(MergePlugins(MergePlugins(ps, a), b), id),
                    PluginAt(if o.Some? then MergePlugins(ps, o.value) else ps, id));
  }

  /** Where two layers are incompatible no single one has their effect, not even up to the order of keys. */
  lemma NoOneLayer(cfg: AppConfig, a: Layer, b: Layer, o: Layer, coerce: Coerce)
    requires GoodConfig(cfg) && GoodLayer(a) && GoodLayer(b) && GoodLayer(o) && !CompatibleLayers(cfg, a, b)
    requires ApplyLayer(cfg, a, coerce).Some? && ApplyLayer(ApplyLayer(cfg, a, coerce).value, b, coerce).Some?
    requires ApplyLayer(cfg, o, coerce).Some?
    ensures !AlikeConfig(ApplyLayer(ApplyLayer(cfg, a, coerce).value, b, coerce).value,
                         ApplyLayer(cfg, o, coerce).value)
  {
    hide ApplySections, MergePlugins, Raises, Distinct, Compatible, CompatiblePlugin, Keys, Get, SpecialsAreLeaves,
         MergePlugin, ApplySection, AlikeFields, AlikePlugins, Alike;
    var first := ApplyLayer(cfg, a, coerce).value;
    LayerKeepsGood(cfg, a, coerce);
    if a.plugins.Some? && b.plugins.Some? && !CompatiblePlugins(cfg.plugins, a.plugins.value, b.plugins.value) {
      var id :| id in cfg.plugins && id in Keys(a.plugins.value) && id in Keys(b.plugins.value)
                && !CompatiblePlugin(cfg.plugins[id], Get(a.plugins.value, id), Get(b.plugins.value, id));
      NoSinglePluginMap(cfg.plugins, a.plugins.value, b.plugins.value, o.plugins, id);
    } else {
      var s :| s in cfg.sections && s in Keys(a.sections) && s in Keys(b.sections)
               && Get(a.sections, s).Dict? && Get(b.sections, s).Dict?
               && !Compatible(cfg.sections[s], Get(a.sections, s).entries, Get(b.sections, s).entries);
      DistinctGet(a.sections, s);
      DistinctGet(b.sections, s);
      SectionAt(cfg.sections, a.sections, coerce, s);
      SectionAt(first.sections, b.sections, coerce, s);
      SectionAt(cfg.sections, o.sections, coerce, s);
      NoSingleSection(s, cfg.sections[s], Get(a.sections, s).entries, Get(b.sections, s).entries, o.sections, coerce);
    }
  }

  lemma LoadsUnlessRaises(cfg: AppConfig, l: Layer, coerce: Coerce)
    ensures ApplyLayer(cfg, l, coerce).Some? <==> !Raises(cfg.sections.Keys, l.sections)
  {
  }

  lemma {:induction false} UpdateSelf(a: Entries)
    requires Distinct(a)
    ensures Update(a, a) == a
  {
    if a.Cons? {
      RemoveAbsent(a.rest, a.key);
      UpdateSelf(a.rest);
    }
  }

  lemma OnePluginTwice(p: Option<Value>, a: Value)
    requires (p.Some? ==> DistinctIn(p.value)) && DistinctIn(a)
    ensures MergePlugin(Some(MergePlugin(p, a)), a) == MergePlugin(p, a)
  {
    hide Update;
    if a.Dict? {
      UpdateSelf(a.entries);
      if p.Some? && p.value.Dict? {
        UpdateAssociative(p.value.entries, a.entries, a.entries);
      }
    }
  }

  lemma LayerTwice(cfg: AppConfig, l: Layer, coerce: Coerce)
    requires GoodConfig(cfg) && GoodLayer(l) && !Raises(cfg.sections.Keys, l.sections)
    ensures ApplyLayer(cfg, l, coerce).Some?
    ensures ApplyLayer(ApplyLayer(cfg, l, coerce).value, l, coerce) == ApplyLayer(cfg, l, coerce)
  {
    hide ApplySections, MergePlugins, MergePlugin, Raises, Distinct, Merge, Coerced, Keys, Get, SpecialsAreLeaves;
    LayerKeepsGood(cfg, l, coerce);
    var once := ApplyLayer(cfg, l, coerce).value;
    forall s: string
      ensures s in ApplySections(once.sections, l.sections, coerce) <==> s in once.sections
      ensures s in once.sections ==>
                ApplySections(once.sections, l.sections, coerce)[s] == once.sections[s]
    {
      SectionAt(cfg.sections, l.sections, coerce, s);
      SectionAt(once.sections, l.sections, coerce, s);
      if s in cfg.sections && s in Keys(l.sections) && Get(l.sections, s).Dict? {
        DistinctGet(l.sections, s);
        var o := Get(l.sections, s).entries;
        CoercedAt(s, o, coerce);
        MergeIsIdempotent(cfg.sections[s], Coerced(s, o, coerce));
      }
    }
    if l.plugins.Some? {
      var ps, o := cfg.plugins, l.plugins.value;
      forall id: string
        ensures PluginAt(MergePlugins(MergePlugins(ps, o), o), id) == PluginAt(MergePlugins(ps, o), id)
      {
        MergePluginsAt(ps, o, id);
        MergePluginsAt(MergePlugins(ps, o), o, id);
        if id in Keys(o) {
          DistinctGet(o, id);
          OnePluginTwice(PluginAt(ps, id), Get(o, id));
        }
      }
      SamePlugins(MergePlugins(MergePlugins(ps, o), o), MergePlugins(ps, o));
    }
    assert ApplySections(once.sections, l.sections, coerce) == once.sections;
  }

  // ---------------------------------------------------------------- files

  /** What a file says: nothing when it is missing, empty, or no mapping. */
  function LayerOf(file: Option<Value>): Layer {
    if file.Some? && file.value.Dict? then ParseLayer(file.value.entries) else Layer(None, None, None, Nil)
  }

  /** A file is missing or holds a document whose mappings have distinct keys, as parsed ones have. */
  ghost predicate GoodFile(file: Option<Value>) { file.Some? ==> DistinctIn(file.value) }

  lemma FileIsLayer(cfg: AppConfig, file: Option<Value>, coerce: Coerce)
    ensures ApplyFile(cfg, file, coerce) == ApplyLayer(cfg, LayerOf(file), coerce)
  {
  }

  predicate AllDicts(items: seq<Value>) { forall i :: 0 <= i < |items| ==> items[i].Dict? }

  /** What some file can say: the keys that are popped are not sections, and plugin sources are mappings. */
  predicate Writable(l: Layer) {
    "plugins" !in Keys(l.sections) && "plugin_sources" !in Keys(l.sections)
    && "plugin_sources_enabled" !in Keys(l.sections)
    && (l.sources.Some? ==> AllDicts(l.sources.value))
  }

  lemma {:induction false} OnlyDictsAre(items: seq<Value>)
    ensures AllDicts(OnlyDicts(items)) && (AllDicts(items) ==> OnlyDicts(items) == items)
  {
    if items != [] { OnlyDictsAre(items[1..]); }
  }

  /** Every file says something good that could be written. */
  lemma FileIsGood(file: Option<Value>)
    requires GoodFile(file)
    ensures GoodLayer(LayerOf(file)) && Writable(LayerOf(file))
  {
    if file.Some? && file.value.Dict? {
      hide Distinct, Get, Keys, AllDicts, OnlyDicts;
      var raw := file.value.entries;
      if "plugins" in Keys(raw) { DistinctGet(raw, "plugins"); }
      var l := Lookup(raw, "plugin_sources");
      if l.Some? && l.value.List? { OnlyDictsAre(l.value.items); }
      RemoveKeeps(raw, "plugins");
      RemoveKeeps(Remove(raw, "plugins"), "plugin_sources");
      RemoveKeeps(Remove(Remove(raw, "plugins"), "plugin_sources"), "plugin_sources_enabled");
    } else {
      NothingIsGood();
    }
  }

  lemma NothingIsGood()
    ensures GoodLayer(Layer(None, None, None, Nil)) && Writable(Layer(None, None, None, Nil))
  {
  }

  function WithEntry(k: string, v: Option<Value>, o: Entries): Entries { if v.Some? then Cons(k, v.value, o) else o }

  /** The file that says what `l` says. */
  function FileFor(l: Layer): Option<Value> {
    var p := if l.plugins.Some? then Some(Dict(l.plugins.value)) else None;
    var s := if l.sources.Some? then Some(List(l.sources.value)) else None;
    var e := if l.enabled.Some? then Some(Bool(l.enabled.value)) else None;
    Some(Dict(WithEntry("plugins", p,
                        WithEntry("plugin_sources", s, WithEntry("plugin_sources_enabled", e, l.sections)))))
  }

  lemma WithEntryAt(k: string, v: Option<Value>, o: Entries, j: string)
    requires k !in Keys(o)
    ensures Lookup(WithEntry(k, v, o), j) == if j == k then v else Lookup(o, j)
    ensures Remove(WithEntry(k, v, o), j) == if j == k then o else WithEntry(k, v, Remove(o, j))
    ensures Distinct(o) && (v.Some? ==> DistinctIn(v.value)) ==> Distinct(WithEntry(k, v, o))
  {
    if j == k { RemoveAbsent(o, k); }
  }

  /** Writing a layer and parsing it again gives it back. */
  lemma WriteThenParse(l: Layer)
    requires GoodLayer(l) && Writable(l)
    ensures GoodFile(FileFor(l)) && LayerOf(FileFor(l)) == l
  {
    var p := if l.plugins.Some? then Some(Dict(l.plugins.value)) else None;
    var s := if l.sources.Some? then Some(List(l.sources.value)) else None;
    var e := if l.enabled.Some? then Some(Bool(l.enabled.value)) else None;
    var (kp, ks, ke) := ("plugins", "plugin_sources", "plugin_sources_enabled");
    assert |kp| == 7 && |ks| == 14 && |ke| == 22;
    var o0 := l.sections;
    var o1 := WithEntry(ke, e, o0);
    var o2 := WithEntry(ks, s, o1);
    var o3 := WithEntry(kp, p, o2);
    assert kp !in Keys(o2) && ks !in Keys(o1);
    WithEntryAt(kp, p, o2, kp);
    WithEntryAt(kp, p, o2, ks);
    WithEntryAt(kp, p, o2, ke);
    WithEntryAt(ks, s, o1, ks);
    WithEntryAt(ks, s, o1, ke);
    WithEntryAt(ke, e, o0, ke);
    if l.sources.Some? { OnlyDictsAre(l.sources.value); }
    assert Distinct(o3) by { assert Distinct(o1) && Distinct(o2); }
    hide Remove, Lookup, WithEntry, OnlyDicts, Distinct;
    assert FileFor(l) == Some(Dict(o3));
    assert Lookup(o3, kp) == p && Lookup(o3, ks) == s && Lookup(o3, ke) == e;
    assert Remove(Remove(Remove(o3, kp), ks), ke) == o0;
  }

  /** The second file laid over the first, as one file. */
  function OneFile(cfg: AppConfig, fa: Option<Value>, fb: Option<Value>): Option<Value> {
    FileFor(OverlayLayer(cfg, LayerOf(fa), LayerOf(fb)))
  }

  lemma OneFileSays(cfg: AppConfig, fa: Option<Value>, fb: Option<Value>)
    requires GoodFile(fa) && GoodFile(fb)
    ensures GoodFile(OneFile(cfg, fa, fb))
    ensures LayerOf(OneFile(cfg, fa, fb)) == OverlayLayer(cfg, LayerOf(fa), LayerOf(fb))
  {
    FileIsGood(fa);
    FileIsGood(fb);
    var (a, b) := (LayerOf(fa), LayerOf(fb));
    OverlayIsGood(cfg, a, b);
    CombinedSections(cfg.sections, a.sections, b.sections);
    hide LayerOf, Combine, BothSections, GoodLayer, AllDicts, FileFor;
    assert Writable(OverlayLayer(cfg, a, b));
    WriteThenParse(OverlayLayer(cfg, a, b));
  }

  /** Two files do not clash: no nested section of the configuration, and no plugin mapping, is replaced by the first
      and given a mapping again by the second, save for a plugin mapping that names every key it had. */
  ghost predicate CompatibleFiles(cfg: AppConfig, fa: Option<Value>, fb: Option<Value>) {
    CompatibleLayers(cfg, LayerOf(fa), LayerOf(fb))
  }

  /** Both files load, one after the other. */
  ghost predicate BothLoad(cfg: AppConfig, fa: Option<Value>, fb: Option<Value>, coerce: Coerce) {
    ApplyFile(cfg, fa, coerce).Some? && ApplyFile(ApplyFile(cfg, fa, coerce).value, fb, coerce).Some?
  }

  lemma BothLoadIff(cfg: AppConfig, fa: Option<Value>, fb: Option<Value>, coerce: Coerce)
    requires GoodConfig(cfg) && GoodFile(fa)
    ensures BothLoad(cfg, fa, fb, coerce)
       <==> !Raises(cfg.sections.Keys, LayerOf(fa).sections) && !Raises(cfg.sections.Keys, LayerOf(fb).sections)
  {
    hide LayerOf, ApplyFile, ApplyLayer, GoodConfig, GoodLayer, Raises, GoodFile;
    FileIsLayer(cfg, fa, coerce);
    FileIsGood(fa);
    LoadsUnlessRaises(cfg, LayerOf(fa), coerce);
    if ApplyFile(cfg, fa, coerce).Some? {
      var first := ApplyFile(cfg, fa, coerce).value;
      FileIsLayer(first, fb, coerce);
      LoadsUnlessRaises(first, LayerOf(fb), coerce);
      LayerKeepsGood(cfg, LayerOf(fa), coerce);
    }
  }

  /** Loading two files that do not clash is loading one, which can be written: the very same configuration, except
      for the order of keys of a plugin that is replaced in between. */
  lemma FilesCompose(cfg: AppConfig, fa: Option<Value>, fb: Option<Value>, coerce: Coerce)
    requires GoodConfig(cfg) && GoodFile(fa) && GoodFile(fb) && BothLoad(cfg, fa, fb, coerce)
    requires CompatibleFiles(cfg, fa, fb)
    ensures var twice := ApplyFile(ApplyFile(cfg, fa, coerce).value, fb, coerce);
            var once := ApplyFile(cfg, OneFile(cfg, fa, fb), coerce);
            GoodFile(OneFile(cfg, fa, fb)) && once.Some? && AlikeConfig(twice.value, once.value)
            && (OrderKept(cfg, LayerOf(fa), LayerOf(fb)) ==> twice == once)
  {
    hide LayerOf, ApplyFile, ApplyLayer, GoodConfig, GoodLayer, Raises, GoodFile, OneFile, OverlayLayer,
         CompatibleLayers, AlikeConfig, OrderKept;
    BothLoadIff(cfg, fa, fb, coerce);
    FileIsGood(fa);
    FileIsGood(fb);
    OneFileSays(cfg, fa, fb);
    TwoLayersCompose(cfg, LayerOf(fa), LayerOf(fb), coerce);
    FileIsLayer(cfg, fa, coerce);
    FileIsLayer(ApplyFile(cfg, fa, coerce).value, fb, coerce);
    FileIsLayer(cfg, OneFile(cfg, fa, fb), coerce);
  }

  /** Where they clash, no single file has their effect, not even up to the order of keys. */
  lemma NoSingleFile(cfg: AppConfig, fa: Option<Value>, fb: Option<Value>, file: Option<Value>, coerce: Coerce)
    requires GoodConfig(cfg) && GoodFile(fa) && GoodFile(fb) && GoodFile(file) && BothLoad(cfg, fa, fb, coerce)
    requires !CompatibleFiles(cfg, fa, fb) && ApplyFile(cfg, file, coerce).Some?
    ensures !AlikeConfig(ApplyFile(ApplyFile(cfg, fa, coerce).value, fb, coerce).value,
                         ApplyFile(cfg, file, coerce).value)
  {
    hide LayerOf, ApplyFile, ApplyLayer, GoodConfig, GoodLayer, GoodFile, CompatibleLayers, AlikeConfig;
    FileIsGood(fa);
    FileIsGood(fb);
    FileIsGood(file);
    FileIsLayer(cfg, fa, coerce);
    FileIsLayer(ApplyFile(cfg, fa, coerce).value, fb, coerce);
    FileIsLayer(cfg, file, coerce);
    NoOneLayer(cfg, LayerOf(fa), LayerOf(fb), LayerOf(file), coerce);
  }

  /** Two files that load collapse into one file exactly when they do not clash; the order in which mappings list
      their keys does not count. */
  lemma FilesComposeIff(cfg: AppConfig, fa: Option<Value>, fb: Option<Value>, coerce: Coerce)
    requires GoodConfig(cfg) && GoodFile(fa) && GoodFile(fb) && BothLoad(cfg, fa, fb, coerce)
    ensures var twice := ApplyFile(ApplyFile(cfg, fa, coerce).value, fb, coerce).value;
            (exists file :: GoodFile(file) && ApplyFile(cfg, file, coerce).Some?
                            && AlikeConfig(twice, ApplyFile(cfg, file, coerce).value))
            <==> CompatibleFiles(cfg, fa, fb)
  {
    hide ApplyFile, OneFile, GoodFile, GoodConfig, CompatibleFiles, AlikeConfig, OrderKept;
    if CompatibleFiles(cfg, fa, fb) {
      FilesCompose(cfg, fa, fb, coerce);
    } else {
      forall file | GoodFile(file) && ApplyFile(cfg, file, coerce).Some?
        ensures !AlikeConfig(ApplyFile(ApplyFile(cfg, fa, coerce).value, fb, coerce).value,
                             ApplyFile(cfg, file, coerce).value)
      {
        NoSingleFile(cfg, fa, fb, file, coerce);
      }
    }
  }

  /** Loading the same file twice is loading it once. */
  lemma FileTwice(cfg: AppConfig, file: Option<Value>, coerce: Coerce)
    requires GoodConfig(cfg) && GoodFile(file) && ApplyFile(cfg, file, coerce).Some?
    ensures ApplyFile(ApplyFile(cfg, file, coerce).value, file, coerce) == ApplyFile(cfg, file, coerce)
  {
    hide LayerOf, ApplyFile, ApplyLayer, GoodConfig, GoodLayer, GoodFile;
    FileIsGood(file);
    FileIsLayer(cfg, file, coerce);
    LoadsUnlessRaises(cfg, LayerOf(file), coerce);
    FileIsLayer(ApplyFile(cfg, file, coerce).value, file, coerce);
    LayerTwice(cfg, LayerOf(file), coerce);
  }
}
