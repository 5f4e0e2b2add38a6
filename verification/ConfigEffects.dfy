/** What a configuration file sets, read off the document itself. */
module ConfigEffects {
  import opened Common
  import opened ConfigMerge
  import opened ConfigLayers
  import opened ConfigFiles

  ghost predicate Rising(at: seq<nat>) { forall i, j :: 0 <= i < j < |at| ==> at[i] < at[j] }

  ghost predicate Holds(items: seq<Value>, n: nat, v: Value) { n < |items| && items[n] == v && v.Dict? }

  ghost predicate NoneMissed(items: seq<Value>, at: seq<nat>) {
    forall n :: 0 <= n < |items| && items[n].Dict? ==> n in at
  }

  ghost predicate Placed(items: seq<Value>, at: seq<nat>, dicts: seq<Value>) {
    |at| == |dicts| && forall i :: 0 <= i < |at| ==> Holds(items, at[i], dicts[i])
  }

  /** The mappings of a list, in order: `at` are the places where they stand. */
  ghost predicate TheDictsOf(items: seq<Value>, at: seq<nat>, dicts: seq<Value>) {
    Rising(at) && NoneMissed(items, at) && Placed(items, at, dicts)
  }

  function Shifted(at: seq<nat>): (r: seq<nat>)
    ensures |r| == |at| && forall i :: 0 <= i < |at| ==> r[i] == at[i] + 1
  {
    seq(|at|, i requires 0 <= i < |at| => at[i] + 1)
  }

  /** One item more in front moves every place up by one. */
  lemma ShiftedPlaces(x: Value, items: seq<Value>, at: seq<nat>)
    requires Rising(at) && NoneMissed(items, at)
    ensures Rising(Shifted(at)) && Rising([0] + Shifted(at))
    ensures NoneMissed([x] + items, [0] + Shifted(at)) && (!x.Dict? ==> NoneMissed([x] + items, Shifted(at)))
  {
    var (all, places) := ([x] + items, Shifted(at));
    forall n | 0 < n < |all| && all[n].Dict?
      ensures n in places && n in [0] + places
    {
      assert items[n - 1] == all[n];
      var i :| 0 <= i < |at| && at[i] == n - 1;
      assert places[i] == n && ([0] + places)[i + 1] == n;
    }
    assert ([0] + places)[0] == 0;
  }

  lemma PlacedShifted(x: Value, items: seq<Value>, at: seq<nat>, dicts: seq<Value>)
    requires Placed(items, at, dicts)
    ensures Placed([x] + items, Shifted(at), dicts)
  {
    forall i | 0 <= i < |at|
      ensures Holds([x] + items, at[i] + 1, dicts[i])
    {
      assert ([x] + items)[at[i] + 1] == items[at[i]];
    }
    hide Holds;
  }

  lemma PlacedFirst(x: Value, all: seq<Value>, at: seq<nat>, dicts: seq<Value>)
    requires Placed(all, at, dicts) && Holds(all, 0, x)
    ensures Placed(all, [0] + at, [x] + dicts)
  {
    hide Holds;
    forall i | 0 <= i < |at| + 1
      ensures Holds(all, ([0] + at)[i], ([x] + dicts)[i])
    {
      if i > 0 { assert ([0] + at)[i] == at[i - 1] && ([x] + dicts)[i] == dicts[i - 1]; }
    }
  }

  lemma AfterMapping(x: Value, items: seq<Value>, at: seq<nat>, dicts: seq<Value>)
    requires TheDictsOf(items, at, dicts) && x.Dict?
    ensures TheDictsOf([x] + items, [0] + Shifted(at), [x] + dicts)
  {
    assert Holds([x] + items, 0, x);
    hide Rising, NoneMissed, Holds, Placed, Shifted;
    ShiftedPlaces(x, items, at);
    PlacedShifted(x, items, at, dicts);
    PlacedFirst(x, [x] + items, Shifted(at), dicts);
  }

  lemma AfterOther(x: Value, items: seq<Value>, at: seq<nat>, dicts: seq<Value>)
    requires TheDictsOf(items, at, dicts) && !x.Dict?
    ensures TheDictsOf([x] + items, Shifted(at), dicts)
  {
    hide Rising, NoneMissed, Holds, Placed, Shifted;
    ShiftedPlaces(x, items, at);
    PlacedShifted(x, items, at, dicts);
  }

  lemma NoPlaces()
    ensures TheDictsOf([], [], [])
  {
  }

  lemma {:induction false} OnlyDictsPlaces(items: seq<Value>) returns (at: seq<nat>)
    ensures TheDictsOf(items, at, OnlyDicts(items))
  {
    hide TheDictsOf, Shifted;
    at := [];
    if items == [] {
      NoPlaces();
    } else {
      assert [items[0]] + items[1..] == items;
      at := OnlyDictsPlaces(items[1..]);
      if items[0].Dict? {
        AfterMapping(items[0], items[1..], at, OnlyDicts(items[1..]));
        at := [0] + Shifted(at);
      } else {
        AfterOther(items[0], items[1..], at, OnlyDicts(items[1..]));
        at := Shifted(at);
        assert [] + OnlyDicts(items[1..]) == OnlyDicts(items[1..]);
      }
    }
  }

  lemma Removed3(raw: Entries, k: string)
    requires Distinct(raw)
    requires k != "plugins" && k != "plugin_sources" && k != "plugin_sources_enabled"
    ensures var o := ParseLayer(raw).sections;
            Distinct(o) && (k in Keys(o) <==> k in Keys(raw)) && (k in Keys(raw) ==> Get(o, k) == Get(raw, k))
  {
    hide Distinct, Get, Keys;
    RemoveKeeps(raw, "plugins");
    RemoveKeeps(Remove(raw, "plugins"), "plugin_sources");
    RemoveKeeps(Remove(Remove(raw, "plugins"), "plugin_sources"), "plugin_sources_enabled");
  }

  /** A file loads exactly when no section of the configuration is given something other than a mapping, unless that
      is null, false, 0 or empty. */
  lemma LoadsIff(cfg: AppConfig, raw: Entries, coerce: Coerce)
    requires Distinct(raw) && !("plugins" in cfg.sections || "plugin_sources" in cfg.sections
                                || "plugin_sources_enabled" in cfg.sections)
    ensures ApplyFile(cfg, Some(Dict(raw)), coerce).None?
       <==> exists s :: s in cfg.sections && s in Keys(raw)
                        && !(Get(raw, s) in {Null, Bool(false), Number(0), Text(""), List([])} || Get(raw, s).Dict?)
  {
    hide Distinct, Get, Keys, Raises;
    Removed3(raw, "");
    RaisesIff(cfg.sections.Keys, ParseLayer(raw).sections);
    forall s | s in cfg.sections
      ensures s in Keys(ParseLayer(raw).sections) <==> s in Keys(raw)
      ensures s in Keys(raw) ==> Get(ParseLayer(raw).sections, s) == Get(raw, s)
    {
      Removed3(raw, s);
    }
    FileIsLayer(cfg, Some(Dict(raw)), coerce);
    LoadsUnlessRaises(cfg, ParseLayer(raw), coerce);
  }

  /** A list under "plugin_sources" replaces the sources by its mappings, in order; anything else leaves them. A truth
      value under "plugin_sources_enabled" replaces the switch; anything else leaves it. */
  lemma SourcesSet(cfg: AppConfig, raw: Entries, coerce: Coerce) returns (at: seq<nat>)
    requires ApplyFile(cfg, Some(Dict(raw)), coerce).Some?
    ensures var after := ApplyFile(cfg, Some(Dict(raw)), coerce).value;
            if "plugin_sources" in Keys(raw) && Get(raw, "plugin_sources").List?
            then TheDictsOf(Get(raw, "plugin_sources").items, at, after.sources)
            else after.sources == cfg.sources
    ensures var after := ApplyFile(cfg, Some(Dict(raw)), coerce).value;
            after.sourcesEnabled == if "plugin_sources_enabled" in Keys(raw) && Get(raw, "plugin_sources_enabled").Bool?
                                    then Get(raw, "plugin_sources_enabled").b else cfg.sourcesEnabled
  {
    hide ApplySections, MergePlugins, TheDictsOf, OnlyDicts;
    at := [];
    if "plugin_sources" in Keys(raw) && Get(raw, "plugin_sources").List? {
      at := OnlyDictsPlaces(Get(raw, "plugin_sources").items);
    }
  }

  /** The mapping of plugins a file carries, if it carries one. */
  predicate SaysOfPlugin(raw: Entries, id: string) {
    "plugins" in Keys(raw) && Get(raw, "plugins").Dict? && id in Keys(Get(raw, "plugins").entries)
  }

  /** A plugin the file names holds the new value, except that a mapping over a mapping keeps the old keys the new one
      leaves out; every other plugin is as it was. */
  lemma PluginSet(cfg: AppConfig, raw: Entries, coerce: Coerce, id: string)
    requires Distinct(raw) && DistinctPlugins(cfg.plugins) && ApplyFile(cfg, Some(Dict(raw)), coerce).Some?
    ensures var after := ApplyFile(cfg, Some(Dict(raw)), coerce).value.plugins;
            if !SaysOfPlugin(raw, id) then (id in after <==> id in cfg.plugins)
                                           && (id in after ==> after[id] == cfg.plugins[id])
            else
              var said := Get(Get(raw, "plugins").entries, id);
              id in after
              && if said.Dict? && id in cfg.plugins && cfg.plugins[id].Dict? then
                   var (had, given) := (cfg.plugins[id].entries, said.entries);
                   after[id].Dict? && Keys(after[id].entries) == Keys(had) + Keys(given)
                   && forall k :: k in Keys(after[id].entries) ==>
                        Get(after[id].entries, k) == if k in Keys(given) then Get(given, k) else Get(had, k)
                 else after[id] == said
  {
    hide ApplySections, MergePlugins, OnlyDicts, Distinct, Keys, Get, Update;
    FileIsLayer(cfg, Some(Dict(raw)), coerce);
    hide ApplyFile;
    var after := ApplyFile(cfg, Some(Dict(raw)), coerce).value.plugins;
    if "plugins" in Keys(raw) && Get(raw, "plugins").Dict? {
      DistinctGet(raw, "plugins");
      var o := Get(raw, "plugins").entries;
      MergePluginsAt(cfg.plugins, o, id);
      assert PluginAt(after, id) == if id in Keys(o) then Some(MergePlugin(PluginAt(cfg.plugins, id), Get(o, id)))
                                    else PluginAt(cfg.plugins, id);
      if id in Keys(o) {
        DistinctGet(o, id);
        var said := Get(o, id);
        if said.Dict? && id in cfg.plugins && cfg.plugins[id].Dict? {
          UpdateKeys(cfg.plugins[id].entries, said.entries);
        }
      }
    }
  }

  /** The five keys whose values are converted. */
  predicate IsConverted(s: string, k: string) {
    (s == "capture" && (k == "meshcore_usb" || k == "serial" || k == "rfenv_companion"))
    || (s == "repeater_poll" && k == "repeaters") || (s == "metrics" && k == "api_keys")
  }

  /** A field of a section: converted for five keys, merged where section meets mapping, replaced otherwise, and as it
      was if the file says nothing of it. */
  lemma FieldSet(cfg: AppConfig, raw: Entries, coerce: Coerce, s: string, k: string)
    requires GoodConfig(cfg) && Distinct(raw) && ApplyFile(cfg, Some(Dict(raw)), coerce).Some?
    requires s != "plugins" && s != "plugin_sources" && s != "plugin_sources_enabled"
    requires s in cfg.sections && k in cfg.sections[s]
    ensures var after := ApplyFile(cfg, Some(Dict(raw)), coerce).value.sections;
            s in after && k in after[s]
            && if s in Keys(raw) && Get(raw, s).Dict? && k in Keys(Get(raw, s).entries) then
                 var (was, said) := (cfg.sections[s][k], Get(Get(raw, s).entries, k));
                 if IsConverted(s, k) then after[s][k] == Leaf(List(coerce(s, k, said)))
                 else if was.Section? && said.Dict? then after[s][k] == Section(Merge(was.fields, said.entries))
                 else after[s][k] == Leaf(said)
               else after[s][k] == cfg.sections[s][k]
  {
    hide ApplySections, MergePlugins, OnlyDicts, Distinct, Keys, Get, Merge, Coerced, ParseLayer, SpecialsAreLeaves,
         ApplyFile;
    FileIsLayer(cfg, Some(Dict(raw)), coerce);
    Removed3(raw, s);
    var o := ParseLayer(raw).sections;
    SectionAt(cfg.sections, o, coerce, s);
    if s in Keys(raw) && Get(raw, s).Dict? {
      DistinctGet(raw, s);
      var entries := Get(raw, s).entries;
      CoercedAt(s, entries, coerce);
      MergeAt(cfg.sections[s], Coerced(s, entries, coerce), k);
      ConvertedIff(s, k);
    }
  }

  lemma ConvertedIff(s: string, k: string)
    ensures IsConverted(s, k) <==> (s, k) in SPECIAL
  {
  }
}
